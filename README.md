# pretty-good-sum: a verified model of the sum-type engine

This project models the runtime engine of the "pretty good sum" library,
which provides a closed tagged union `sum_type<Ts...>` for C++. The model has
three layers, one module each:

- `RecursiveWrappers` (`recursive_wrapper.dfy`) is the owning box
  `recursive_wrapper<T>`. It is a class with one heap pointer. The
  allocation it points to is a `Cell` object, which can be freed. The module
  also holds the type-level traits `is_recursive_wrapper` and
  `recursive_wrapper_unwrap`, over a datatype `Ty` of alternative
  descriptors.
- `RecursiveUnions` (`recursive_union.dfy`) is the tagged storage
  `recursive_union<Ts...>`. Link `k` of the right-leaning chain is a slot:
  - `Dead` when it is not constructed;
  - `Inline(v)` for a plain alternative;
  - `Boxed(w)` for a `recursive_wrapper` alternative.

  `copy`, `move`, `destruct`, `compare` and the visitor's index walk take a
  runtime ordinal and descend the chain one link at a time. The indexer
  `recursive_union_indexer<I>` descends in the same way, but its ordinal `I`
  is a template argument fixed at compile time. In the model it is a plain
  `nat` argument. Each descent is kept as a recursion over a link offset. The
  first-callable handler scan and `range_t` live here too.
- `SumTypes` (`sum_type.dfy`) is `sum_type<Ts...>`. It is a class with the
  discriminant `cons` and the storage `data`. Its invariant is that exactly
  one alternative is alive, and it is the one at `cons`. Every constructor
  and assignment re-establishes this invariant. The module also provides
  `index_of`, `type_at`, checked `get<I>` with its exact message, `==`, `!=`,
  `is_type_at` and `match`.

`Outcome` holds `Option` and `Result`. A thrown `invalid_sum_type_access` is
an `Err` that carries its message.

`Scenarios` holds client programs. They mirror the library's tests:
- the list `sum_type<recursive_wrapper<cons>, nil>` under `get`, copy- and
  move-assignment;
- the expression type under `match`, where `(2 + 3) / 5` evaluates to 1.

Every alternative's payload has one type parameter `T`. The static type of
each alternative is given by its `Ty` descriptor. A handler is a pair: a
predicate `callable` on `Ty`, standing for the compile-time `is_callable`
test, and the function it applies. `otherwise` is the handler whose
predicate always holds.

Two points of the code are easy to misread:
- A `match` with no handler callable on some alternative does not compile.
  No `visit` overload exists for an empty handler pack
  (`src/pgs/recursive_union.hpp:163-201`), and every alternative's scan is
  instantiated. So `SumType.Match` requires every alternative to be
  covered, rather than returning a runtime error for it. The only runtime
  error the walk has is running out of indices
  (`src/pgs/recursive_union.hpp:298-355`). `RecursiveUnion.Visit` models it.
- Moving a boxed alternative does not transfer the pointer. The wrapper's
  move constructor allocates a new `T`, move-constructed from the source's
  pointee. The source keeps its own allocation
  (`src/pgs/recursive_wrapper.hpp:145-152`).

## Model

| member | source | states |
|---|---|---|
| RecursiveWrappers.IsRecursiveWrapper | src/pgs/recursive_wrapper.hpp:29-37 | holds exactly for types of the form `recursive_wrapper<U>` |
| RecursiveWrappers.Unwrap | src/pgs/recursive_wrapper.hpp:43-60 | `recursive_wrapper<U>` unwraps to `U`; every other type is returned unchanged |
| RecursiveWrappers.RecursiveWrapper.constructor | src/pgs/recursive_wrapper.hpp:130-134 | the forwarding constructor (and construction from a `T`) allocates a fresh pointee holding the given value |
| RecursiveWrappers.RecursiveWrapper.Copy | src/pgs/recursive_wrapper.hpp:136-143 | a copy holds an equal value in a fresh allocation, distinct from the source's: a deep copy with no sharing |
| RecursiveWrappers.RecursiveWrapper.Move | src/pgs/recursive_wrapper.hpp:145-152 | move construction also allocates afresh, holding the source's old value; the source keeps its own pointer and stays valid |
| RecursiveWrappers.RecursiveWrapper.Destroy | src/pgs/recursive_wrapper.hpp:154-157 | the destructor frees exactly the owned allocation |
| RecursiveWrappers.RecursiveWrapper.Get | src/pgs/recursive_wrapper.hpp:200-210 | `get()` and `get_pointer()` reach the owned pointee |
| RecursiveWrappers.RecursiveWrapper.CopyAssign | src/pgs/recursive_wrapper.hpp:159-173 | copy-assignment from a wrapper writes the source's value into the existing pointee; the pointer is unchanged |
| RecursiveWrappers.RecursiveWrapper.Assign | src/pgs/recursive_wrapper.hpp:187-192 | assignment from a `T` writes into the existing pointee without reallocating |
| RecursiveWrappers.RecursiveWrapper.Swap | src/pgs/recursive_wrapper.hpp:175-178 | `swap` exchanges the two pointers and nothing else |
| RecursiveWrappers.RecursiveWrapper.MoveAssign | src/pgs/recursive_wrapper.hpp:180-185 | move-assignment is a swap: afterwards `rhs` owns the old pointee |
| RecursiveWrappers.RecursiveWrapper.Equals | src/pgs/recursive_wrapper.hpp:110-115 | `==` holds exactly when the pointees are equal as values, whatever their addresses |
| RecursiveWrappers.RecursiveWrapper.NotEquals | src/pgs/recursive_wrapper.hpp:117-123 | `!=` holds exactly when the pointees differ |
| RecursiveUnions.Dispatch | src/pgs/recursive_union.hpp:163-201 | the handler scan invokes the first handler callable on the type, once, with the value; no earlier handler is callable |
| RecursiveUnions.WildcardShadowsLaterHandlers | src/pgs/recursive_union.hpp:163-201 | a handler callable on every type, such as `otherwise`, is never passed over: no handler after it runs |
| RecursiveUnions.SoleCallableHandlerRuns | src/pgs/recursive_union.hpp:163-201 | when exactly one handler is callable on the type, that one runs, wherever it stands |
| RecursiveUnions.MkRange | src/pgs/recursive_union.hpp:277-285 | `mk_range<Z, N, Ns...>` is `Z, ..., N` followed by `Ns...` |
| RecursiveUnions.RangeT | src/pgs/recursive_union.hpp:288-290 | `range_t<Z, N>` is the ascending sequence `Z, Z+1, ..., N` |
| RecursiveUnions.RecursiveUnion.Uninitialized | src/pgs/recursive_union.hpp:618-620 | the default constructor leaves every alternative unconstructed |
| RecursiveUnions.RecursiveUnion.constructor | src/pgs/recursive_union.hpp:622-658 | `constructor<U>` constructs the value at the first alternative that is `U` or `recursive_wrapper<U>`, and only there; that alternative is boxed exactly when it is a wrapper |
| RecursiveUnions.RecursiveUnion.Deref | src/pgs/recursive_union.hpp:32-90 | the head value is the field itself for a plain alternative, and the wrapper's pointee, read through `get()`, for a wrapper |
| RecursiveUnions.RecursiveUnion.RefFrom | src/pgs/recursive_union.hpp:92-119 | the indexer descends exactly `I` links and yields the value there |
| RecursiveUnions.RecursiveUnion.Ref | src/pgs/recursive_union.hpp:121-149 | `ref<I>` is the value of alternative `I`, unwrapped through `get()` when it is boxed |
| RecursiveUnions.RecursiveUnion.CompareFrom | src/pgs/recursive_union.hpp:734-737 | `compare(i, rhs)` holds exactly when `i` is in range and alternative `i` of both unions is equal (a boxed alternative compares pointees) |
| RecursiveUnions.RecursiveUnion.Compare | src/pgs/recursive_union.hpp:603 | any ordinal past the end compares false, as the empty union does |
| RecursiveUnions.RecursiveUnion.CopyFrom | src/pgs/recursive_union.hpp:664-684 | afterwards alternative `i` is the only live one and equals `u`'s; a boxed one gets a fresh allocation; past the end nothing changes |
| RecursiveUnions.RecursiveUnion.Copy | src/pgs/recursive_union.hpp:597 | `copy` on the whole chain, with the empty union as a no-op |
| RecursiveUnions.RecursiveUnion.MoveFrom | src/pgs/recursive_union.hpp:686-707 | afterwards alternative `i` is the only live one and holds `u`'s old value; `u` stays valid with the same live alternative, and a boxed source keeps its wrapper |
| RecursiveUnions.RecursiveUnion.Move | src/pgs/recursive_union.hpp:599 | `move` on the whole chain, with the empty union as a no-op |
| RecursiveUnions.RecursiveUnion.DestructFrom | src/pgs/recursive_union.hpp:709-724 | exactly alternative `i` stops being alive, and a boxed one has its allocation freed; past the end nothing changes |
| RecursiveUnions.RecursiveUnion.Destruct | src/pgs/recursive_union.hpp:601 | `destruct` on the whole chain, with the empty union as a no-op |
| RecursiveUnions.RecursiveUnion.AssignRef | src/pgs/recursive_union.hpp:94-149 | writing through the indexer's reference changes the value of alternative `i` only; a boxed one keeps its wrapper and its allocation |
| RecursiveUnions.RecursiveUnion.Visit | src/pgs/recursive_union.hpp:298-469 | the index walk succeeds exactly when the ordinal lies in the remaining range, and then dispatches on the unwrapped value at that ordinal; otherwise it throws with an empty message |
| SumTypes.IndexOfImpl | src/pgs/sum_type.hpp:90-106 | yields the first position (offset by `I`) whose alternative is `T` or `recursive_wrapper<T>`, and exists exactly when there is one |
| SumTypes.IndexOf | src/pgs/sum_type.hpp:172-177 | `index_of<T, Ts...>` is the first position selecting `T` |
| SumTypes.TypeAt | src/pgs/sum_type.hpp:108-115 | `type_at<I, Ts...>` is `Ts[I]` with any `recursive_wrapper` removed |
| SumTypes.TypeAtIndexOf | src/pgs/sum_type.hpp:172-181 | for a type that is not a wrapper, the type at `index_of<T>` is `T` |
| SumTypes.Otherwise | src/pgs/sum_type.hpp:78-81 | `otherwise` is callable on every type |
| SumTypes.ToString | src/pgs/sum_type.hpp:141-143 | `std::to_string` of an ordinal is a non-empty string of decimal digits |
| SumTypes.DecimalRoundTrip | src/pgs/sum_type.hpp:141-143 | reading back the digits `std::to_string` writes yields the ordinal |
| SumTypes.AccessMessageDeterminesOrdinals | src/pgs/sum_type.hpp:137-146 | the message of a failed `get<I>` determines both the requested and the active ordinal |
| SumTypes.SumType.constructor | src/pgs/sum_type.hpp:243-248 | `cons` becomes `index_of<T>`, that alternative holds the value, and it is the only live one |
| SumTypes.SumType.Copy | src/pgs/sum_type.hpp:231-235 | the copy has the same active index and an equal value, in storage of its own |
| SumTypes.SumType.Move | src/pgs/sum_type.hpp:237-241 | the new value has the source's old active index and value; the source stays valid at the same index, owning the same objects, so it can still be reassigned and destroyed |
| SumTypes.SumType.Destroy | src/pgs/sum_type.hpp:250-253 | the destructor destructs alternative `cons` and no other; a boxed alternative's allocation is freed |
| SumTypes.SumType.CopyAssign | src/pgs/sum_type.hpp:255-265 | afterwards the target equals the source, and the source is unchanged; unless it is self-assignment, the old alternative's boxed allocation is freed; the invariant holds throughout, self-assignment included |
| SumTypes.SumType.MoveAssign | src/pgs/sum_type.hpp:267-277 | afterwards the target holds the source's old active index and value; the source stays valid at its index, owning the same objects; unless it is self-assignment, the old alternative's boxed allocation is freed |
| SumTypes.SumType.IsTypeAt | src/pgs/sum_type.hpp:314-318 | `is_type_at<I>()` holds exactly when the active index is `I`, and never fails |
| SumTypes.SumType.Get | src/pgs/sum_type.hpp:134-162 | `get<I>` succeeds exactly when `I` is the active index, yielding the active value; otherwise it fails with "Indexing with I, but the active index is cons" |
| SumTypes.SumType.AssignThroughGet | src/pgs/sum_type.hpp:332-335 | `get<I>(s) = x` changes the value to `x` when `I` is active, and otherwise fails with the message and leaves `s` unchanged |
| SumTypes.SumType.Match | src/pgs/sum_type.hpp:279-312 | with every alternative covered, `match` always reaches `cons` and returns what the first handler callable on the active alternative's unwrapped type yields on its value |
| SumTypes.Eq | src/pgs/sum_type.hpp:343-349 | `u == v` holds exactly when the active indices and the active values agree |
| SumTypes.NotEq | src/pgs/sum_type.hpp:351-354 | `!=` is the negation of `==`; values at different alternatives are never equal |

## Left out

- Exceptions thrown by a `T`'s own constructors, assignments or comparisons
  are not modelled. Neither is allocation failure. Each `T` operation is a
  total value operation here.
- Moved-from values: `MoveFrom`, `Move`, `SumType.Move` and
  `SumType.MoveAssign` promise only that the source stays valid with the same
  live alternative. They do not promise what its value is, because the code
  leaves it to `T`'s move constructor. A boxed source keeps its allocation,
  and the model makes no promise about that allocation's contents.
- SumType.CopyAssign: assignment from a value the target itself contains is
  not modelled. An example is assigning a list its own tail. The guard at
  `src/pgs/sum_type.hpp:257` only catches the target itself. The destruct at
  line 260 then frees the object that holds the source, and line 261 reads
  the source after that. Payloads are opaque values here, so the model cannot
  express such a source. The precondition admits only the target itself or
  a source whose storage is disjoint from the target's.
- SumType.MoveAssign: the same holds for move-assignment from a value the
  target contains (`src/pgs/sum_type.hpp:269-274`).
- `is_callable` overload detection (`src/pgs/type_traits.hpp`) is a predicate
  on `Ty`. The argument conversions that decide it are not modelled.
- The `const` and non-`const` overloads, and the `R` and `void` forms of
  `match` and of the visitor (`src/pgs/recursive_union.hpp:211-249`,
  `488-588`), are all modelled by one function each. The `void` form is
  `match` with a unit result.
- Every alternative's payload has one type, so a nested value inside a
  payload (the tail of a list, the operands of an expression) is not a
  `sum_type` of its own in the model. In `Scenarios`, operands are their
  evaluated values.
- `get_pointer()` is the same reference as `get()` in the model. Pointer
  arithmetic and addresses of inline alternatives are not modelled.
- `src/pgs/sum_type.hpp:72` spells the namespace keyword wrongly. This is
  read as `namespace BloombergLP`.
- `is_recursive_wrapper_containing` is defined outside these files. It is
  read as "the head alternative is `recursive_wrapper<U>`".
- `SumType.Match` never returns its error case. Coverage of every
  alternative is its precondition, because an uncovered alternative fails to
  compile. `RecursiveUnion.Visit` keeps the error case, for an ordinal
  outside the range.
- The older drafts `src/sum.hpp`, `src/recursive_union.hpp`,
  `src/recursive_wrapper.hpp`, `src/type_traits.hpp`, `src/logical.hpp` and
  `logical.hpp` are not part of this model. The same goes for the
  compile-time logic helpers and the test clients other than those in
  `Scenarios`.
