/**
 * The sum value `sum_type<Ts...>`: a discriminant `cons` and the tagged
 * storage `data`, together with the type-level helpers `index_of` and
 * `type_at`, checked access `get<I>`, equality and `match`.
 */
module SumTypes {
  import opened Outcome
  import opened RecursiveWrappers
  import opened RecursiveUnions

  /**
   * `detail::index_of_impl<I, T, Ts...>`: `I` when the head of `Ts` is `T` or
   * `recursive_wrapper<T>`, otherwise recurse on the tail with `I + 1`; there
   * is no answer (the program does not compile) when `Ts` runs out.
   */
  function IndexOfImpl(i: nat, t: Ty, ts: seq<Ty>): (r: Option<nat>)
    ensures r.Some? <==> exists k | 0 <= k < |ts| :: Selects(ts[k], t)
    ensures r.Some? ==> i <= r.value < i + |ts| && Selects(ts[r.value - i], t)
    ensures r.Some? ==> forall j | 0 <= j < r.value - i :: !Selects(ts[j], t)
    decreases |ts|
  {
    if ts == [] then
      None
    else if Selects(ts[0], t) then
      Some(i)
    else
      var r := IndexOfImpl(i + 1, t, ts[1..]);
      assert forall k | 1 <= k < |ts| :: ts[1..][k - 1] == ts[k];
      r
  }

  /** `index_of<T, Ts...>::value`: the first position whose alternative is `T` or `recursive_wrapper<T>`. */
  function IndexOf(t: Ty, ts: seq<Ty>): (r: Option<nat>)
    ensures r.Some? <==> exists k | 0 <= k < |ts| :: Selects(ts[k], t)
    ensures r.Some? ==> r.value < |ts| && Selects(ts[r.value], t)
    ensures r.Some? ==> forall j | 0 <= j < r.value :: !Selects(ts[j], t)
  {
    IndexOfImpl(0, t, ts)
  }

  /** `type_at<I, Ts...>` via `detail::type_at_impl`: drop `I` heads, then unwrap. */
  function TypeAt(i: nat, ts: seq<Ty>): (r: Ty)
    requires i < |ts|
    ensures r == Unwrap(ts[i])
    decreases i
  {
    if i == 0 then Unwrap(ts[0]) else TypeAt(i - 1, ts[1..])
  }

  /** For a type that is not itself a wrapper, the type at `index_of<T>` is `T` again. */
  lemma TypeAtIndexOf(t: Ty, ts: seq<Ty>)
    requires !IsRecursiveWrapper(t) && IndexOf(t, ts).Some?
    ensures TypeAt(IndexOf(t, ts).value, ts) == t
  {
  }

  /** The wildcard `otherwise`: constructible from anything, so callable on every alternative. */
  function Otherwise<T, R>(call: T -> R): (h: Handler<T, R>)
    ensures forall t :: h.callable(t)
    ensures h.call == call
  {
    Handler(t => true, call)
  }

  predicate IsDigit(c: char)
  {
    '0' <= c <= '9'
  }

  predicate IsDigits(s: string)
  {
    forall k | 0 <= k < |s| :: IsDigit(s[k])
  }

  function DigitChar(d: nat): (c: char)
    requires d < 10
    ensures IsDigit(c) && c as int - '0' as int == d
  {
    ('0' as int + d) as char
  }

  /** `std::to_string` on an ordinal: decimal digits, most significant first. */
  function ToString(n: nat): (s: string)
    ensures |s| >= 1 && IsDigits(s)
    decreases n
  {
    if n < 10 then [DigitChar(n)] else ToString(n / 10) + [DigitChar(n % 10)]
  }

  /** The number a string of decimal digits denotes. */
  function DecimalValue(s: string): nat
    requires IsDigits(s)
    decreases |s|
  {
    if s == [] then 0 else DecimalValue(s[..|s| - 1]) * 10 + (s[|s| - 1] as int - '0' as int)
  }

  lemma {:induction false} DecimalRoundTrip(n: nat)
    ensures DecimalValue(ToString(n)) == n
  {
    if n >= 10 {
      DecimalRoundTrip(n / 10);
      var s := ToString(n);
      assert s[..|s| - 1] == ToString(n / 10);
    }
  }

  /** The length of the run of digits a string starts with. */
  function DigitRun(s: string): nat
    decreases |s|
  {
    if s == [] || !IsDigit(s[0]) then 0 else 1 + DigitRun(s[1..])
  }

  lemma {:induction false} DigitRunOfDigitsThenSeparator(a: string, rest: string)
    requires IsDigits(a) && rest != [] && !IsDigit(rest[0])
    ensures DigitRun(a + rest) == |a|
  {
    if a == [] {
      assert a + rest == rest;
    } else {
      assert (a + rest)[1..] == a[1..] + rest;
      DigitRunOfDigitsThenSeparator(a[1..], rest);
    }
  }

  const IndexingWith := "Indexing with "
  const ButActiveIndexIs := ", but the active index is "

  /** The `what()` text `get<I>` throws with when `I` is not the active index. */
  function AccessMessage(requested: nat, active: nat): string
  {
    IndexingWith + ToString(requested) + ButActiveIndexIs + ToString(active)
  }

  /**
   * Two strings of digits, each after the same prefix and followed by the
   * same separator, split a string in one way only.
   */
  lemma SplitAfterDigits(p: string, a1: string, b1: string, a2: string, b2: string, m: string)
    requires IsDigits(a1) && IsDigits(a2) && m != [] && !IsDigit(m[0])
    requires p + a1 + m + b1 == p + a2 + m + b2
    ensures a1 == a2 && b1 == b2
  {
    var s1, s2 := a1 + (m + b1), a2 + (m + b2);
    assert s1 == (p + a1 + m + b1)[|p|..];
    assert s2 == (p + a2 + m + b2)[|p|..];
    DigitRunOfDigitsThenSeparator(a1, m + b1);
    DigitRunOfDigitsThenSeparator(a2, m + b2);
    assert a1 == s1[..|a1|] && a2 == s2[..|a2|];
    assert m + b1 == s1[|a1|..] && m + b2 == s2[|a2|..];
    assert b1 == (m + b1)[|m|..] && b2 == (m + b2)[|m|..];
  }

  /** The message of a failed `get<I>` determines both the requested and the active ordinal. */
  lemma AccessMessageDeterminesOrdinals(i1: nat, c1: nat, i2: nat, c2: nat)
    requires AccessMessage(i1, c1) == AccessMessage(i2, c2)
    ensures i1 == i2 && c1 == c2
  {
    assert ButActiveIndexIs[0] == ',';
    SplitAfterDigits(IndexingWith, ToString(i1), ToString(c1), ToString(i2), ToString(c2), ButActiveIndexIs);
    DecimalRoundTrip(i1);
    DecimalRoundTrip(c1);
    DecimalRoundTrip(i2);
    DecimalRoundTrip(c2);
  }

  /** The abstract value of a sum: the active ordinal and the (unwrapped) value there. */
  datatype Alternative<T> = Alternative(index: nat, payload: T)

  class SumType<T(==)> {
    /** The discriminant: the ordinal of the active alternative. */
    var cons: nat
    /** The storage, owned by value. */
    const data: RecursiveUnion<T>
    ghost var Repr: set<object>

    /** Exactly one alternative is alive, and it is the one at `cons`. */
    ghost predicate Valid()
      reads this, Repr
    {
      && this in Repr
      && data in Repr && data.Repr <= Repr && this !in data.Repr
      && data.Valid()
      && cons < |data.alts|
      && data.OnlyAlive(cons)
    }

    /** The alternatives `Ts...`. */
    function Alts(): seq<Ty>
    {
      data.alts
    }

    ghost function Value(): Alternative<T>
      reads this, Repr
      requires Valid()
    {
      Alternative(cons, data.Deref(cons))
    }

    /**
     * `sum_type(constructor<T>, args...)`: `cons` becomes `index_of<T, Ts...>`
     * and the storage constructs that alternative, and only that one.
     */
    constructor (alts: seq<Ty>, u: Ty, value: T)
      requires IndexOf(u, alts).Some?
      ensures Valid() && fresh(Repr) && Alts() == alts
      ensures Value() == Alternative(IndexOf(u, alts).value, value)
    {
      data := new RecursiveUnion(alts, u, value);
      cons := IndexOf(u, alts).value;
      new;
      Repr := {this} + data.Repr;
      forall j | 0 <= j < |alts| && j != cons
        ensures data.slots[j].Dead?
      {
        if j < cons {
          assert !Selects(alts[j], u);
        } else {
          assert Selects(alts[cons], u);
        }
      }
    }

    /** Copy constructor: same `cons`, then `copy` of that alternative; a deep copy. */
    constructor Copy(other: SumType<T>)
      requires other.Valid()
      ensures Valid() && fresh(Repr) && Alts() == other.Alts()
      ensures Value() == other.Value()
    {
      cons := other.cons;
      data := new RecursiveUnion.Uninitialized(other.data.alts);
      new;
      data.Copy(cons, other.data);
      Repr := {this} + data.Repr;
    }

    /** Move constructor: same `cons`, then `move` of that alternative; `other` stays alive, moved-from. */
    constructor Move(other: SumType<T>)
      requires other.Valid()
      modifies other.Repr
      ensures Valid() && fresh(Repr) && Alts() == other.Alts()
      ensures Value() == old(other.Value())
      ensures other.Valid() && other.Repr == old(other.Repr) && other.cons == old(other.cons)
    {
      cons := other.cons;
      data := new RecursiveUnion.Uninitialized(other.data.alts);
      new;
      data.Move(cons, other.data);
      Repr := {this} + data.Repr;
    }

    /** Destructor: destructs alternative `cons` and no other. */
    method Destroy()
      requires Valid()
      modifies Repr
      ensures data.Valid() && data.IsEmpty() && cons == old(cons)
      ensures data.slots == old(data.slots)[cons := Dead]
      ensures old(data.slots[cons]).Boxed? ==> !old(data.slots[cons].box.p).live
    {
      data.Destruct(cons);
    }

    /**
     * Copy-assignment: nothing happens on self-assignment; otherwise destruct
     * the old alternative, take `other.cons`, and copy that alternative in.
     */
    method CopyAssign(other: SumType<T>)
      requires Valid() && other.Valid() && other.Alts() == Alts()
      requires other == this || Repr !! other.Repr
      modifies Repr
      ensures Valid() && fresh(Repr - old(Repr))
      ensures Value() == old(other.Value())
      ensures other.Valid() && other.Value() == old(other.Value())
      ensures other != this && old(data.slots[cons]).Boxed? ==> !old(data.slots[cons].box.p).live
    {
      if other == this {
        return;
      }
      data.Destruct(cons);
      cons := other.cons;
      data.Copy(cons, other.data);
      Repr := Repr + data.Repr;
    }

    /**
     * Move-assignment: nothing happens on self-assignment; otherwise destruct
     * the old alternative, take `other.cons`, and move that alternative in.
     */
    method MoveAssign(other: SumType<T>)
      requires Valid() && other.Valid() && other.Alts() == Alts()
      requires other == this || Repr !! other.Repr
      modifies Repr, other.Repr
      ensures Valid() && fresh(Repr - old(Repr))
      ensures Value() == old(other.Value())
      ensures other.Valid() && other.Repr == old(other.Repr) && other.cons == old(other.cons)
      ensures other != this && old(data.slots[cons]).Boxed? ==> !old(data.slots[cons].box.p).live
    {
      if other == this {
        return;
      }
      data.Destruct(cons);
      cons := other.cons;
      data.Move(cons, other.data);
      Repr := Repr + data.Repr;
    }

    /** `is_type_at<I>()`: whether alternative `I` is the active one; never fails. */
    function IsTypeAt(i: nat): (r: bool)
      reads this, Repr
      requires Valid()
      ensures r <==> Value().index == i
    {
      cons == i
    }

    /**
     * `get<I>(s)`: throws `invalid_sum_type_access` naming both ordinals when
     * `I` is not the active index, else yields the indexer's reference.
     */
    function Get(i: nat): (r: Result<T, InvalidSumTypeAccess>)
      reads this, Repr
      requires Valid() && i < |Alts()|
      ensures r.Ok? <==> Value().index == i
      ensures r.Ok? ==> r.value == Value().payload
      ensures r.Err? ==> r.error == InvalidSumTypeAccess(AccessMessage(i, Value().index))
    {
      if cons != i then
        Err(InvalidSumTypeAccess(AccessMessage(i, cons)))
      else
        Ok(data.Ref(i))
    }

    /**
     * The non-`const` `get<I>(s)` used as an lvalue, `get<I>(s) = x`: checked
     * like `get`, then assigns through the reference (into the existing
     * allocation when the alternative is boxed).
     */
    method AssignThroughGet(i: nat, x: T) returns (r: Result<(), InvalidSumTypeAccess>)
      requires Valid() && i < |Alts()|
      modifies Repr
      ensures Valid() && Repr == old(Repr) && cons == old(cons)
      ensures r.Ok? <==> old(cons) == i
      ensures r.Ok? ==> Value() == Alternative(i, x)
      ensures r.Err? ==> r.error == InvalidSumTypeAccess(AccessMessage(i, cons)) && Value() == old(Value())
    {
      if cons != i {
        return Err(InvalidSumTypeAccess(AccessMessage(i, cons)));
      }
      data.AssignRef(i, x);
      r := Ok(());
    }

    /**
     * `match<R>(fs...)` (and the `void` form): walk `range_t<0, n-1>` against
     * `cons` and invoke the first handler callable on the active alternative's
     * unwrapped type. Every alternative must be covered for the program to
     * compile; the walk then always finds `cons`.
     */
    function Match<R>(hs: seq<Handler<T, R>>): (r: Result<Dispatched<R>, InvalidSumTypeAccess>)
      reads this, Repr
      requires Valid()
      requires forall k | 0 <= k < |Alts()| :: Covers(hs, TypeAt(k, Alts()))
      ensures r.Ok?
      ensures r.value.handler < |hs| && hs[r.value.handler].callable(TypeAt(Value().index, Alts()))
      ensures forall j | 0 <= j < r.value.handler :: !hs[j].callable(TypeAt(Value().index, Alts()))
      ensures r.value.result == hs[r.value.handler].call(Value().payload)
    {
      assert forall k | 0 <= k < |Alts()| :: TypeAt(k, Alts()) == Unwrap(Alts()[k]);
      data.Visit(RangeT(0, |Alts()| - 1), 0, cons, hs)
    }
  }

  /** `operator==`: equal active indices, and `compare_at` on that index. */
  function Eq<T(==)>(u: SumType<T>, v: SumType<T>): (r: bool)
    reads u, u.Repr, v, v.Repr
    requires u.Valid() && v.Valid() && u.Alts() == v.Alts()
    ensures r <==> u.Value() == v.Value()
  {
    var m, n := u.cons, v.cons;
    m == n && u.data.Compare(m, v.data)
  }

  /** `operator!=`: the negation of `operator==`, so different active alternatives are never equal. */
  function NotEq<T(==)>(u: SumType<T>, v: SumType<T>): (r: bool)
    reads u, u.Repr, v, v.Repr
    requires u.Valid() && v.Valid() && u.Alts() == v.Alts()
    ensures u.Value().index != v.Value().index ==> r
    ensures r <==> u.Value() != v.Value()
  {
    !Eq(u, v)
  }
}
