/**
 * The owning box `recursive_wrapper<T>`: one heap-allocated `T` with value
 * semantics, plus the two type-level helpers `is_recursive_wrapper` and
 * `recursive_wrapper_unwrap`.
 */
module RecursiveWrappers {

  /** Static types of alternatives: a named type, or `recursive_wrapper<payload>`. */
  datatype Ty = Named(name: string) | RecursiveWrapperOf(payload: Ty)

  /** `is_recursive_wrapper<t>::value` */
  predicate IsRecursiveWrapper(t: Ty): (r: bool)
    ensures r <==> exists u :: t == RecursiveWrapperOf(u)
  {
    t.RecursiveWrapperOf?
  }

  /** `recursive_wrapper_unwrap_t<t>`: strips one wrapper, leaves every other type alone. */
  function Unwrap(t: Ty): (u: Ty)
    ensures IsRecursiveWrapper(t) ==> RecursiveWrapperOf(u) == t
    ensures !IsRecursiveWrapper(t) ==> u == t
  {
    match t
    case RecursiveWrapperOf(payload) => payload
    case Named(_) => t
  }

  /** A heap allocation holding one `T`; `live` is false once it has been deleted. */
  class Cell<T> {
    var value: T
    var live: bool

    constructor (value: T)
      ensures this.value == value && live
    {
      this.value := value;
      live := true;
    }
  }

  class RecursiveWrapper<T(==)> {
    /** The owned pointer `p_`. */
    var p: Cell<T>

    ghost predicate Valid()
      reads this, p
    {
      p.live
    }

    /** Forwarding constructor, copy-from-`T` and move-from-`T`: a fresh allocation. */
    constructor (value: T)
      ensures Valid() && fresh(p) && p.value == value
    {
      p := new Cell(value);
    }

    /** Copy constructor: a deep copy in a fresh allocation, never sharing `rhs.p`. */
    constructor Copy(rhs: RecursiveWrapper<T>)
      requires rhs.Valid()
      ensures Valid() && fresh(p) && p.value == rhs.p.value
      ensures p != rhs.p
    {
      p := new Cell(rhs.p.value);
    }

    /**
     * Move constructor: also allocates, move-constructing from `rhs.get()`;
     * `rhs` keeps its own pointer, whose pointee is left moved-from.
     */
    constructor Move(rhs: RecursiveWrapper<T>)
      requires rhs.Valid()
      modifies rhs.p
      ensures Valid() && fresh(p) && p.value == old(rhs.p.value)
      ensures rhs.p == old(rhs.p) && rhs.Valid()
    {
      p := new Cell(rhs.p.value);
    }

    /** Destructor: deletes exactly the owned allocation. */
    method Destroy()
      requires Valid()
      modifies p
      ensures !p.live && p.value == old(p.value)
    {
      p.live := false;
    }

    /** `get()` / `get_pointer()`: the owned pointee. */
    function Get(): (v: T)
      reads this, p
      requires Valid()
      ensures v == p.value
    {
      p.value
    }

    /** Copy-assign from a wrapper: writes into the existing pointee, no reallocation. */
    method CopyAssign(rhs: RecursiveWrapper<T>)
      requires Valid() && rhs.Valid()
      modifies p
      ensures p == old(p) && Valid() && rhs.Valid()
      ensures p.value == old(rhs.p.value)
    {
      p.value := rhs.p.value;
    }

    /** Copy-assign and move-assign from a `T`: writes into the existing pointee. */
    method Assign(x: T)
      requires Valid()
      modifies p
      ensures p == old(p) && Valid() && p.value == x
    {
      p.value := x;
    }

    /** Member `swap` and the free `swap`: exchange the two pointers, nothing else. */
    method Swap(rhs: RecursiveWrapper<T>)
      modifies this, rhs
      ensures p == old(rhs.p) && rhs.p == old(p)
    {
      p, rhs.p := rhs.p, p;
    }

    /** Move-assign from a wrapper: a swap, so `rhs` ends up owning the old pointee. */
    method MoveAssign(rhs: RecursiveWrapper<T>)
      modifies this, rhs
      ensures p == old(rhs.p) && rhs.p == old(p)
    {
      Swap(rhs);
    }

    /** `operator==`: compares the pointees by value, never the addresses. */
    function Equals(rhs: RecursiveWrapper<T>): (r: bool)
      reads this, p, rhs, rhs.p
      requires Valid() && rhs.Valid()
      ensures r <==> p.value == rhs.p.value
    {
      Get() == rhs.Get()
    }

    /** `operator!=`: the negation of `operator==`. */
    function NotEquals(rhs: RecursiveWrapper<T>): (r: bool)
      reads this, p, rhs, rhs.p
      requires Valid() && rhs.Valid()
      ensures r <==> p.value != rhs.p.value
    {
      !Equals(rhs)
    }
  }
}
