/**
 * The tagged storage `recursive_union<Ts...>`: a right-leaning chain in which
 * link `k` holds either the value of alternative `k` or the rest of the chain.
 * Every operation takes a runtime ordinal and walks the chain one link at a
 * time, acting at ordinal 0 and otherwise decrementing and recursing; the
 * empty union `recursive_union<>` ends every walk.
 *
 * The storage of link `k` is modelled as slot `k`: `Dead` while alternative
 * `k` is not constructed, `Inline(v)` for a plain alternative and `Boxed(w)`
 * for a `recursive_wrapper` alternative. Since the links share one piece of
 * memory, at most one slot is alive at a time.
 */
module RecursiveUnions {
  import opened Outcome
  import opened RecursiveWrappers

  /** `invalid_sum_type_access`, carrying its `what()` message. */
  datatype InvalidSumTypeAccess = InvalidSumTypeAccess(what: string)

  datatype Slot<T(==)> = Dead | Inline(value: T) | Boxed(box: RecursiveWrapper<T>)

  /** A slot agrees with its alternative's static type: boxed exactly for wrapper alternatives. */
  predicate Fits<T(==)>(alt: Ty, s: Slot<T>)
  {
    (s.Inline? ==> !IsRecursiveWrapper(alt)) && (s.Boxed? ==> IsRecursiveWrapper(alt))
  }

  /**
   * Overload selection of `recursive_union(constructor<U>, args...)`: the head
   * link takes the value when its alternative is `U` or `recursive_wrapper<U>`.
   */
  predicate Selects(alt: Ty, u: Ty)
  {
    alt == u || alt == RecursiveWrapperOf(u)
  }

  /**
   * A match handler: `callable(t)` stands for `is_callable<F, t>` (decided by
   * overload resolution at compile time) and `call` for invoking it.
   */
  datatype Handler<!T, R> = Handler(callable: Ty -> bool, call: T -> R)

  /** Which handler was invoked, and what it returned. */
  datatype Dispatched<R> = Dispatched(handler: nat, result: R)

  /** Some handler is callable on `t`; otherwise no `visit` overload exists and the program does not compile. */
  predicate Covers<T, R>(hs: seq<Handler<T, R>>, t: Ty)
  {
    exists k | 0 <= k < |hs| :: hs[k].callable(t)
  }

  /**
   * The handler scan `recursive_union_visitor<R, T>::visit(o, t, f, fs...)`:
   * call `f` if it is callable on `T`, else drop it and scan `fs...`.
   */
  function Dispatch<T, R>(t: Ty, v: T, hs: seq<Handler<T, R>>): (d: Dispatched<R>)
    requires Covers(hs, t)
    ensures d.handler < |hs| && hs[d.handler].callable(t)
    ensures forall j | 0 <= j < d.handler :: !hs[j].callable(t)
    ensures d.result == hs[d.handler].call(v)
    decreases |hs|
  {
    if hs[0].callable(t) then
      Dispatched(0, hs[0].call(v))
    else
      assert Covers(hs[1..], t) by {
        var k :| 0 <= k < |hs| && hs[k].callable(t);
        assert hs[1..][k - 1] == hs[k];
      }
      var d := Dispatch(t, v, hs[1..]);
      Dispatched(d.handler + 1, d.result)
  }

  /** A handler callable on every type (such as `otherwise`) shadows every handler after it. */
  lemma WildcardShadowsLaterHandlers<T, R>(t: Ty, v: T, hs: seq<Handler<T, R>>, k: nat)
    requires k < |hs| && forall u :: hs[k].callable(u)
    ensures Covers(hs, t) && Dispatch(t, v, hs).handler <= k
  {
    assert hs[k].callable(t);
  }

  /** When exactly one handler accepts `t`, that one runs wherever it stands in the list. */
  lemma SoleCallableHandlerRuns<T, R>(t: Ty, v: T, hs: seq<Handler<T, R>>, k: nat)
    requires k < |hs| && hs[k].callable(t)
    requires forall j | 0 <= j < |hs| && j != k :: !hs[j].callable(t)
    ensures Covers(hs, t) && Dispatch(t, v, hs) == Dispatched(k, hs[k].call(v))
  {
  }

  /**
   * `detail::mk_range<Z, N, Ns...>`: prepend `N` and recurse on `N - 1` until
   * `N` reaches `Z`, which yields `range<Z, Ns...>`.
   */
  function MkRange(z: nat, n: nat, ns: seq<nat>): (r: seq<nat>)
    requires z <= n
    ensures |r| == n - z + 1 + |ns|
    ensures forall j | 0 <= j <= n - z :: r[j] == z + j
    ensures r[n - z + 1..] == ns
    decreases n - z
  {
    if n == z then [z] + ns else MkRange(z, n - 1, [n] + ns)
  }

  /** `range_t<Z, N>`: the ascending ordinals `Z, Z+1, ..., N`. */
  function RangeT(z: nat, n: nat): (r: seq<nat>)
    requires z <= n
    ensures |r| == n - z + 1
    ensures forall j | 0 <= j < |r| :: r[j] == z + j
  {
    MkRange(z, n, [])
  }

  class RecursiveUnion<T(==)> {
    /** The alternatives `Ts...`, in declaration order. */
    const alts: seq<Ty>
    /** Slot `k` is the storage of link `k`. */
    var slots: seq<Slot<T>>
    ghost var Repr: set<object>

    ghost predicate Valid()
      reads this, Repr
    {
      && this in Repr
      && |slots| == |alts|
      && (forall k | 0 <= k < |slots| :: Fits(alts[k], slots[k]))
      && (forall k | 0 <= k < |slots| && slots[k].Boxed? ::
            slots[k].box in Repr && slots[k].box.p in Repr && slots[k].box.Valid())
      && (forall j, k | 0 <= j < k < |slots| :: slots[j].Dead? || slots[k].Dead?)
    }

    predicate AliveAt(k: nat)
      reads this
    {
      k < |slots| && !slots[k].Dead?
    }

    /** No alternative is constructed: raw storage. */
    predicate IsEmpty()
      reads this
    {
      forall k | 0 <= k < |slots| :: slots[k].Dead?
    }

    /** Alternative `k` is the one and only live alternative. */
    predicate OnlyAlive(k: nat)
      reads this
    {
      AliveAt(k) && forall j | 0 <= j < |slots| && j != k :: slots[j].Dead?
    }

    /** The objects owned by slot `k`: its wrapper and the wrapper's allocation. */
    ghost function Owned(k: nat): set<object>
      reads this, slots[k].box
      requires k < |slots| && slots[k].Boxed?
    {
      {slots[k].box, slots[k].box.p}
    }

    /** The default constructor `recursive_union()`: no alternative is constructed. */
    constructor Uninitialized(alts: seq<Ty>)
      ensures Valid() && fresh(Repr) && IsEmpty()
      ensures this.alts == alts
    {
      this.alts := alts;
      slots := seq(|alts|, k => Dead);
      Repr := {this};
    }

    /**
     * `recursive_union(constructor<U>, args...)`: the value goes to the head
     * when the head's alternative selects `U`, and otherwise into the rest, so
     * it lands at the first link whose alternative selects `U`.
     */
    constructor (alts: seq<Ty>, u: Ty, value: T)
      requires exists k | 0 <= k < |alts| :: Selects(alts[k], u)
      ensures Valid() && fresh(Repr) && this.alts == alts
      ensures forall k | 0 <= k < |alts| ::
                AliveAt(k) <==> Selects(alts[k], u) && forall j | 0 <= j < k :: !Selects(alts[j], u)
      ensures forall k | 0 <= k < |alts| && AliveAt(k) :: Deref(k) == value
    {
      var link := 0;
      while !Selects(alts[link], u)
        invariant 0 <= link < |alts|
        invariant forall j | 0 <= j < link :: !Selects(alts[j], u)
        invariant exists k | link <= k < |alts| :: Selects(alts[k], u)
        decreases |alts| - link
      {
        link := link + 1;
      }
      var s: Slot<T>;
      var owned: set<object> := {};
      if IsRecursiveWrapper(alts[link]) {
        var w := new RecursiveWrapper(value);
        s := Boxed(w);
        owned := {w, w.p};
      } else {
        s := Inline(value);
      }
      this.alts := alts;
      slots := seq(|alts|, k requires 0 <= k < |alts| => if k == link then s else Dead);
      new;
      Repr := {this} + owned;
    }

    /**
     * `recursive_union_dereference<is_recursive_wrapper<T>::value, T, Ts...>::ref`:
     * the head value, read through `get()` when the alternative is boxed.
     */
    function Deref(k: nat): (v: T)
      reads this, Repr
      requires Valid() && AliveAt(k)
      ensures slots[k].Inline? ==> v == slots[k].value
      ensures slots[k].Boxed? ==> v == slots[k].box.p.value
    {
      match slots[k]
      case Inline(x) => x
      case Boxed(w) => w.Get()
    }

    /**
     * `recursive_union_indexer<I, Ts...>::ref` applied to the sub-chain that
     * starts at `link`: descend `i` links, then dereference.
     */
    function RefFrom(link: nat, i: nat): (v: T)
      reads this, Repr
      requires Valid() && AliveAt(link + i)
      ensures v == Deref(link + i)
      decreases i
    {
      if i == 0 then Deref(link) else RefFrom(link + 1, i - 1)
    }

    /** `recursive_union_indexer<I, Ts...>::ref(u)` on the whole chain. */
    function Ref(i: nat): (v: T)
      reads this, Repr
      requires Valid() && AliveAt(i)
      ensures slots[i].Inline? ==> v == slots[i].value
      ensures slots[i].Boxed? ==> v == slots[i].box.Get()
    {
      RefFrom(0, i)
    }

    /**
     * `compare(i, rhs)` on the sub-chain starting at `link`: `v == rhs.v` at
     * ordinal 0, the rest otherwise, and `false` once the chain is exhausted.
     */
    function CompareFrom(link: nat, i: nat, rhs: RecursiveUnion<T>): (r: bool)
      reads this, Repr, rhs, rhs.Repr
      requires Valid() && rhs.Valid() && rhs.alts == alts && link <= |alts|
      requires link + i < |alts| ==> AliveAt(link + i) && rhs.AliveAt(link + i)
      ensures r <==> link + i < |alts| && Deref(link + i) == rhs.Deref(link + i)
      decreases |alts| - link
    {
      if link == |alts| then
        false
      else if i == 0 then
        if slots[link].Inline? then slots[link].value == rhs.slots[link].value
        else slots[link].box.Equals(rhs.slots[link].box)
      else
        CompareFrom(link + 1, i - 1, rhs)
    }

    /** `compare(i, rhs)`: alternative `i` of both unions compares equal; false for any `i` past the end. */
    function Compare(i: nat, rhs: RecursiveUnion<T>): (r: bool)
      reads this, Repr, rhs, rhs.Repr
      requires Valid() && rhs.Valid() && rhs.alts == alts
      requires i < |alts| ==> AliveAt(i) && rhs.AliveAt(i)
      ensures r <==> i < |alts| && Deref(i) == rhs.Deref(i)
    {
      CompareFrom(0, i, rhs)
    }

    /**
     * `copy(i, u)` on the sub-chain starting at `link`: placement
     * copy-construct the head from `u`'s head at ordinal 0, recurse otherwise;
     * a no-op on the empty union.
     */
    method CopyFrom(link: nat, i: nat, u: RecursiveUnion<T>)
      requires Valid() && u.Valid() && u.alts == alts && link <= |alts|
      requires IsEmpty() && Repr !! u.Repr
      requires link + i < |alts| ==> u.AliveAt(link + i)
      modifies this
      ensures Valid() && fresh(Repr - old(Repr))
      ensures link + i < |alts| ==> OnlyAlive(link + i) && Deref(link + i) == u.Deref(link + i)
      ensures link + i < |alts| && slots[link + i].Boxed? ==> fresh(Owned(link + i))
      ensures link + i >= |alts| ==> slots == old(slots)
      decreases |alts| - link
    {
      if link == |alts| {
      } else if i == 0 {
        var s: Slot<T>;
        if u.slots[link].Inline? {
          s := Inline(u.slots[link].value);
        } else {
          var w := new RecursiveWrapper.Copy(u.slots[link].box);
          s := Boxed(w);
          Repr := Repr + {w, w.p};
        }
        slots := slots[link := s];
      } else {
        CopyFrom(link + 1, i - 1, u);
      }
    }

    /** `copy(i, u)`: afterwards alternative `i` is alive and equals `u`'s, and nothing else is touched. */
    method Copy(i: nat, u: RecursiveUnion<T>)
      requires Valid() && u.Valid() && u.alts == alts
      requires IsEmpty() && Repr !! u.Repr
      requires i < |alts| ==> u.AliveAt(i)
      modifies this
      ensures Valid() && fresh(Repr - old(Repr))
      ensures i < |alts| ==> OnlyAlive(i) && Deref(i) == u.Deref(i)
      ensures i < |alts| && slots[i].Boxed? ==> fresh(Owned(i))
      ensures i >= |alts| ==> slots == old(slots)
    {
      CopyFrom(0, i, u);
    }

    /**
     * `move(i, u)` on the sub-chain starting at `link`: the same descent as
     * `copy`, but the head is move-constructed, which leaves `u`'s alternative
     * alive in a moved-from state (and, when boxed, keeps its own pointer).
     */
    method MoveFrom(link: nat, i: nat, u: RecursiveUnion<T>)
      requires Valid() && u.Valid() && u.alts == alts && link <= |alts|
      requires IsEmpty() && Repr !! u.Repr
      requires link + i < |alts| ==> u.AliveAt(link + i)
      modifies this, u.Repr
      ensures Valid() && fresh(Repr - old(Repr))
      ensures link + i < |alts| ==> OnlyAlive(link + i) && Deref(link + i) == old(u.Deref(link + i))
      ensures link + i < |alts| && slots[link + i].Boxed? ==> fresh(Owned(link + i))
      ensures link + i >= |alts| ==> slots == old(slots)
      ensures u.Valid() && u.Repr == old(u.Repr) && |u.slots| == |old(u.slots)|
      ensures forall k | 0 <= k < |u.slots| ::
                u.slots[k].Dead? == old(u.slots[k].Dead?) && (old(u.slots[k].Boxed?) ==> u.slots[k] == old(u.slots[k]))
      decreases |alts| - link
    {
      if link == |alts| {
      } else if i == 0 {
        var s: Slot<T>;
        if u.slots[link].Inline? {
          s := Inline(u.slots[link].value);
        } else {
          var w := new RecursiveWrapper.Move(u.slots[link].box);
          s := Boxed(w);
          Repr := Repr + {w, w.p};
        }
        slots := slots[link := s];
      } else {
        MoveFrom(link + 1, i - 1, u);
      }
    }

    /** `move(i, u)`: afterwards alternative `i` is alive and holds what `u`'s held. */
    method Move(i: nat, u: RecursiveUnion<T>)
      requires Valid() && u.Valid() && u.alts == alts
      requires IsEmpty() && Repr !! u.Repr
      requires i < |alts| ==> u.AliveAt(i)
      modifies this, u.Repr
      ensures Valid() && fresh(Repr - old(Repr))
      ensures i < |alts| ==> OnlyAlive(i) && Deref(i) == old(u.Deref(i))
      ensures i < |alts| && slots[i].Boxed? ==> fresh(Owned(i))
      ensures i >= |alts| ==> slots == old(slots)
      ensures u.Valid() && u.Repr == old(u.Repr) && |u.slots| == |old(u.slots)|
      ensures forall k | 0 <= k < |u.slots| ::
                u.slots[k].Dead? == old(u.slots[k].Dead?) && (old(u.slots[k].Boxed?) ==> u.slots[k] == old(u.slots[k]))
    {
      MoveFrom(0, i, u);
    }

    /**
     * `destruct(i)` on the sub-chain starting at `link`: end the lifetime of
     * the head at ordinal 0 (a boxed head deletes its allocation), recurse
     * otherwise; a no-op on the empty union.
     */
    method DestructFrom(link: nat, i: nat)
      requires Valid() && link <= |alts|
      modifies this, Repr
      ensures Valid() && Repr == old(Repr)
      ensures link + i < |alts| ==> slots == old(slots)[link + i := Dead]
      ensures link + i >= |alts| ==> slots == old(slots)
      ensures link + i < |alts| && old(slots)[link + i].Boxed? ==>
                old(slots)[link + i].box.p == old(slots[link + i].box.p) && !old(slots)[link + i].box.p.live
      decreases |alts| - link
    {
      if link == |alts| {
      } else if i == 0 {
        if slots[link].Boxed? {
          slots[link].box.Destroy();
        }
        slots := slots[link := Dead];
      } else {
        DestructFrom(link + 1, i - 1);
      }
    }

    /** `destruct(i)`: exactly alternative `i` stops being alive. */
    method Destruct(i: nat)
      requires Valid()
      modifies this, Repr
      ensures Valid() && Repr == old(Repr)
      ensures i < |alts| ==> slots == old(slots)[i := Dead]
      ensures i >= |alts| ==> slots == old(slots)
      ensures i < |alts| && old(slots)[i].Boxed? ==>
                old(slots)[i].box.p == old(slots[i].box.p) && !old(slots)[i].box.p.live
    {
      DestructFrom(0, i);
    }

    /**
     * Assignment through the reference that `recursive_union_indexer<I, Ts...>::ref`
     * yields: a plain value is overwritten; a boxed one is assigned into its
     * existing allocation, which is not replaced.
     */
    method AssignRef(i: nat, x: T)
      requires Valid() && AliveAt(i)
      modifies this, Repr
      ensures Valid() && Repr == old(Repr) && |slots| == |old(slots)|
      ensures forall k | 0 <= k < |slots| :: slots[k].Dead? == old(slots[k].Dead?)
      ensures Deref(i) == x
      ensures old(slots[i]).Boxed? ==> slots[i] == old(slots[i]) && slots[i].box.p == old(slots[i].box.p)
    {
      if slots[i].Inline? {
        slots := slots[i := Inline(x)];
      } else {
        slots[i].box.Assign(x);
      }
    }

    /**
     * The index walk `recursive_union_visitor<R, range<I, Is...>, T, Ts...>::visit(u, i, fs...)`
     * on the sub-chain starting at `link`: when `i == I` scan the handlers
     * against the (unwrapped) value of this link, otherwise recurse with
     * `range<Is...>`; once the range is exhausted, throw with an empty message.
     */
    function Visit<R>(range: seq<nat>, link: nat, i: nat, hs: seq<Handler<T, R>>): (r: Result<Dispatched<R>, InvalidSumTypeAccess>)
      reads this, Repr
      requires Valid() && link + |range| == |alts|
      requires forall j | 0 <= j < |range| :: range[j] == link + j
      requires forall k | link <= k < |alts| :: Covers(hs, Unwrap(alts[k]))
      requires link <= i < |alts| ==> AliveAt(i)
      ensures r.Ok? <==> link <= i < |alts|
      ensures r.Ok? ==> r.value == Dispatch(Unwrap(alts[i]), Deref(i), hs)
      ensures r.Err? ==> r.error == InvalidSumTypeAccess("")
      decreases |range|
    {
      if range == [] then
        Err(InvalidSumTypeAccess(""))
      else if i == range[0] then
        Ok(Dispatch(Unwrap(alts[link]), Deref(link), hs))
      else
        Visit(range[1..], link + 1, i, hs)
    }
  }
}
