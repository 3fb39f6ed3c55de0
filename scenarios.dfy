/**
 * Client programs over the model: the list and expression types the
 * library's own tests build, with the outcomes those tests expect.
 */
module Scenarios {
  import opened Outcome
  import opened RecursiveWrappers
  import opened RecursiveUnions
  import opened SumTypes

  /** The payload of a list node; the tail, itself a list, is not part of the payload. */
  datatype ListNode = ConsNode(hd: int) | NilNode

  /** `list<T> = sum_type<recursive_wrapper<cons<T>>, nil<T>>`. */
  const ListAlts: seq<Ty> := [RecursiveWrapperOf(Named("cons")), Named("nil")]

  lemma ListGetMessage()
    ensures AccessMessage(1, 0) == "Indexing with 1, but the active index is 0"
  {
    assert DigitChar(1) == '1' && DigitChar(0) == '0';
    assert ToString(1) == "1" && ToString(0) == "0";
    assert AccessMessage(1, 0) == IndexingWith + "1" + ButActiveIndexIs + "0";
  }

  /** `1 :: []`: alternative 0 is readable, `get<1>` throws naming both ordinals; on `[]` it does not. */
  method ListGet()
  {
    assert IndexOf(Named("cons"), ListAlts) == Some(0);
    var l := new SumType(ListAlts, Named("cons"), ConsNode(1));
    assert l.Get(0) == Ok(ConsNode(1));
    ListGetMessage();
    assert l.Get(1) == Err(InvalidSumTypeAccess("Indexing with 1, but the active index is 0"));

    assert IndexOf(Named("nil"), ListAlts) == Some(1);
    var e := new SumType(ListAlts, Named("nil"), NilNode);
    assert e.Get(1).Ok?;
  }

  /** `m = l` turns an empty list into the singleton, and leaves `l` as it was. */
  method ListCopyAssign()
  {
    assert IndexOf(Named("cons"), ListAlts) == Some(0);
    assert IndexOf(Named("nil"), ListAlts) == Some(1);
    var l := new SumType(ListAlts, Named("cons"), ConsNode(1));
    var m := new SumType(ListAlts, Named("nil"), NilNode);
    assert m.IsTypeAt(1);
    m.CopyAssign(l);
    assert m.IsTypeAt(0) && m.Get(0) == Ok(ConsNode(1));
    assert l.IsTypeAt(0) && l.Get(0) == Ok(ConsNode(1));
  }

  /** `m = std::move(l)` turns an empty list into the singleton. */
  method ListMoveAssign()
  {
    assert IndexOf(Named("cons"), ListAlts) == Some(0);
    assert IndexOf(Named("nil"), ListAlts) == Some(1);
    var l := new SumType(ListAlts, Named("cons"), ConsNode(1));
    var m := new SumType(ListAlts, Named("nil"), NilNode);
    assert m.IsTypeAt(1);
    m.MoveAssign(l);
    assert m.IsTypeAt(0) && m.Get(0) == Ok(ConsNode(1));
    assert l.IsTypeAt(0);
  }

  /**
   * A moved-from list can still be reassigned and destroyed by its owner, and
   * destroying a boxed alternative frees its allocation.
   */
  method ListMovedFromIsReusable()
  {
    assert IndexOf(Named("cons"), ListAlts) == Some(0);
    assert IndexOf(Named("nil"), ListAlts) == Some(1);
    var l := new SumType(ListAlts, Named("cons"), ConsNode(1));
    var m := new SumType(ListAlts, Named("nil"), NilNode);
    m.MoveAssign(l);
    assert m.Get(0) == Ok(ConsNode(1));
    l.CopyAssign(m);
    assert l.Get(0) == Ok(ConsNode(1));
    var cell := m.data.slots[0].box.p;
    m.Destroy();
    assert !cell.live;
    l.Destroy();
  }

  /** A copy owns its own allocation: writing through the copy's `get<0>` leaves the original alone. */
  method ListCopyIsDeep()
  {
    assert IndexOf(Named("cons"), ListAlts) == Some(0);
    var l := new SumType(ListAlts, Named("cons"), ConsNode(1));
    var c := new SumType.Copy(l);
    assert Eq(l, c);
    var r := c.AssignThroughGet(0, ConsNode(2));
    assert r.Ok?;
    assert c.Get(0) == Ok(ConsNode(2));
    assert l.Get(0) == Ok(ConsNode(1));
    assert NotEq(l, c);
  }

  /** Two lists in different alternatives are unequal, whatever their payloads. */
  method ListDifferentAlternativesDiffer()
  {
    assert IndexOf(Named("cons"), ListAlts) == Some(0);
    assert IndexOf(Named("nil"), ListAlts) == Some(1);
    var l := new SumType(ListAlts, Named("cons"), NilNode);
    var e := new SumType(ListAlts, Named("nil"), NilNode);
    assert !Eq(l, e) && NotEq(l, e);
  }

  /** The payload of an expression node: a constant, or the values of the two operands. */
  datatype ExprNode = Const(i: int) | Binary(l: int, r: int)

  /** `sum_type<E_const, recursive_wrapper<E_add>, ..._sub, ..._mul, ..._div>`. */
  const ExprAlts: seq<Ty> := [
    Named("E_const"),
    RecursiveWrapperOf(Named("E_add")),
    RecursiveWrapperOf(Named("E_sub")),
    RecursiveWrapperOf(Named("E_mul")),
    RecursiveWrapperOf(Named("E_div"))
  ]

  function Accepting(name: string, call: ExprNode -> int): Handler<ExprNode, int>
  {
    Handler(t => t == Named(name), call)
  }

  /** The C++ `/` on `int`: the quotient truncated toward zero. */
  function Quot(a: int, b: int): int
    requires b != 0
  {
    if (a < 0) == (b < 0) then (if a < 0 then -a else a) / (if b < 0 then -b else b)
    else -((if a < 0 then -a else a) / (if b < 0 then -b else b))
  }

  /** The handlers of `eval`, in the order it lists them: const, mul, div, add, sub. */
  const EvalHandlers: seq<Handler<ExprNode, int>> := [
    Accepting("E_const", (n: ExprNode) => if n.Const? then n.i else 0),
    Accepting("E_mul", (n: ExprNode) => if n.Binary? then n.l * n.r else 0),
    Accepting("E_div", (n: ExprNode) => if n.Binary? && n.r != 0 then Quot(n.l, n.r) else 0),
    Accepting("E_add", (n: ExprNode) => if n.Binary? then n.l + n.r else 0),
    Accepting("E_sub", (n: ExprNode) => if n.Binary? then n.l - n.r else 0)
  ]

  /** `type_at` on the expression type: the alternatives with their wrappers removed. */
  lemma ExprTypes()
    ensures TypeAt(0, ExprAlts) == Named("E_const")
    ensures TypeAt(1, ExprAlts) == Named("E_add")
    ensures TypeAt(2, ExprAlts) == Named("E_sub")
    ensures TypeAt(3, ExprAlts) == Named("E_mul")
    ensures TypeAt(4, ExprAlts) == Named("E_div")
  {
  }

  /** Each handler of `eval` accepts exactly one alternative of the expression type. */
  lemma EvalHandlerOf(k: nat, h: nat)
    requires k < |ExprAlts| && h == [0, 3, 4, 1, 2][k]
    ensures EvalHandlers[h].callable(TypeAt(k, ExprAlts))
    ensures forall j | 0 <= j < |EvalHandlers| && j != h :: !EvalHandlers[j].callable(TypeAt(k, ExprAlts))
  {
    ExprTypes();
  }

  /** `eval` covers the expression type: it compiles. */
  lemma EvalCovers()
    ensures forall k | 0 <= k < |ExprAlts| :: Covers(EvalHandlers, TypeAt(k, ExprAlts))
  {
    forall k | 0 <= k < |ExprAlts|
      ensures Covers(EvalHandlers, TypeAt(k, ExprAlts))
    {
      EvalHandlerOf(k, [0, 3, 4, 1, 2][k]);
    }
  }

  /** `2 + 3` evaluates to 5, served by the fourth handler. */
  method EvalAddition()
  {
    EvalCovers();
    assert IndexOf(Named("E_add"), ExprAlts) == Some(1);
    var n := new SumType(ExprAlts, Named("E_add"), Binary(2, 3));
    var sum := n.Match(EvalHandlers);
    EvalHandlerOf(1, 3);
    assert sum.value.handler == 3 && sum.value.result == 5;
  }

  /** `(2 + 3) / 5`, whose operands evaluate to 5 and 5, evaluates to 1, served by the third handler. */
  method EvalDivision()
  {
    EvalCovers();
    assert IndexOf(Named("E_div"), ExprAlts) == Some(4);
    var x := new SumType(ExprAlts, Named("E_div"), Binary(5, 5));
    var quotient := x.Match(EvalHandlers);
    EvalHandlerOf(4, 2);
    assert quotient.value.handler == 2 && quotient.value.result == 1;
  }

  /** An `otherwise` placed first takes every alternative, shadowing the specific handlers. */
  method OtherwiseFirst()
  {
    assert IndexOf(Named("E_div"), ExprAlts) == Some(4);
    var hs := [Otherwise((n: ExprNode) => -1)] + EvalHandlers;
    assert forall k | 0 <= k < |ExprAlts| :: hs[0].callable(TypeAt(k, ExprAlts));
    var x := new SumType(ExprAlts, Named("E_div"), Binary(5, 5));
    var r := x.Match(hs);
    assert r.value.handler == 0 && r.value.result == -1;
  }
}
