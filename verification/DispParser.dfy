/**
  The display filter's recursive-descent parser as it runs (src/c/dispfilter.c, "AST" and
  "Parser"): one arena node per operator and per comparison.
 */
module DispParser {
  import opened Words
  import opened DispLanguage
  import G = Grammar

  const MAX_NODES := 256

  datatype Kind = KAnd | KOr | KNot | KCmp(c: Comparison)

  /** df_node_t; children are arena positions, NULL is -1. */
  datatype Slot = Slot(kind: Kind, left: int, right: int)

  const NULL := -1

  /** Position i of the arena holds the expression e, every child below its parent. */
  predicate Holds(pool: seq<Slot>, i: int, e: Filter)
    decreases e
  {
    && 0 <= i < |pool|
    && match e
       case And(l, r) =>
         && pool[i].kind == KAnd && pool[i].left < i && pool[i].right < i
         && Holds(pool, pool[i].left, l) && Holds(pool, pool[i].right, r)
       case Or(l, r) =>
         && pool[i].kind == KOr && pool[i].left < i && pool[i].right < i
         && Holds(pool, pool[i].left, l) && Holds(pool, pool[i].right, r)
       case Not(x) =>
         pool[i].kind == KNot && pool[i].left < i && Holds(pool, pool[i].left, x)
       case Prim(c) =>
         pool[i].kind == KCmp(c)
  }

  lemma {:induction false} HoldsInLarger(pool: seq<Slot>, more: seq<Slot>, i: int, e: Filter)
    requires pool <= more && Holds(pool, i, e)
    ensures Holds(more, i, e)
    decreases e
  {
    match e
    case And(l, r) => HoldsInLarger(pool, more, pool[i].left, l); HoldsInLarger(pool, more, pool[i].right, r);
    case Or(l, r) => HoldsInLarger(pool, more, pool[i].left, l); HoldsInLarger(pool, more, pool[i].right, r);
    case Not(x) => HoldsInLarger(pool, more, pool[i].left, x);
    case Prim(_) =>
  }

  /** Stands for an expression nobody looks at, once something has failed. */
  const SOME: Filter := G.Prim(Comparison(Field(Tcp, Either), true, PortValue(0)))

  type Found = Option<G.Parsed<Comparison>>

  /** A result that a parse from an arena of the given size cannot return: none, or too big. */
  predicate Refused(x: Found, used: nat) {
    x.None? || used + Nodes(x.value.e) > MAX_NODES
  }

  lemma {:induction false} AndTailRefused(ts: seq<Token>, x: G.Parsed<Comparison>, used: nat)
    requires Refused(Some(x), used)
    ensures Refused(G.AndTail(DISPLAY, ts, x), used)
    decreases |ts| - x.next
  {
    if x.next < |ts| && ts[x.next] == G.AndOp && G.ParseNot(DISPLAY, ts, x.next + 1).Some? {
      var y := G.ParseNot(DISPLAY, ts, x.next + 1).value;
      AndTailRefused(ts, G.Parsed(G.And(x.e, y.e), y.next), used);
    }
  }

  lemma {:induction false} OrTailRefused(ts: seq<Token>, x: G.Parsed<Comparison>, used: nat)
    requires Refused(Some(x), used)
    ensures Refused(G.OrTail(DISPLAY, ts, x), used)
    decreases |ts| - x.next
  {
    if x.next < |ts| && ts[x.next] == G.OrOp && G.ParseAnd(DISPLAY, ts, x.next + 1).Some? {
      var y := G.ParseAnd(DISPLAY, ts, x.next + 1).value;
      OrTailRefused(ts, G.Parsed(G.Or(x.e, y.e), y.next), used);
    }
  }

  datatype State = State(pos: nat, failed: bool, pool: seq<Slot>)

  predicate Kept(s: State, s': State) {
    s.pos <= s'.pos && (s.failed ==> s'.failed) && s.pool <= s'.pool
  }

  /** Success exactly when the grammar's result x exists and fits the arena, and then x itself. */
  predicate Parses(s: State, s': State, r: int, x: Found) {
    && (s'.failed <==> s.failed || Refused(x, |s.pool|))
    && (!s'.failed ==> s'.pos == x.value.next)
    && (!s'.failed ==> |s'.pool| == |s.pool| + Nodes(x.value.e) && Holds(s'.pool, r, x.value.e))
  }

  function ComparisonParsed(ts: seq<Token>, i: nat): Found {
    match ReadComparison(ts, i)
    case None => None
    case Some(x) => Some(G.Parsed(G.Prim(x.0), x.1))
  }

  /** df_ctx_t, parser_t and node_arena_t */
  class Parser {
    const toks: seq<Token>
    var pos: nat
    var failed: bool
    var pool: seq<Slot>

    /** The cursor never passes the closing End, and the arena never overflows. */
    ghost predicate Valid()
      reads this
    {
      G.Closed(toks) && pos < |toks| && |pool| <= MAX_NODES
    }

    constructor (toks: seq<Token>)
      requires G.Closed(toks)
      ensures Valid() && this.toks == toks && pos == 0 && !failed && pool == []
    {
      this.toks := toks;
      pos := 0;
      failed := false;
      pool := [];
    }

    ghost function Now(): State
      reads this
    {
      State(pos, failed, pool)
    }

    /** mk_node, with the children or the comparison its callers store next */
    method MkNode(slot: Slot) returns (n: int)
      requires Valid()
      modifies this`failed, this`pool
      ensures Valid() && Kept(old(Now()), Now())
      ensures n == NULL <==> failed
      ensures failed <==> old(failed) || |old(pool)| >= MAX_NODES
      ensures !failed ==> n == |old(pool)| && pool == old(pool) + [slot]
    {
      if failed {
        return NULL;
      }
      if |pool| >= MAX_NODES {
        failed := true;
        return NULL;
      }
      pool := pool + [slot];
      return |pool| - 1;
    }

    /** An N_AND, N_OR or N_NOT node over operands that hold l and r unless something failed already. */
    method MkInner(slot: Slot, ghost e: Filter) returns (n: int)
      requires Valid()
      requires match e
               case And(l, r) => slot.kind == KAnd
                 && (!failed ==> Holds(pool, slot.left, l) && Holds(pool, slot.right, r))
               case Or(l, r) => slot.kind == KOr
                 && (!failed ==> Holds(pool, slot.left, l) && Holds(pool, slot.right, r))
               case Not(x) => slot.kind == KNot && (!failed ==> Holds(pool, slot.left, x))
               case Prim(_) => false
      modifies this`failed, this`pool
      ensures Valid() && Kept(old(Now()), Now())
      ensures n == NULL <==> failed
      ensures failed <==> old(failed) || |old(pool)| >= MAX_NODES
      ensures !failed ==> |pool| == |old(pool)| + 1 && Holds(pool, n, e)
    {
      n := MkNode(slot);
      if n != NULL {
        if e.Not? {
          HoldsInLarger(old(pool), pool, slot.left, e.operand);
        } else {
          HoldsInLarger(old(pool), pool, slot.left, e.left);
          HoldsInLarger(old(pool), pool, slot.right, e.right);
        }
      }
    }

    /** p_advance */
    method Advance() returns (t: Token)
      requires Valid()
      modifies this`pos
      ensures Valid() && Kept(old(Now()), Now()) && t == toks[old(pos)]
      ensures pos == if t.End? then old(pos) else old(pos) + 1
    {
      t := toks[pos];
      if !t.End? {
        pos := pos + 1;
      }
    }

    /** parse_primitive */
    method ParsePrimitive() returns (r: int)
      requires Valid()
      modifies this
      ensures Valid() && Kept(old(Now()), Now())
      ensures Parses(old(Now()), Now(), r, ComparisonParsed(toks, old(pos)))
    {
      var f := Advance();
      if !f.Word? || !f.w.FieldName? {
        failed := true;
        return NULL;
      }
      var op := Advance();
      if !op.Word? || (!op.w.EqOp? && !op.w.NeOp?) {
        failed := true;
        return NULL;
      }
      var val := Advance();
      var value := if val.Word? then ValueOf(f.w.field.layer, val.w) else None;
      var v := if value.Some? then value.value else PortValue(0);
      r := MkNode(Slot(KCmp(Comparison(f.w.field, op.w.EqOp?, v)), NULL, NULL));
      if r == NULL {
        return;
      }
      if value.None? {
        failed := true;
        return NULL;
      }
    }

    /** parse_not */
    method ParseNot() returns (r: int)
      requires Valid()
      modifies this
      ensures Valid() && Kept(old(Now()), Now())
      ensures Parses(old(Now()), Now(), r, G.ParseNot(DISPLAY, toks, old(pos)))
      decreases |toks| - pos, 0
    {
      hide Holds;
      if toks[pos].NotOp? {
        var _ := Advance();
        ghost var y := G.ParseNot(DISPLAY, toks, pos);
        var x := ParseNot();
        r := MkInner(Slot(KNot, x, NULL), if failed then G.Not(SOME) else G.Not(y.value.e));
      } else if toks[pos].LParen? {
        var _ := Advance();
        r := ParseExpr();
        var t := Advance();
        if !t.RParen? {
          failed := true;
          return NULL;
        }
      } else {
        r := ParsePrimitive();
      }
    }

    /** parse_and: one turn of its loop, behind the operand at r. */
    method ParseAndTurn(r: int, ghost s: State, ghost held: G.Parsed<Comparison>) returns (n: int)
      requires Valid() && toks[pos].AndOp?
      requires !failed ==> Parses(s, Now(), r, Some(held))
      modifies this
      ensures Valid() && Kept(old(Now()), Now()) && (n == NULL <==> failed)
      ensures !old(failed) ==>
                Parses(s, Now(), n, match G.ParseNot(DISPLAY, toks, held.next + 1)
                                    case None => None
                                    case Some(y) => Some(G.Parsed(G.And(held.e, y.e), y.next)))
      ensures pos > old(pos)
      decreases |toks| - pos, 1
    {
      var _ := Advance();
      ghost var y := G.ParseNot(DISPLAY, toks, pos);
      ghost var before := pool;
      var right := ParseNot();
      if !failed {
        HoldsInLarger(before, pool, r, held.e);
      }
      hide Holds;
      n := MkInner(Slot(KAnd, r, right), if failed then G.And(SOME, SOME) else G.And(held.e, y.value.e));
    }

    /** parse_and */
    method ParseAnd() returns (r: int)
      requires Valid()
      modifies this
      ensures Valid() && Kept(old(Now()), Now())
      ensures Parses(old(Now()), Now(), r, G.ParseAnd(DISPLAY, toks, old(pos)))
      decreases |toks| - pos, 2
    {
      hide Holds, Nodes;
      ghost var s := Now();
      ghost var whole := G.ParseAnd(DISPLAY, toks, pos);
      ghost var held := G.ParseNot(DISPLAY, toks, pos);
      r := ParseNot();
      if held.Some? && Refused(held, |s.pool|) { AndTailRefused(toks, held.value, |s.pool|); }
      while toks[pos].AndOp?
        invariant Valid() && Kept(s, Now())
        invariant failed ==> s.failed || Refused(whole, |s.pool|)
        invariant !failed ==> held.Some? && Parses(s, Now(), r, held) && whole == G.AndTail(DISPLAY, toks, held.value)
        decreases |toks| - pos
      {
        ghost var known := !failed;
        ghost var x := if known then held.value else G.Parsed(SOME, 0);
        r := ParseAndTurn(r, s, x);
        ghost var y := G.ParseNot(DISPLAY, toks, x.next + 1);
        held := if y.None? then None else Some(G.Parsed(G.And(x.e, y.value.e), y.value.next));
        if known && held.Some? && Refused(held, |s.pool|) { AndTailRefused(toks, held.value, |s.pool|); }
        if r == NULL {
          return;
        }
      }
    }

    /** parse_expr: one turn of its loop, behind the operand at r. */
    method ParseExprTurn(r: int, ghost s: State, ghost held: G.Parsed<Comparison>) returns (n: int)
      requires Valid() && toks[pos].OrOp?
      requires !failed ==> Parses(s, Now(), r, Some(held))
      modifies this
      ensures Valid() && Kept(old(Now()), Now()) && (n == NULL <==> failed)
      ensures !old(failed) ==>
                Parses(s, Now(), n, match G.ParseAnd(DISPLAY, toks, held.next + 1)
                                    case None => None
                                    case Some(y) => Some(G.Parsed(G.Or(held.e, y.e), y.next)))
      ensures pos > old(pos)
      decreases |toks| - pos, 3
    {
      var _ := Advance();
      ghost var y := G.ParseAnd(DISPLAY, toks, pos);
      ghost var before := pool;
      var right := ParseAnd();
      if !failed {
        HoldsInLarger(before, pool, r, held.e);
      }
      hide Holds;
      n := MkInner(Slot(KOr, r, right), if failed then G.Or(SOME, SOME) else G.Or(held.e, y.value.e));
    }

    /** parse_expr */
    method ParseExpr() returns (r: int)
      requires Valid()
      modifies this
      ensures Valid() && Kept(old(Now()), Now())
      ensures Parses(old(Now()), Now(), r, G.ParseExpr(DISPLAY, toks, old(pos)))
      decreases |toks| - pos, 4
    {
      hide Holds, Nodes;
      ghost var s := Now();
      ghost var whole := G.ParseExpr(DISPLAY, toks, pos);
      ghost var held := G.ParseAnd(DISPLAY, toks, pos);
      r := ParseAnd();
      if held.Some? && Refused(held, |s.pool|) { OrTailRefused(toks, held.value, |s.pool|); }
      while toks[pos].OrOp?
        invariant Valid() && Kept(s, Now())
        invariant failed ==> s.failed || Refused(whole, |s.pool|)
        invariant !failed ==> held.Some? && Parses(s, Now(), r, held) && whole == G.OrTail(DISPLAY, toks, held.value)
        decreases |toks| - pos
      {
        ghost var known := !failed;
        ghost var x := if known then held.value else G.Parsed(SOME, 0);
        r := ParseExprTurn(r, s, x);
        ghost var y := G.ParseAnd(DISPLAY, toks, x.next + 1);
        held := if y.None? then None else Some(G.Parsed(G.Or(x.e, y.value.e), y.value.next));
        if known && held.Some? && Refused(held, |s.pool|) { OrTailRefused(toks, held.value, |s.pool|); }
        if r == NULL {
          return;
        }
      }
    }
  }
}
