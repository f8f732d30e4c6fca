/**
  The code generator as it runs: a fixed instruction buffer filled and patched in place,
  with growing patch lists (src/c/capfilter.c, "Codegen").
 */
module Generator {
  import opened Words
  import opened Bpf
  import opened CapAst
  import opened Codegen
  import opened CompilerCorrectness
  import opened PatchDiscipline

  lemma ShiftAppend(ps: seq<Patch>, qs: seq<Patch>, d: nat)
    ensures Shift(ps + qs, d) == Shift(ps, d) + Shift(qs, d)
  {
  }

  lemma ShiftTwice(ps: seq<Patch>, d: nat, e: nat)
    ensures Shift(Shift(ps, d), e) == Shift(ps, d + e)
  {
  }

  lemma ShiftNone(ps: seq<Patch>)
    ensures Shift(ps, 0) == ps
  {
  }

  lemma ShiftWithin(ps: seq<Patch>, d: nat, n: nat)
    requires Within(ps, n)
    ensures Within(Shift(ps, d), d + n)
  {
  }

  /** The generation of a conjunction, spelled out. */
  lemma {:induction false} GenAnd(nd: Node)
    requires nd.And?
    ensures Gen(nd).Some? <==> Gen(nd.left).Some? && Gen(nd.right).Some? && InRange(Gen(nd.left).value.t, Len(nd.left))
    ensures Gen(nd).Some? ==> Gen(nd) == Gen(nd.left).value.Then(Gen(nd.right).value)
    ensures Len(nd) == Len(nd.left) + Len(nd.right)
    ensures Gen(nd).Some? ==>
              Resolved(nd) == Resolved(nd.left) + Gen(nd.left).value.t + Shift(Resolved(nd.right), Len(nd.left))
  {
  }

  /** The generation of a disjunction, spelled out. */
  lemma {:induction false} GenOr(nd: Node)
    requires nd.Or?
    ensures Gen(nd).Some? <==> Gen(nd.left).Some? && Gen(nd.right).Some? && InRange(Gen(nd.left).value.f, Len(nd.left))
    ensures Gen(nd).Some? ==> Swapped(Gen(nd)) == Gen(nd.left).value.Swap().Then(Gen(nd.right).value.Swap())
    ensures Len(nd) == Len(nd.left) + Len(nd.right)
    ensures Gen(nd).Some? ==>
              Resolved(nd) == Resolved(nd.left) + Gen(nd.left).value.f + Shift(Resolved(nd.right), Len(nd.left))
  {
  }

  /**
    Chained code behind `pre`: adding the second part behind the resolved first part leaves
    the buffer, the lists and the log of the chain.
   */
  lemma ThenMoved(pre: seq<Insn>, cl: Code, cr: Code, k: nat, m: nat,
                  rl: seq<Patch>, rr: seq<Patch>, log: seq<Patch>)
    requires cl.Sound() && cr.Sound() && k == |cl.insns| && m == |pre| + k && InRange(cl.t, k)
    ensures pre + PatchAll(cl.insns, cl.t, k) + cr.insns == pre + cl.Then(cr).value.insns
    ensures Shift(cr.t, m) == Shift(cl.Then(cr).value.t, |pre|)
    ensures Shift(cl.f, |pre|) + Shift(cr.f, m) == Shift(cl.Then(cr).value.f, |pre|)
    ensures log + Shift(rl, |pre|) + Shift(cl.t, |pre|) + Shift(rr, m)
         == log + Shift(rl + cl.t + Shift(rr, k), |pre|)
  {
    var d := |pre|;
    ShiftTwice(cr.t, k, d);
    ShiftTwice(cr.f, k, d);
    ShiftTwice(rr, k, d);
    ShiftAppend(cl.f, Shift(cr.f, k), d);
    ShiftAppend(rl, cl.t, d);
    ShiftAppend(rl + cl.t, Shift(rr, k), d);
    hide PatchAll, Shift, InRange, Within;
    assert pre + PatchAll(cl.insns, cl.t, k) + cr.insns == pre + (PatchAll(cl.insns, cl.t, k) + cr.insns);
    assert log + Shift(rl, d) + Shift(cl.t, d) + Shift(rr, m)
        == log + (Shift(rl, d) + Shift(cl.t, d) + Shift(rr, m));
  }

  /** The buffer, the entries appended to the two lists, and the record of writes. */
  datatype Snapshot = Snapshot(insns: seq<Insn>, t: seq<Patch>, f: seq<Patch>, written: seq<Patch>)

  /** What compiling nd leaves behind a buffer `pre` and a record `log`. */
  ghost function After(nd: Node, pre: seq<Insn>, log: seq<Patch>): Snapshot
    requires Gen(nd).Some?
  {
    var c, d := Gen(nd).value, |pre|;
    Snapshot(pre + c.insns, Shift(c.t, d), Shift(c.f, d), log + Shift(Resolved(nd), d))
  }

  /** The left operand's exits that lead into the right operand. */
  ghost function Through(l: Node, onTrue: bool): seq<Patch> {
    if Gen(l).None? then [] else if onTrue then Gen(l).value.t else Gen(l).value.f
  }

  /** What compiling a left operand leaves behind, its `through` exits being resolved. */
  ghost function AfterLeft(l: Node, onTrue: bool, pre: seq<Insn>, log: seq<Patch>): Snapshot
    requires Gen(l).Some? && InRange(Through(l, onTrue), Len(l))
  {
    var c, through, d := Gen(l).value, Through(l, onTrue), |pre|;
    Snapshot(pre + PatchAll(c.insns, through, Len(l)), Shift(c.t, d), Shift(c.f, d),
             log + Shift(Resolved(l), d) + Shift(through, d))
  }

  lemma {:induction false} AndAfter(nd: Node, pre: seq<Insn>, log: seq<Patch>)
    requires nd.And? && Gen(nd).Some?
    ensures Gen(nd.left).Some? && Gen(nd.right).Some? && InRange(Through(nd.left, true), Len(nd.left))
    ensures var l := AfterLeft(nd.left, true, pre, log);
            var r := After(nd.right, l.insns, l.written);
            Snapshot(r.insns, r.t, l.f + r.f, r.written) == After(nd, pre, log)
  {
    GenAnd(nd);
    var k := Len(nd.left);
    var l := AfterLeft(nd.left, true, pre, log);
    assert |l.insns| == |pre| + k;
    ThenMoved(pre, Gen(nd.left).value, Gen(nd.right).value, k, |l.insns|, Resolved(nd.left), Resolved(nd.right), log);
    hide Shift, PatchAll, Gen, Resolved, Len, InRange, Within;
  }

  lemma {:induction false} OrAfter(nd: Node, pre: seq<Insn>, log: seq<Patch>)
    requires nd.Or? && Gen(nd).Some?
    ensures Gen(nd.left).Some? && Gen(nd.right).Some? && InRange(Through(nd.left, false), Len(nd.left))
    ensures var l := AfterLeft(nd.left, false, pre, log);
            var r := After(nd.right, l.insns, l.written);
            Snapshot(r.insns, l.t + r.t, r.f, r.written) == After(nd, pre, log)
  {
    GenOr(nd);
    var k := Len(nd.left);
    var l := AfterLeft(nd.left, false, pre, log);
    assert |l.insns| == |pre| + k;
    ThenMoved(pre, Gen(nd.left).value.Swap(), Gen(nd.right).value.Swap(), k, |l.insns|,
              Resolved(nd.left), Resolved(nd.right), log);
    hide Shift, PatchAll, Gen, Resolved, Len, InRange, Within;
  }

  /** cf_gen_t: the bounded instruction buffer, with a record of every jump field written into it. */
  class CfGen {
    var insns: seq<Insn>
    var failed: bool
    ghost var written: seq<Patch>
    /** The check for a negative offset has fired. */
    ghost var backward: bool

    ghost predicate Valid()
      reads this
    {
      |insns| <= MAX_INSNS
    }

    constructor ()
      ensures Valid() && insns == [] && !failed && written == [] && !backward
    {
      insns := [];
      failed := false;
      written := [];
      backward := false;
    }

    /** gen_push */
    method Push(insn: Insn) returns (idx: int)
      requires Valid()
      modifies this`insns, this`failed
      ensures Valid()
      ensures |old(insns)| >= MAX_INSNS ==> idx == -1 && failed && insns == old(insns)
      ensures |old(insns)| < MAX_INSNS ==>
                idx == |old(insns)| && failed == old(failed) && insns == old(insns) + [insn]
    {
      if |insns| >= MAX_INSNS {
        failed := true;
        return -1;
      }
      insns := insns + [insn];
      return |insns| - 1;
    }

    /** pl_resolve */
    method Resolve(pl: seq<Patch>, target: int)
      requires Valid() && Within(pl, |insns|)
      modifies this
      ensures Valid()
      ensures failed == (old(failed) || !InRange(pl, target))
      ensures InRange(pl, target) ==>
                && insns == PatchAll(old(insns), pl, target)
                && written == old(written) + pl
      ensures target >= |old(insns)| ==> backward == old(backward)
    {
      var i := 0;
      while i < |pl|
        invariant 0 <= i <= |pl|
        invariant InRange(pl[..i], target)
        invariant insns == PatchAll(old(insns), pl[..i], target)
        invariant written == old(written) + pl[..i]
        invariant failed == old(failed) && backward == old(backward)
      {
        var p := pl[i];
        var offset := target - (p.idx + 1);
        if offset < 0 || offset > 255 {
          failed := true;
          backward := backward || offset < 0;
          return;
        }
        assert pl[..i + 1][..i] == pl[..i];
        if p.isJt {
          insns := insns[p.idx := insns[p.idx].(jt := offset)];
        } else {
          insns := insns[p.idx := insns[p.idx].(jf := offset)];
        }
        written := written + [p];
        i := i + 1;
      }
      assert pl[..i] == pl;
    }

    /** emit_leaf, on the loads and the operand of a leaf */
    method EmitLeaf(leaf: Leaf) returns (rc: int, t: seq<Patch>, f: seq<Patch>)
      requires Valid() && !failed
      modifies this
      ensures Valid() && (rc == 0 || rc == -1)
      ensures rc == 0 <==> |old(insns)| + Len(Test(leaf)) <= MAX_INSNS
      ensures rc == 0 ==> !failed && Snapshot(insns, t, f, written) == After(Test(leaf), old(insns), old(written))
      ensures rc != 0 ==> failed
      ensures backward == old(backward)
    {
      t, f := [], [];
      var load := Loads(leaf);
      for i := 0 to |load|
        invariant Valid() && !failed && written == old(written) && backward == old(backward)
        invariant insns == old(insns) + load[..i]
      {
        var r := Push(load[i]);
        if r < 0 {
          return -1, t, f;
        }
      }
      assert load[..|load|] == load;
      var idx := Push(Insn(JMP_JEQ_K, 0, 0, Operand(leaf)));
      if idx < 0 {
        return -1, t, f;
      }
      assert Shift([], |old(insns)|) == [];
      return 0, [Patch(idx, true)], [Patch(idx, false)];
    }

    /** compile_node; t and f are what it appends to the caller's two lists. */
    method CompileNode(nd: Node) returns (rc: int, t: seq<Patch>, f: seq<Patch>)
      requires Valid()
      modifies this
      ensures Valid() && (rc == 0 || rc == -1)
      ensures rc == 0 <==> !old(failed) && Gen(nd).Some? && |old(insns)| + Len(nd) <= MAX_INSNS
      ensures rc == 0 ==> !failed && Snapshot(insns, t, f, written) == After(nd, old(insns), old(written))
      ensures rc == 0 ==> |t| <= nd.Leaves() && |f| <= nd.Leaves()
      ensures rc != 0 ==> failed
      ensures backward == old(backward)
      decreases nd, 1
    {
      if failed {
        return -1, [], [];
      }
      match nd {
        case Not(l) =>
          rc, f, t := CompileNode(l);
        case And(_, _) =>
          rc, t, f := CompileAnd(nd);
        case Or(_, _) =>
          rc, t, f := CompileOr(nd);
        case Test(leaf) =>
          rc, t, f := EmitLeaf(leaf);
      }
    }

    /**
      The left operand of compile_node's N_AND and N_OR cases: its exits in the direction that
      needs the right operand (true for `and`, false for `or`) are resolved to the code that follows.
     */
    method CompileLeft(l: Node, onTrue: bool) returns (rc: int, lt: seq<Patch>, lf: seq<Patch>)
      requires Valid() && !failed
      modifies this
      ensures Valid() && (rc == 0 || rc == -1)
      ensures rc == 0 <==> && Gen(l).Some? && |old(insns)| + Len(l) <= MAX_INSNS
                           && InRange(Through(l, onTrue), Len(l))
      ensures rc == 0 ==> && !failed && |insns| == |old(insns)| + Len(l)
                          && Snapshot(insns, lt, lf, written) == AfterLeft(l, onTrue, old(insns), old(written))
      ensures rc != 0 ==> failed
      ensures backward == old(backward)
      decreases l, 2
    {
      hide PatchAll, InRange, Shift, Within, Gen, Len, Resolved;
      rc, lt, lf := CompileNode(l);
      if rc == 0 {
        ghost var base, k := |old(insns)|, Len(l);
        ShiftRange(Through(l, onTrue), base, k);
        ShiftWithin(Through(l, onTrue), base, k);
        Resolve(if onTrue then lt else lf, |insns|);
        if failed {
          rc := -1;
        } else {
          PatchBack(old(insns), Gen(l).value.insns, Through(l, onTrue), k);
        }
      }
    }

    /** compile_node's N_AND case: left true falls through into the right operand's code. */
    method CompileAnd(nd: Node) returns (rc: int, t: seq<Patch>, f: seq<Patch>)
      requires Valid() && !failed && nd.And?
      modifies this
      ensures Valid() && (rc == 0 || rc == -1)
      ensures rc == 0 <==> Gen(nd).Some? && |old(insns)| + Len(nd) <= MAX_INSNS
      ensures rc == 0 ==> !failed && Snapshot(insns, t, f, written) == After(nd, old(insns), old(written))
      ensures rc != 0 ==> failed
      ensures backward == old(backward)
      decreases nd, 0
    {
      GenAnd(nd);
      hide PatchAll, Shift, InRange, Within, Gen, Len, Resolved;
      t, f := [], [];
      var lt, lf, rt, rf;
      rc, lt, lf := CompileLeft(nd.left, true);
      if rc == 0 {
        rc, rt, rf := CompileNode(nd.right);
        if rc == 0 {
          AndAfter(nd, old(insns), old(written));
          t := rt;
          f := lf + rf;
        }
      }
    }

    /** compile_node's N_OR case: left false tries the right operand's code. */
    method CompileOr(nd: Node) returns (rc: int, t: seq<Patch>, f: seq<Patch>)
      requires Valid() && !failed && nd.Or?
      modifies this
      ensures Valid() && (rc == 0 || rc == -1)
      ensures rc == 0 <==> Gen(nd).Some? && |old(insns)| + Len(nd) <= MAX_INSNS
      ensures rc == 0 ==> !failed && Snapshot(insns, t, f, written) == After(nd, old(insns), old(written))
      ensures rc != 0 ==> failed
      ensures backward == old(backward)
      decreases nd, 0
    {
      GenOr(nd);
      hide PatchAll, Shift, InRange, Within, Gen, Len, Resolved;
      t, f := [], [];
      var lt, lf, rt, rf;
      rc, lt, lf := CompileLeft(nd.left, false);
      if rc == 0 {
        rc, rt, rf := CompileNode(nd.right);
        if rc == 0 {
          OrAfter(nd, old(insns), old(written));
          t := lt + rt;
          f := rf;
        }
      }
    }

    /** The back end of capfilter_compile: code, accepting return, rejecting return. */
    method Generate(root: Node) returns (r: Option<seq<Insn>>)
      requires Valid() && insns == [] && !failed && written == [] && !backward
      modifies this
      ensures r == if Len(root) + 2 <= MAX_INSNS then Program(root) else None
      ensures r.Some? ==> written == Written(root)
      ensures !backward
    {
      hide PatchAll, Shift, InRange, Gen, Len, Resolved;
      var rc, trueList, falseList := CompileNode(root);
      if rc < 0 {
        return None;
      }
      ShiftNone(Gen(root).value.t);
      ShiftNone(Gen(root).value.f);
      ShiftNone(Resolved(root));
      r := Finish(root, trueList, falseList);
    }

    method Finish(ghost root: Node, trueList: seq<Patch>, falseList: seq<Patch>) returns (r: Option<seq<Insn>>)
      requires Valid() && !failed && Gen(root).Some? && !backward
      requires insns == Gen(root).value.insns && written == Resolved(root)
      requires trueList == Gen(root).value.t && falseList == Gen(root).value.f
      modifies this
      ensures r == if Len(root) + 2 <= MAX_INSNS then Program(root) else None
      ensures r.Some? ==> written == Written(root)
      ensures !backward
    {
      hide PatchAll, Shift, InRange, Gen, Len, Resolved;
      Resolve(trueList, |insns|);
      if failed {
        return None;
      }
      var accept := Push(Insn(RET_K, 0, 0, ACCEPT_LEN));
      if accept < 0 {
        return None;
      }
      Resolve(falseList, |insns|);
      if failed {
        return None;
      }
      var reject := Push(Insn(RET_K, 0, 0, 0));
      if reject < 0 {
        return None;
      }
      return Some(insns);
    }
  }
}
