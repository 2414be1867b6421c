/** What an accepted term-to-DAG correspondence means: along the map, values
    are equal, assignments transport both ways, and satisfiability carries. */
module TermSound {
  import opened Wrappers
  import opened Bits
  import opened BvOps
  import opened Dag
  import opened TermCheck
  import Query
  import Lrat

  // ---------- the two rewrites keep values ----------

  lemma SwapValue(op: BinOp, x: Bv, y: Bv)
    requires Commutes(op) && |x| == |y|
    ensures BinValue(op, x, y) == BinValue(op, y, x)
  {
    match op
    case And => assert BvAnd(x, y) == BvAnd(y, x);
    case Or => assert BvOr(x, y) == BvOr(y, x);
    case Xor => assert BvXor(x, y) == BvXor(y, x);
    case _ =>
  }

  /** A node and its swap, or its mirror, have one value over operands of one
      width. */
  lemma RewriteValue(node: DagNode, bits: seq<bool>, vs: seq<Bv>, own: Bv)
    requires node.Bin? ==> |At(vs, node.a)| == |At(vs, node.b)|
    ensures NodeVal(SwapComm(node), bits, vs, own) == NodeVal(node, bits, vs, own)
    ensures NodeVal(Mirror(node), bits, vs, own) == NodeVal(node, bits, vs, own)
  {
    if node.Bin? && Commutes(node.op) {
      hide BinValue;
      SwapValue(node.op, At(vs, node.a), At(vs, node.b));
    }
  }

  /** d's operands are images, and images carry the term operands' values. */
  lemma MappedValue(m: seq<nat>, tn: DagNode, bits: seq<bool>, tbits: seq<bool>, us: seq<Bv>, vs: seq<Bv>, own: Bv, own': Bv)
    requires !tn.Var? && !tn.Const?
    requires forall a :: a in Operands(tn) ==> At(us, a) == At(vs, MapAt(m, a))
    ensures NodeVal(tn, tbits, us, own) == NodeVal(MapNode(m, tn), bits, vs, own')
  {
    hide BinValue, CmpValue, Complement, BvNeg, BvExtract, BvConcat, BvZeroExt, BvSignExt;
  }

  function Operands(node: DagNode): set<nat>
  {
    match node
    case Var(_) => {}
    case Const(_, _) => {}
    case Bin(_, a, b) => {a, b}
    case BvNot(a) => {a}
    case Neg(a) => {a}
    case Extract(_, _, a) => {a}
    case Concat(a, b) => {a, b}
    case ZeroExt(a, _) => {a}
    case SignExt(a, _) => {a}
    case Ite(c, t, e) => {c, t, e}
    case Cmp(_, a, b) => {a, b}
    case Not(a) => {a}
    case BoolAnd(a, b) => {a, b}
    case BoolOr(a, b) => {a, b}
  }

  /** Operands of a well-formed node are earlier nodes. */
  lemma OperandsEarlier(ws: seq<nat>, nbits: nat, node: DagNode, a: nat)
    requires NodeWf(ws, nbits, node) && a in Operands(node)
    ensures a < |ws|
  {
  }

  lemma OperandsMapped(m: seq<nat>, tn: DagNode, a: nat)
    requires a in Operands(tn)
    ensures MapAt(m, a) in Operands(MapNode(m, tn))
    ensures Operands(SwapComm(tn)) == Operands(tn) == Operands(Mirror(tn))
  {
  }

  // ---------- agreement ----------

  /** The two assignments agree on the mapped variables. */
  ghost predicate Agree(p: Pair, env: Env, env': Env)
    requires PairWf(p)
  {
    && EnvOk(p.t, env) && EnvOk(p.ns, env')
    && forall i :: 0 <= i < |p.t| && p.t[i].Var? && Mapped(p, i) ==> env[i] == env'[p.m[i]]
  }

  ghost predicate Checked(p: Pair)
  {
    && PairWf(p) && DagWf(p.t, |p.tbits|) && DagWf(p.ns, |p.bits|)
    && p == PairOf(p.t, p.tbits, p.m, p.ns, p.bits) && AllOk(p, ZeroVals(p.t, p.tbits))
  }

  /** An operator whose operands have their images' values has its image's. */
  lemma OperatorValue(p: Pair, env: Env, env': Env, i: nat)
    requires Checked(p) && EnvOk(p.ns, env') && i < |p.t| && Mapped(p, i) && NodeCorr(p.m, p.t[i], p.ns[p.m[i]])
    requires !p.t[i].Var? && !p.t[i].Const? && !p.ns[p.m[i]].Const?
    requires forall a :: a in Operands(p.t[i]) ==> OperandValue(p, env, env', a, i)
    ensures DagVal(p.t, p.tbits, env, i) == DagVal(p.ns, p.bits, env', p.m[i])
  {
    hide DagVal, DagVals, Widths, ZeroVals, ConstFlags, AllOk;
    var mi := p.m[i];
    var d := p.ns[mi];
    DagValAt(p.t, p.tbits, env, i, |p.t|);
    DagValAt(p.ns, p.bits, env', mi, |p.ns|);
    var us, vs := DagVals(p.t, p.tbits, env, i), DagVals(p.ns, p.bits, env', mi);
    forall a | a in Operands(p.t[i]) ensures At(us, a) == At(vs, MapAt(p.m, a)) {
      assert OperandValue(p, env, env', a, i);
      DagValAt(p.t, p.tbits, env, a, i);
      DagValAt(p.ns, p.bits, env', p.m[a], mi);
    }
    MappedValue(p.m, p.t[i], p.bits, p.tbits, us, vs, At(env, i), At(env', mi));
    SameWidths(p, env', mi, vs);
    RewriteValue(d, p.bits, vs, At(env', mi));
  }

  /** Operand a of node i is earlier on both sides, with one value. */
  ghost predicate OperandValue(p: Pair, env: Env, env': Env, a: nat, i: nat)
  {
    && a < i < |p.t| && Mapped(p, a) && Mapped(p, i) && p.m[a] < p.m[i]
    && DagVal(p.t, p.tbits, env, a) == DagVal(p.ns, p.bits, env', p.m[a])
  }

  lemma SameWidths(p: Pair, env': Env, mi: nat, vs: seq<Bv>)
    requires DagWf(p.ns, |p.bits|) && EnvOk(p.ns, env') && mi < |p.ns| && vs == DagVals(p.ns, p.bits, env', mi)
    ensures p.ns[mi].Bin? ==> |At(vs, p.ns[mi].a)| == |At(vs, p.ns[mi].b)|
  {
    hide DagVals, Widths;
    assert WfAt(p.ns, |p.bits|, mi);
    ValWidths(p.ns, p.bits, env', mi);
  }

  /** A leaf, or a fold, has its image's value. */
  lemma LeafValue(p: Pair, env: Env, env': Env, i: nat)
    requires Checked(p) && Agree(p, env, env') && i < |p.t| && Mapped(p, i)
    requires p.t[i].Var? || p.t[i].Const? || p.ns[p.m[i]].Const?
    ensures DagVal(p.t, p.tbits, env, i) == DagVal(p.ns, p.bits, env', p.m[i])
  {
    hide DagVal, DagVals, Widths, ZeroVals, ConstFlags;
    assert StepOk(p, ZeroVals(p.t, p.tbits), i);
    DagValAt(p.t, p.tbits, env, i, |p.t|);
    DagValAt(p.ns, p.bits, env', p.m[i], |p.ns|);
    assert WfAt(p.t, |p.tbits|, i);
    if !p.t[i].Var? && !p.t[i].Const? { FoldValue(p, env, i); }
  }

  /** SOUNDNESS OF THE MAP: every mapped node has the value of its image. */
  lemma {:induction false} MappedNodeValue(p: Pair, env: Env, env': Env, i: nat)
    requires Checked(p) && Agree(p, env, env') && i < |p.t| && Mapped(p, i)
    ensures DagVal(p.t, p.tbits, env, i) == DagVal(p.ns, p.bits, env', p.m[i])
    decreases i
  {
    hide DagVal, ZeroVals, DagWf, EnvOk, NodeCorr, Operands;
    var tn, d := p.t[i], p.ns[p.m[i]];
    if tn.Var? || tn.Const? || d.Const? {
      LeafValue(p, env, env', i);
    } else {
      assert StepOk(p, ZeroVals(p.t, p.tbits), i);
      forall a | a in Operands(tn) ensures OperandValue(p, env, env', a, i) {
        OperandEarlier(p, tn, d, i, a);
        MappedNodeValue(p, env, env', a);
      }
      OperatorValue(p, env, env', i);
    }
  }

  /** An operand of a corresponding node is earlier and mapped to an operand
      of the image. */
  lemma OperandEarlier(p: Pair, tn: DagNode, d: DagNode, i: nat, a: nat)
    requires Checked(p) && i < |p.t| && Mapped(p, i) && tn == p.t[i] && d == p.ns[p.m[i]]
    requires a in Operands(tn) && NodeCorr(p.m, tn, d)
    ensures a < i && Mapped(p, a) && p.m[a] < p.m[i]
  {
    assert WfAt(p.t, |p.tbits|, i) && WfAt(p.ns, |p.bits|, p.m[i]);
    OperandsEarlier(Widths(p.t, i), |p.tbits|, tn, a);
    OperandsMapped(p.m, tn, a);
    OperandsSwapped(d);
    OperandsEarlier(Widths(p.ns, p.m[i]), |p.bits|, d, MapAt(p.m, a));
  }

  lemma OperandsSwapped(d: DagNode)
    ensures Operands(SwapComm(d)) == Operands(d) == Operands(Mirror(d))
  {
  }

  /** A fold: the image constant is the node's value under every assignment. */
  lemma FoldValue(p: Pair, env: Env, i: nat)
    requires Checked(p) && EnvOk(p.t, env) && i < |p.t| && Mapped(p, i)
    requires !p.t[i].Var? && !p.t[i].Const? && p.ns[p.m[i]].Const?
    ensures DagVal(p.t, p.tbits, env, i) == BitsAt(p.bits, p.ns[p.m[i]].s, p.ns[p.m[i]].w)
  {
    var zs := ZeroVals(p.t, p.tbits);
    assert StepOk(p, zs, i);
    var env0 := EnvOf(p.t, Fill(false, Offset(p.t, |p.t|)));
    ConstSound(p.t, p.tbits, env, env0, |p.t|);
    DagValAt(p.t, p.tbits, env, i, |p.t|);
  }

  // ---------- transport ----------

  /** The term assignment a DAG assignment gives; unmapped variables are zero. */
  ghost function Pulled(p: Pair, env': Env): (env: Env)
    requires PairWf(p)
    ensures |env| == |p.t|
  {
    seq(|p.t|, i requires 0 <= i < |p.t| =>
      if p.t[i].Var? then (if Mapped(p, i) then At(env', p.m[i]) else Fill(false, p.t[i].w)) else [])
  }

  /** Term variable i is mapped to d. */
  ghost predicate Owns(p: Pair, i: nat, d: nat)
    requires PairWf(p)
  {
    i < |p.t| && p.t[i].Var? && p.m[i] == d
  }

  ghost predicate Owned(p: Pair, d: nat)
    requires PairWf(p)
  {
    exists i :: Owns(p, i, d)
  }

  ghost function Owner(p: Pair, d: nat): (i: nat)
    requires PairWf(p) && Owned(p, d)
    ensures Owns(p, i, d)
  {
    var i :| Owns(p, i, d); i
  }

  /** The DAG assignment a term assignment gives. */
  ghost function Pushed(p: Pair, env: Env): (env': Env)
    requires PairWf(p)
    ensures |env'| == |p.ns|
  {
    seq(|p.ns|, d requires 0 <= d < |p.ns| =>
      if p.ns[d].Var? then
        if Owned(p, d) then At(env, Owner(p, d)) else Fill(false, p.ns[d].w)
      else [])
  }

  lemma PulledAgrees(p: Pair, env': Env)
    requires Checked(p) && EnvOk(p.ns, env')
    ensures Agree(p, Pulled(p, env'), env')
  {
    forall i | 0 <= i < |p.t| && p.t[i].Var? ensures |Pulled(p, env')[i]| == p.t[i].w {
      assert StepOk(p, ZeroVals(p.t, p.tbits), i);
    }
  }

  lemma PushedAgrees(p: Pair, env: Env)
    requires Checked(p) && EnvOk(p.t, env)
    ensures Agree(p, env, Pushed(p, env))
  {
    hide DagWf, ZeroVals, ConstFlags, BitsEq;
    var zs := ZeroVals(p.t, p.tbits);
    forall i: nat, d: nat | Owns(p, i, d) && d < |p.ns| ensures Pushed(p, env)[d] == env[i] && p.ns[d] == p.t[i] {
      assert StepOk(p, zs, i) && Mapped(p, i);
      assert ImageOk(p, zs, i);
      var k := Owner(p, d);
      assert StepOk(p, zs, k);
      assert k == i;
    }
  }

  /** Corresponding roots are true together. */
  lemma RootsTogether(p: Pair, troots: seq<nat>, roots: seq<nat>, env: Env, env': Env)
    requires Checked(p) && RootsCorr(troots, p.m, roots) && Agree(p, env, env')
    requires Query.RootsBound(p.t, troots) && Query.RootsBound(p.ns, roots)
    ensures RootsTrue(p.t, p.tbits, env, troots) <==> RootsTrue(p.ns, p.bits, env', roots)
  {
    forall k | 0 <= k < |troots|
      ensures DagVal(p.t, p.tbits, env, troots[k]) == DagVal(p.ns, p.bits, env', roots[k])
    {
      assert MapAt(p.m, troots[k]) == roots[k];
      MappedNodeValue(p, env, env', troots[k]);
    }
  }

  /** Satisfiability and unsatisfiability carry between term and DAG. */
  lemma TermSatIffDagSat(t: Dag, tbits: seq<bool>, troots: seq<nat>, m: seq<nat>, ns: Dag, bits: seq<bool>, roots: seq<nat>)
    requires |ns| <= USIZE_MAX && Accepted(t, tbits, troots, m, ns, bits, roots)
    requires Query.RootsBound(t, troots) && Query.RootsBound(ns, roots)
    ensures DagSat(t, tbits, troots) <==> DagSat(ns, bits, roots)
  {
    var p := PairOf(t, tbits, m, ns, bits);
    if DagSat(t, tbits, troots) {
      var env: Env :| EnvOk(t, env) && RootsTrue(t, tbits, env, troots);
      PushedAgrees(p, env);
      RootsTogether(p, troots, roots, env, Pushed(p, env));
    }
    if DagSat(ns, bits, roots) {
      var env': Env :| EnvOk(ns, env') && RootsTrue(ns, bits, env', roots);
      PulledAgrees(p, env');
      RootsTogether(p, troots, roots, Pulled(p, env'), env');
    }
  }

  /** Roots that correspond name nodes on both sides. */
  lemma TermRootsBound(troots: seq<nat>, m: seq<nat>, roots: seq<nat>, t: Dag, ns: Dag)
    requires RootsCorr(troots, m, roots) && |m| == |t| && Query.RootsBound(ns, roots)
    ensures Query.RootsBound(t, troots)
  {
    forall k | 0 <= k < |troots| ensures troots[k] < |t| {
      assert MapAt(m, troots[k]) == roots[k] != NONE;
    }
  }

  /** The correspondence holds, and the term is within capacity. */
  ghost predicate Certified(t: Dag, tbits: seq<bool>, troots: seq<nat>, m: seq<nat>, ns: Dag, bits: seq<bool>,
                            roots: seq<nat>)
    requires |ns| <= USIZE_MAX
  {
    Accepted(t, tbits, troots, m, ns, bits, roots) && !Query.BeyondCapacity(t)
  }

  /** The term certificate: the correspondence and the DAG's refutation. */
  method CheckTermUnsat(t: Dag, tbits: seq<bool>, troots: seq<nat>, m: seq<nat>, ns: Dag, bits: seq<bool>,
                        roots: seq<nat>, hints: seq<nat>, steps: seq<Lrat.Step>)
    returns (ok: bool, ghost a: Option<Query.Arena>)
    requires |t| <= USIZE_MAX && |ns| <= USIZE_MAX
    ensures Query.ArenaFor(a, ns, bits, roots)
    ensures ok <==> Certified(t, tbits, troots, m, ns, bits, roots) && Query.Refutes(a, hints, steps)
    ensures ok ==> Query.RootsBound(t, troots) && !DagSat(t, tbits, troots)
  {
    var corr := CheckTermDag(t, tbits, troots, m, ns, bits, roots);
    var query, arena := Query.CheckQuery(ns, bits, roots, hints, steps);
    a := arena;
    ok := corr.Ok? && query.Ok?;
    if ok {
      TermRootsBound(troots, m, roots, t, ns);
      TermSatIffDagSat(t, tbits, troots, m, ns, bits, roots);
    }
  }

  /** The term model: the correspondence and the DAG's model. */
  method CheckTermModel(t: Dag, tbits: seq<bool>, troots: seq<nat>, m: seq<nat>, ns: Dag, bits: seq<bool>,
                        roots: seq<nat>, inp: seq<bool>) returns (ok: bool)
    requires |t| <= USIZE_MAX && |ns| <= USIZE_MAX
    ensures ok <==> Certified(t, tbits, troots, m, ns, bits, roots) && Query.ModelOk(ns, bits, roots, inp)
    ensures ok ==> Query.RootsBound(t, troots) && DagSat(t, tbits, troots) && |m| == |t|
    ensures ok ==> EnvOk(t, Pulled(PairOf(t, tbits, m, ns, bits), EnvOf(ns, inp)))
    ensures ok ==> RootsTrue(t, tbits, Pulled(PairOf(t, tbits, m, ns, bits), EnvOf(ns, inp)), troots)
  {
    var corr := CheckTermDag(t, tbits, troots, m, ns, bits, roots);
    var query := Query.CheckQueryModel(ns, bits, roots, inp);
    ok := corr.Ok? && query.Ok?;
    if ok {
      TermRootsBound(troots, m, roots, t, ns);
      var p := PairOf(t, tbits, m, ns, bits);
      PulledAgrees(p, EnvOf(ns, inp));
      RootsTogether(p, troots, roots, Pulled(p, EnvOf(ns, inp)), EnvOf(ns, inp));
    }
  }
}
