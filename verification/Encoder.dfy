/** The term-DAG encoder: every node's word denotes the node's value. */
module Encoder {
  import opened Bits
  import opened BvOps
  import opened AigGraph
  import G = GateList
  import opened BlastArith
  import BlastShift
  import BlastMulDiv
  import BlastRotate
  import BlastSigned
  import opened Compact
  import D = Dag

  // ---------- capacity ----------

  /** The most nodes one DAG node of width at most w appends. */
  function NodeBudget(w: nat): nat { 70 * (w * w) + 70 * w + 1 }

  lemma WithinBudget(w: nat, W: nat)
    requires w <= W
    ensures 69 * (w * w) + 64 * w <= 70 * (W * W) + 70 * W
    ensures 28 * (w * w) + 64 * w <= 70 * (W * W) + 70 * W
  {
    MulMono(w, W, w);
    MulMono(w, W, W);
  }

  // ---------- inputs ----------

  /** The inputs of the arena are distinct and numbered below nin. */
  ghost predicate InputsOk(ns: Nodes, nin: nat)
  {
    DistinctInputs(ns) && forall i :: 0 <= i < |ns| && ns[i].Input? ==> ns[i].k < nin
  }

  lemma GatesKeepInputs(o: Nodes, n: Nodes, nin: nat)
    requires Gates(o, n) && InputsOk(o, nin)
    ensures InputsOk(n, nin)
  {
    forall i | 0 <= i < |n| && n[i].Input? ensures i < |o| && n[i] == o[i] {
      assert n[i] == n[..|o|][i];
    }
  }

  method WordInputs(aig: Aig, first: nat, w: nat) returns (out: Word)
    requires Wf(aig.nodes) && InputsOk(aig.nodes, first)
    modifies aig
    ensures Extends(old(aig.nodes), aig.nodes) && |aig.nodes| == |old(aig.nodes)| + w
    ensures InputsOk(aig.nodes, first + w)
    ensures |out| == w && AllIn(aig.nodes, out) && (aig.nodes, out) == G.InputsOf(old(aig.nodes), first, w)
    ensures forall inp :: WV(aig.nodes, inp, out) == D.InputBits(inp, first, w)
  {
    hide G.InputsOf;
    ghost var n0 := aig.nodes;
    out := [];
    G.InputsNext(n0, first, 0);
    for j := 0 to w
      invariant Extends(n0, aig.nodes) && |aig.nodes| == |n0| + j
      invariant InputsOk(aig.nodes, first + j)
      invariant |out| == j && AllIn(aig.nodes, out) && (aig.nodes, out) == G.InputsOf(n0, first, j)
      invariant forall inp, k {:trigger LV(aig.nodes, inp, out[k])} :: 0 <= k < j ==>
                  LV(aig.nodes, inp, out[k]) == InputBit(inp, first + k)
    {
      G.InputsNext(n0, first, j);
      var l := aig.PushInput(first + j);
      out := out + [l];
    }
  }

  // ---------- the operators ----------

  predicate Shifts(op: BinOp) { op.Shl? || op.Lshr? || op.Ashr? || op.Rotr? || op.Rotl? }

  predicate Divides(op: BinOp) { op.Mul? || op.Udiv? || op.Urem? || op.Sdiv? || op.Srem? }

  method EncodeShift(aig: Aig, op: BinOp, a: Word, b: Word, ghost W: nat) returns (out: Word)
    requires Wf(aig.nodes) && AllIn(aig.nodes, a) && AllIn(aig.nodes, b) && |a| == |b| > 0 && |a| <= W && Shifts(op)
    modifies aig
    ensures Gates(old(aig.nodes), aig.nodes) && |aig.nodes| <= |old(aig.nodes)| + NodeBudget(W)
    ensures |out| == |a| && AllIn(aig.nodes, out) && (aig.nodes, out) == G.BinOf(old(aig.nodes), op, a, b)
    ensures forall inp :: WV(aig.nodes, inp, out) ==
                          BinValue(op, WV(old(aig.nodes), inp, a), WV(old(aig.nodes), inp, b))
  {
    hide Wf, Gates, AllIn, WV, BvShl, BvLshr, BvAshr, BvRotr, BvRotl, G.ShiftOf, G.RotrOf, G.RotlOf;
    WithinBudget(|a|, W);
    match op {
      case Shl => out := BlastShift.BlastShl(aig, a, b);
      case Lshr => out := BlastShift.BlastLshr(aig, a, b);
      case Ashr => out := BlastShift.BlastAshr(aig, a, b);
      case Rotr => out := BlastRotate.BlastRotr(aig, a, b);
      case Rotl => out := BlastRotate.BlastRotl(aig, a, b);
    }
  }

  method EncodeDivide(aig: Aig, op: BinOp, a: Word, b: Word, ghost W: nat) returns (out: Word)
    requires Wf(aig.nodes) && AllIn(aig.nodes, a) && AllIn(aig.nodes, b) && |a| == |b| > 0 && |a| <= W && Divides(op)
    modifies aig
    ensures Gates(old(aig.nodes), aig.nodes) && |aig.nodes| <= |old(aig.nodes)| + NodeBudget(W)
    ensures |out| == |a| && AllIn(aig.nodes, out) && (aig.nodes, out) == G.BinOf(old(aig.nodes), op, a, b)
    ensures forall inp :: WV(aig.nodes, inp, out) ==
                          BinValue(op, WV(old(aig.nodes), inp, a), WV(old(aig.nodes), inp, b))
  {
    hide Wf, Gates, AllIn, WV, BvMul, BvUdiv, BvUrem, BvSdiv, BvSrem, G.MulOf, G.UdivremOf, G.UremOf, G.SdivOf, G.SremOf;
    WithinBudget(|a|, W);
    match op {
      case Mul => out := BlastMulDiv.BlastMul(aig, a, b);
      case Udiv => out := BlastMulDiv.BlastUdiv(aig, a, b);
      case Urem => out := BlastMulDiv.BlastUrem(aig, a, b);
      case Sdiv => out := BlastSigned.BlastSdiv(aig, a, b);
      case Srem => out := BlastSigned.BlastSrem(aig, a, b);
    }
  }

  /** Every binary operator by its rule. */
  method EncodeBin(aig: Aig, op: BinOp, a: Word, b: Word, ghost W: nat) returns (out: Word)
    requires Wf(aig.nodes) && AllIn(aig.nodes, a) && AllIn(aig.nodes, b) && |a| == |b| > 0 && |a| <= W
    modifies aig
    ensures Gates(old(aig.nodes), aig.nodes) && |aig.nodes| <= |old(aig.nodes)| + NodeBudget(W)
    ensures |out| == |a| && AllIn(aig.nodes, out) && (aig.nodes, out) == G.BinOf(old(aig.nodes), op, a, b)
    ensures forall inp :: WV(aig.nodes, inp, out) ==
                          BinValue(op, WV(old(aig.nodes), inp, a), WV(old(aig.nodes), inp, b))
  {
    hide Wf, Gates, AllIn, WV, BvAdd, BvSub, BvAnd, BvOr, BvXor, G.RippleOf, G.SubOf, G.Bitwise;
    if Shifts(op) {
      out := EncodeShift(aig, op, a, b, W);
      return;
    }
    if Divides(op) {
      out := EncodeDivide(aig, op, a, b, W);
      return;
    }
    WithinBudget(|a|, W);
    match op {
      case Add => out := BlastArith.BlastAdd(aig, a, b);
      case Sub => out := BlastSub(aig, a, b);
      case And => out := BlastAnd(aig, a, b);
      case Or => out := BlastOr(aig, a, b);
      case Xor => out := BlastXor(aig, a, b);
    }
  }

  // ---------- words and values ----------

  ghost predicate WordsOk(ns: Nodes, words: seq<Word>, ws: seq<nat>)
  {
    |words| == |ws| && forall i :: 0 <= i < |words| ==> |words[i]| == ws[i] && AllIn(ns, words[i])
  }

  ghost function WordVals(ns: Nodes, inp: seq<bool>, words: seq<Word>): (vs: seq<Bv>)
    ensures |vs| == |words| && forall i :: 0 <= i < |words| ==> vs[i] == WV(ns, inp, words[i])
  {
    seq(|words|, i requires 0 <= i < |words| => WV(ns, inp, words[i]))
  }

  lemma WordsKept(o: Nodes, n: Nodes, words: seq<Word>, ws: seq<nat>)
    requires Extends(o, n) && WordsOk(o, words, ws)
    ensures WordsOk(n, words, ws)
    ensures forall inp :: WordVals(n, inp, words) == WordVals(o, inp, words)
  {
    forall inp ensures WordVals(n, inp, words) == WordVals(o, inp, words) {
      forall i | 0 <= i < |words| ensures WV(n, inp, words[i]) == WV(o, inp, words[i]) {}
    }
  }

  /** The width of the input block a node takes. */
  function VarWidth(node: D.DagNode): nat { if node.Var? then node.w else 0 }

  /** What encoding one node promises. */
  ghost predicate Encoded(o: Nodes, n: Nodes, words: seq<Word>, ws: seq<nat>, bits: seq<bool>, nin: nat,
                          node: D.DagNode, out: Word)
  {
    && |out| == D.NodeWidth(ws, node) && AllIn(n, out)
    && forall inp :: WV(n, inp, out) ==
                     D.NodeVal(node, bits, WordVals(o, inp, words), D.InputBits(inp, nin, VarWidth(node)))
  }

  predicate Extension(node: D.DagNode) { node.ZeroExt? || node.SignExt? }

  method EncodeExtension(ghost ns: Nodes, words: seq<Word>, ghost bits: seq<bool>, node: D.DagNode, ghost ws: seq<nat>)
    returns (out: Word)
    requires Wf(ns) && WordsOk(ns, words, ws) && D.NodeWf(ws, |bits|, node) && Extension(node)
    ensures Encoded(ns, ns, words, ws, bits, 0, node, out)
    ensures out == G.GatelessOf(words, ws, bits, node)
  {
    hide Wf, G.Same;
    match node {
      case ZeroExt(a, extra) => out := BlastZeroExt(words[a], extra);
      case SignExt(a, extra) => out := BlastSignExt(words[a], extra);
    }
  }

  method EncodeGateless(ghost ns: Nodes, words: seq<Word>, bits: seq<bool>, node: D.DagNode, ghost ws: seq<nat>)
    returns (out: Word)
    requires Wf(ns) && WordsOk(ns, words, ws) && D.NodeWf(ws, |bits|, node) && G.Gateless(node)
    ensures Encoded(ns, ns, words, ws, bits, 0, node, out)
    ensures out == G.GatelessOf(words, ws, bits, node)
  {
    if Extension(node) {
      out := EncodeExtension(ns, words, bits, node, ws);
      return;
    }
    hide ToNat, FromInt, Wf, G.NotWord, G.ConstOf;
    match node {
      case Const(s, w) => out := WordBits(bits, s, w);
      case BvNot(a) => out := WordNot(words[a]);
      case Extract(hi, lo, a) => out := BlastExtract(words[a], hi, lo);
      case Concat(a, b) => out := BlastConcat(words[a], words[b]);
    }
  }

  /** Comparisons by their rule; the boolean connectives are single gates. */
  method EncodeBoolean(aig: Aig, words: seq<Word>, ghost bits: seq<bool>, node: D.DagNode, ghost ws: seq<nat>,
                       ghost W: nat) returns (out: Word)
    requires Wf(aig.nodes) && WordsOk(aig.nodes, words, ws) && D.NodeWf(ws, |bits|, node) && G.BooleanResult(node)
    requires forall i :: 0 <= i < |ws| ==> ws[i] <= W
    modifies aig
    ensures Gates(old(aig.nodes), aig.nodes) && |aig.nodes| <= |old(aig.nodes)| + 9 * W + 1
    ensures Encoded(old(aig.nodes), aig.nodes, words, ws, bits, 0, node, out)
    ensures (aig.nodes, out) == G.One(G.BooleanOf(old(aig.nodes), words, ws, |bits|, node))
  {
    hide ToNat, FromInt, Wf, CmpValue, NodeValue, G.CmpOf;
    ghost var n0 := aig.nodes;
    var l;
    match node {
      case Cmp(op, a, b) =>
        l := BlastCmp(aig, op, words[a], words[b]);
      case Not(a) =>
        l := AigGraph.Not(words[a][0]);
        assert In(n0, words[a][0]);
      case BoolAnd(a, b) =>
        assert In(n0, words[a][0]) && In(n0, words[b][0]);
        l := aig.PushAnd(words[a][0], words[b][0]);
      case BoolOr(a, b) =>
        assert In(n0, words[a][0]) && In(n0, words[b][0]);
        l := aig.PushOr(words[a][0], words[b][0]);
    }
    out := [l];
    forall inp ensures WV(aig.nodes, inp, out) ==
                       D.NodeVal(node, bits, WordVals(n0, inp, words), D.InputBits(inp, 0, 0))
    {
      assert WV(aig.nodes, inp, out) == [LV(aig.nodes, inp, l)];
      if node.Not? { assert LV(aig.nodes, inp, l) == !LV(n0, inp, words[node.a][0]); }
    }
  }

  method EncodeGates(aig: Aig, words: seq<Word>, ghost bits: seq<bool>, node: D.DagNode, ghost ws: seq<nat>,
                     ghost W: nat) returns (out: Word)
    requires Wf(aig.nodes) && WordsOk(aig.nodes, words, ws) && D.NodeWf(ws, |bits|, node)
    requires node.Bin? || node.Neg? || node.Ite?
    requires forall i :: 0 <= i < |ws| ==> ws[i] <= W
    modifies aig
    ensures Gates(old(aig.nodes), aig.nodes) && |aig.nodes| <= |old(aig.nodes)| + NodeBudget(W)
    ensures Encoded(old(aig.nodes), aig.nodes, words, ws, bits, 0, node, out)
    ensures (aig.nodes, out) == G.GatesOf(old(aig.nodes), words, ws, |bits|, node)
  {
    hide ToNat, FromInt, Wf, BinValue, G.BinOf, G.SubOf, G.IteOf;
    ghost var n0 := aig.nodes;
    match node {
      case Bin(op, a, b) => out := EncodeBin(aig, op, words[a], words[b], W);
      case Neg(a) =>
        WithinBudget(|words[a]|, W);
        out := BlastNeg(aig, words[a]);
      case Ite(c, t, e) =>
        WithinBudget(|words[t]|, W);
        assert In(n0, words[c][0]);
        out := BlastIte(aig, words[c][0], words[t], words[e]);
    }
  }

  /** One node by its rule. */
  method EncodeNode(aig: Aig, words: seq<Word>, bits: seq<bool>, nin: nat, node: D.DagNode,
                    ghost ws: seq<nat>, ghost W: nat) returns (out: Word, nin': nat)
    requires Wf(aig.nodes) && WordsOk(aig.nodes, words, ws) && D.NodeWf(ws, |bits|, node) && InputsOk(aig.nodes, nin)
    requires (forall i :: 0 <= i < |ws| ==> ws[i] <= W) && D.NodeWidth(ws, node) <= W
    modifies aig
    ensures Extends(old(aig.nodes), aig.nodes) && |aig.nodes| <= |old(aig.nodes)| + NodeBudget(W)
    ensures nin' == nin + VarWidth(node) && InputsOk(aig.nodes, nin')
    ensures Encoded(old(aig.nodes), aig.nodes, words, ws, bits, nin, node, out)
    ensures (aig.nodes, out) == G.NodeOf(old(aig.nodes), words, ws, bits, nin, node)
  {
    hide ToNat, FromInt, Wf, BinValue, CmpValue, G.BinOf, G.CmpOf, G.SubOf, G.IteOf, G.InputsOf, G.GatelessOf, G.BooleanOf, G.GatesOf;
    ghost var n0 := aig.nodes;
    nin' := nin;
    if node.Var? {
      WithinBudget(node.w, W);
      out := WordInputs(aig, nin, node.w);
      nin' := nin + node.w;
    } else if G.Gateless(node) {
      out := EncodeGateless(aig.nodes, words, bits, node, ws);
      AppendExtends(n0, n0);
    } else if G.BooleanResult(node) {
      WithinBudget(W, W);
      out := EncodeBoolean(aig, words, bits, node, ws, W);
      GatesKeepInputs(n0, aig.nodes, nin);
    } else {
      out := EncodeGates(aig, words, bits, node, ws, W);
      GatesKeepInputs(n0, aig.nodes, nin);
    }
  }

  // ---------- the whole DAG ----------

  /** Every word so far denotes its node's value, under every input list. */
  ghost predicate Denotes(nodes: Nodes, words: seq<Word>, ns: D.Dag, bits: seq<bool>, n: nat)
    requires n <= |ns|
  {
    forall inp :: WordVals(nodes, inp, words) == D.DagVals(ns, bits, D.EnvOf(ns, inp), n)
  }

  lemma DenotesStep(n0: Nodes, n1: Nodes, words: seq<Word>, ws: seq<nat>, ns: D.Dag, bits: seq<bool>, i: nat, out: Word)
    requires i < |ns| && Extends(n0, n1) && WordsOk(n0, words, ws) && ws == D.Widths(ns, i)
    requires Denotes(n0, words, ns, bits, i)
    requires Encoded(n0, n1, words, ws, bits, D.Offset(ns, i), ns[i], out)
    ensures Denotes(n1, words + [out], ns, bits, i + 1) && WordsOk(n1, words + [out], D.Widths(ns, i + 1))
  {
    WordsKept(n0, n1, words, ws);
    forall inp
      ensures WordVals(n1, inp, words + [out]) == D.DagVals(ns, bits, D.EnvOf(ns, inp), i + 1)
    {
      var env := D.EnvOf(ns, inp);
      var vs := D.DagVals(ns, bits, env, i);
      assert WordVals(n0, inp, words) == vs;
      assert WordVals(n1, inp, words + [out]) == WordVals(n1, inp, words) + [WV(n1, inp, out)];
      if ns[i].Var? { assert D.At(env, i) == D.InputBits(inp, D.Offset(ns, i), ns[i].w); }
      assert WV(n1, inp, out) == D.NodeVal(ns[i], bits, vs, D.At(env, i));
    }
  }

  /** Encode every node in order, then read off the asserted output literals. */
  method Encode(ns: D.Dag, bits: seq<bool>, roots: seq<nat>, ghost W: nat)
    returns (aig: Aig, words: seq<Word>, outs: Word)
    requires D.QueryWf(ns, |bits|, roots)
    requires forall i :: 0 <= i < |ns| ==> D.Widths(ns, |ns|)[i] <= W
    ensures fresh(aig) && Wf(aig.nodes) && InputsOk(aig.nodes, D.Offset(ns, |ns|))
    ensures |aig.nodes| <= 1 + |ns| * NodeBudget(W)
    ensures WordsOk(aig.nodes, words, D.Widths(ns, |ns|)) && Denotes(aig.nodes, words, ns, bits, |ns|)
    ensures |outs| == |roots| && AllIn(aig.nodes, outs)
    ensures (aig.nodes, outs) == G.QueryOf(ns, bits, roots)
    ensures forall inp, k :: 0 <= k < |roots| ==>
              LV(aig.nodes, inp, outs[k]) == D.Truth(D.DagVal(ns, bits, D.EnvOf(ns, inp), roots[k]))
  {
    hide NodeBudget, Rounds, G.DagOf, G.NodeOf;
    aig := new Aig();
    G.DagNone(ns, bits);
    words := [];
    var nin := 0;
    ghost var ws := D.Widths(ns, |ns|);
    RoundsStep(NodeBudget(W), 0);
    for i := 0 to |ns|
      invariant fresh(aig) && Wf(aig.nodes) && nin == D.Offset(ns, i) && InputsOk(aig.nodes, nin)
      invariant |aig.nodes| <= 1 + Rounds(NodeBudget(W), i)
      invariant WordsOk(aig.nodes, words, D.Widths(ns, i)) && Denotes(aig.nodes, words, ns, bits, i)
      invariant (aig.nodes, words) == G.DagOf(ns, bits, i)
    {
      ghost var n0 := aig.nodes;
      assert D.WfAt(ns, |bits|, i);
      D.WidthsPrefix(ns, i, |ns|);
      D.WidthOf(ns, i);
      forall k | 0 <= k < i ensures D.Widths(ns, i)[k] <= W { assert ws[..i][k] == ws[k]; }
      var out;
      G.DagNext(ns, bits, i);
      out, nin := EncodeNode(aig, words, bits, nin, ns[i], D.Widths(ns, i), W);
      DenotesStep(n0, aig.nodes, words, D.Widths(ns, i), ns, bits, i, out);
      RoundsStep(NodeBudget(W), i);
      words := words + [out];
    }
    RoundsProduct(NodeBudget(W), |ns|);
    G.RootsThere(ns, bits, roots);
    outs := [];
    for k := 0 to |roots|
      invariant |outs| == k && forall j :: 0 <= j < k ==> outs[j] == words[roots[j]][0] && In(aig.nodes, outs[j])
    {
      assert D.RootWf(ws, roots[k]);
      outs := outs + [words[roots[k]][0]];
    }
    assert outs == G.RootsOf(words, roots);
    forall inp, k | 0 <= k < |roots|
      ensures LV(aig.nodes, inp, outs[k]) == D.Truth(D.DagVal(ns, bits, D.EnvOf(ns, inp), roots[k]))
    {
      var env := D.EnvOf(ns, inp);
      D.DagValAt(ns, bits, env, roots[k], |ns|);
      assert WordVals(aig.nodes, inp, words)[roots[k]] == D.DagVals(ns, bits, env, |ns|)[roots[k]];
    }
  }

  lemma RoundsProduct(n: nat, k: nat)
    ensures Rounds(n, k) == k * n
  {
  }
}
