/** The term-to-DAG correspondence: a lowered DAG against the term it was
    lowered from, along an untrusted index map. */
module TermCheck {
  import opened Wrappers
  import opened Bits
  import opened BvOps
  import opened Dag
  import Encoder
  import Query
  import AigGraph

  datatype TermError =
    | Term(term: QueryError)
    | Lowered(lowered: QueryError)
    | MapLength(expected: nat, found: nat)
    | MapOutOfRange(node: nat)
    | VarMismatch(node: nat)
    | ConstMismatch(node: nat)
    | NodeMismatch(node: nat)
    | FoldMismatch(node: nat)
    | RootMismatch

  /** The index meaning "no image"; no list reaches it. */
  const NONE: nat := USIZE_MAX

  function MapAt(m: seq<nat>, a: nat): nat { if a < |m| then m[a] else NONE }

  /** A term node with every operand replaced by its image. */
  function MapNode(m: seq<nat>, node: DagNode): DagNode
  {
    match node
    case Var(w) => Var(w)
    case Const(s, w) => Const(s, w)
    case Bin(op, a, b) => Bin(op, MapAt(m, a), MapAt(m, b))
    case BvNot(a) => BvNot(MapAt(m, a))
    case Neg(a) => Neg(MapAt(m, a))
    case Extract(hi, lo, a) => Extract(hi, lo, MapAt(m, a))
    case Concat(a, b) => Concat(MapAt(m, a), MapAt(m, b))
    case ZeroExt(a, extra) => ZeroExt(MapAt(m, a), extra)
    case SignExt(a, extra) => SignExt(MapAt(m, a), extra)
    case Ite(c, t, e) => Ite(MapAt(m, c), MapAt(m, t), MapAt(m, e))
    case Cmp(op, a, b) => Cmp(op, MapAt(m, a), MapAt(m, b))
    case Not(a) => Not(MapAt(m, a))
    case BoolAnd(a, b) => BoolAnd(MapAt(m, a), MapAt(m, b))
    case BoolOr(a, b) => BoolOr(MapAt(m, a), MapAt(m, b))
  }

  predicate Commutes(op: BinOp) { op.Add? || op.Mul? || op.And? || op.Or? || op.Xor? }

  /** A commutative operator with its operands exchanged. */
  function SwapComm(node: DagNode): DagNode
  {
    match node
    case Bin(op, a, b) => if Commutes(op) then Bin(op, b, a) else node
    case Cmp(op, a, b) => if op.Eq? || op.Ne? then Cmp(op, b, a) else node
    case BoolAnd(a, b) => BoolAnd(b, a)
    case BoolOr(a, b) => BoolOr(b, a)
    case _ => node
  }

  function MirrorOp(op: CmpOp): CmpOp
  {
    match op
    case Ult => Ugt
    case Ule => Uge
    case Ugt => Ult
    case Uge => Ule
    case Slt => Sgt
    case Sle => Sge
    case Sgt => Slt
    case Sge => Sle
    case _ => op
  }

  /** An ordered comparison read from the other side. */
  function Mirror(node: DagNode): DagNode
  {
    if node.Cmp? && !node.cmp.Eq? && !node.cmp.Ne? then Cmp(MirrorOp(node.cmp), node.b, node.a) else node
  }

  predicate NodeCorr(m: seq<nat>, tn: DagNode, d: DagNode)
  {
    var e := MapNode(m, tn);
    e == d || e == SwapComm(d) || e == Mirror(d)
  }

  // ---------- constant-valued nodes ----------

  predicate ConstAt(cval: seq<bool>, a: nat) { a < |cval| && cval[a] }

  /** Known, constant and equal to b. */
  predicate Decided(cval: seq<bool>, conds: seq<Option<bool>>, c: nat, b: bool)
  {
    ConstAt(cval, c) && c < |conds| && conds[c] == Some(b)
  }

  /** Is the node's value independent of the inputs, given which earlier
      nodes' are and the known truth values?  An ite may be decided by a
      constant condition, a connective by one deciding operand. */
  predicate NodeConst(cval: seq<bool>, conds: seq<Option<bool>>, node: DagNode)
  {
    match node
    case Var(_) => false
    case Const(_, _) => true
    case Bin(_, a, b) => ConstAt(cval, a) && ConstAt(cval, b)
    case BvNot(a) => ConstAt(cval, a)
    case Neg(a) => ConstAt(cval, a)
    case Extract(_, _, a) => ConstAt(cval, a)
    case Concat(a, b) => ConstAt(cval, a) && ConstAt(cval, b)
    case ZeroExt(a, _) => ConstAt(cval, a)
    case SignExt(a, _) => ConstAt(cval, a)
    case Ite(c, t, e) =>
      (Decided(cval, conds, c, true) && ConstAt(cval, t)) || (Decided(cval, conds, c, false) && ConstAt(cval, e))
    case Cmp(_, a, b) => ConstAt(cval, a) && ConstAt(cval, b)
    case Not(a) => ConstAt(cval, a)
    case BoolAnd(a, b) =>
      Decided(cval, conds, a, false) || Decided(cval, conds, b, false) || (ConstAt(cval, a) && ConstAt(cval, b))
    case BoolOr(a, b) =>
      Decided(cval, conds, a, true) || Decided(cval, conds, b, true) || (ConstAt(cval, a) && ConstAt(cval, b))
  }

  function ConstFlags(ns: Dag, conds: seq<Option<bool>>, n: nat): (cval: seq<bool>)
    requires n <= |ns|
    ensures |cval| == n
  {
    if n == 0 then [] else
    var cval := ConstFlags(ns, conds, n - 1);
    cval + [NodeConst(cval, conds, ns[n - 1])]
  }

  method DagConst(ns: Dag, conds: seq<Option<bool>>) returns (cval: seq<bool>)
    ensures cval == ConstFlags(ns, conds, |ns|)
  {
    cval := [];
    for i := 0 to |ns|
      invariant cval == ConstFlags(ns, conds, i)
    {
      cval := cval + [NodeConst(cval, conds, ns[i])];
    }
  }

  /** The truth of a word, when it has a bit. */
  function CondOf(z: Bv): Option<bool> { if |z| > 0 then Some(z[0]) else None }

  function CondsOf(zs: seq<Bv>): (conds: seq<Option<bool>>)
    ensures |conds| == |zs| && forall c :: 0 <= c < |zs| ==> conds[c] == CondOf(zs[c])
  {
    seq(|zs|, c requires 0 <= c < |zs| => CondOf(zs[c]))
  }

  /** A simulated word: in range, and denoting z. */
  ghost predicate WordIs(vals: seq<bool>, word: AigGraph.Word, z: Bv)
  {
    |word| == |z| && forall j :: 0 <= j < |z| ==> word[j].node < |vals| && AigGraph.EvalLit(vals, word[j]) == z[j]
  }

  /** The simulated truth of every node's first literal; never a guess. */
  method Conditions(vals: seq<bool>, words: seq<AigGraph.Word>, ghost zs: seq<Bv>) returns (conds: seq<Option<bool>>)
    requires |words| == |zs| && forall i :: 0 <= i < |zs| ==> WordIs(vals, words[i], zs[i])
    ensures conds == CondsOf(zs)
  {
    conds := [];
    for c := 0 to |words|
      invariant conds == CondsOf(zs)[..c]
    {
      assert WordIs(vals, words[c], zs[c]);
      if |words[c]| > 0 && words[c][0].node < |vals| {
        conds := conds + [Some(AigGraph.EvalLit(vals, words[c][0]))];
      } else {
        conds := conds + [None];
      }
    }
  }

  /** A node marked constant has, under every assignment, the value it has
      under the one evaluated. */
  lemma {:induction false} ConstSound(ns: Dag, bits: seq<bool>, env: Env, env0: Env, n: nat)
    requires n <= |ns|
    ensures var cval := ConstFlags(ns, CondsOf(DagVals(ns, bits, env0, |ns|)), n);
            forall i :: 0 <= i < n && cval[i] ==> DagVals(ns, bits, env, n)[i] == DagVals(ns, bits, env0, n)[i]
  {
    if n > 0 {
      ConstSound(ns, bits, env, env0, n - 1);
      var conds := CondsOf(DagVals(ns, bits, env0, |ns|));
      var cval, vs, zs := ConstFlags(ns, conds, n - 1), DagVals(ns, bits, env, n - 1), DagVals(ns, bits, env0, n - 1);
      DagValsPrefix(ns, bits, env0, n - 1, |ns|);
      forall c: nat, b | Decided(cval, conds, c, b) ensures Truth(At(vs, c)) == Truth(At(zs, c)) == b {
        assert DagVals(ns, bits, env0, |ns|)[c] == DagVals(ns, bits, env0, |ns|)[..n - 1][c];
      }
      if NodeConst(cval, conds, ns[n - 1]) {
        NodeConstSound(cval, conds, ns[n - 1], bits, vs, zs, At(env, n - 1), At(env0, n - 1));
      }
    }
  }

  lemma NodeConstSound(cval: seq<bool>, conds: seq<Option<bool>>, node: DagNode, bits: seq<bool>,
                       vs: seq<Bv>, zs: seq<Bv>, own: Bv, own0: Bv)
    requires NodeConst(cval, conds, node) && |cval| == |vs| == |zs|
    requires forall i :: 0 <= i < |cval| && cval[i] ==> vs[i] == zs[i]
    requires forall c, b :: Decided(cval, conds, c, b) ==> Truth(At(vs, c)) == Truth(At(zs, c)) == b
    ensures NodeVal(node, bits, vs, own) == NodeVal(node, bits, zs, own0)
  {
    hide BinValue, CmpValue, BvNeg, BvExtract, BvConcat, BvZeroExt, BvSignExt;
  }

  // ---------- the correspondence ----------

  /** The w bits at s0 of one table are those at s1 of the other. */
  predicate BitsEq(tbits: seq<bool>, s0: nat, bits: seq<bool>, s1: nat, w: nat)
  {
    s0 + w <= |tbits| && s1 + w <= |bits| && tbits[s0..s0 + w] == bits[s1..s1 + w]
  }

  method CheckBitsEq(tbits: seq<bool>, s0: nat, bits: seq<bool>, s1: nat, w: nat) returns (r: bool)
    ensures r == BitsEq(tbits, s0, bits, s1, w)
  {
    if s0 > |tbits| || w > |tbits| - s0 || s1 > |bits| || w > |bits| - s1 { return false; }
    for j := 0 to w
      invariant tbits[s0..s0 + j] == bits[s1..s1 + j]
    {
      assert tbits[s0..s0 + j + 1] == tbits[s0..s0 + j] + [tbits[s0 + j]];
      assert bits[s1..s1 + j + 1] == bits[s1..s1 + j] + [bits[s1 + j]];
      if tbits[s0 + j] != bits[s1 + j] {
        assert tbits[s0..s0 + w][j] != bits[s1..s1 + w][j];
        return false;
      }
    }
    return true;
  }

  method FoldBitsOk(vals: seq<bool>, word: AigGraph.Word, bits: seq<bool>, s: nat, w: nat, ghost z: Bv) returns (r: bool)
    requires WordIs(vals, word, z)
    ensures r <==> |z| == w && s + w <= |bits| && bits[s..s + w] == z
  {
    if |word| != w || s > |bits| || w > |bits| - s { return false; }
    for j := 0 to w
      invariant bits[s..s + j] == z[..j]
    {
      assert bits[s..s + j + 1] == bits[s..s + j] + [bits[s + j]];
      if AigGraph.EvalLit(vals, word[j]) != bits[s + j] {
        assert bits[s..s + w][j] != z[j];
        return false;
      }
    }
    return true;
  }

  /** Everything one node is checked against: the two queries, the map, and the
      term's widths and constant flags. */
  datatype Pair = Pair(t: Dag, tbits: seq<bool>, m: seq<nat>, ns: Dag, bits: seq<bool>, ws0: seq<nat>, cval: seq<bool>)

  predicate PairWf(p: Pair)
  {
    |p.m| == |p.ws0| == |p.cval| == |p.t| && |p.ns| <= USIZE_MAX
  }

  predicate Mapped(p: Pair, i: nat)
  {
    i < |p.m| && p.m[i] < |p.ns|
  }

  /** Node i against its image; zs are the term's all-false values. */
  predicate ImageOk(p: Pair, zs: seq<Bv>, i: nat)
    requires PairWf(p) && |zs| == |p.t| && i < |p.t| && Mapped(p, i)
  {
    var tn, d := p.t[i], p.ns[p.m[i]];
    if tn.Var? then d == tn
    else if tn.Const? then d.Const? && tn.w == d.w && BitsEq(p.tbits, tn.s, p.bits, d.s, tn.w)
    else if d.Const? then p.cval[i] && p.ws0[i] == d.w == |zs[i]| && d.s + d.w <= |p.bits| && p.bits[d.s..d.s + d.w] == zs[i]
    else NodeCorr(p.m, tn, d)
  }

  /** No earlier term variable has the image of node i. */
  predicate Unused(p: Pair, i: nat)
    requires PairWf(p) && i < |p.t|
  {
    forall k :: 0 <= k < i && p.t[k].Var? ==> p.m[k] != p.m[i]
  }

  /** Node i has no image, or corresponds to it; variables injectively. */
  predicate StepOk(p: Pair, zs: seq<Bv>, i: nat)
    requires PairWf(p) && |zs| == |p.t| && i < |p.t|
  {
    p.m[i] == NONE || (p.m[i] < |p.ns| && ImageOk(p, zs, i) && (p.t[i].Var? ==> Unused(p, i)))
  }

  predicate AllOk(p: Pair, zs: seq<Bv>)
    requires PairWf(p) && |zs| == |p.t|
  {
    forall i :: 0 <= i < |p.t| ==> StepOk(p, zs, i)
  }

  predicate RootsCorr(troots: seq<nat>, m: seq<nat>, roots: seq<nat>)
  {
    |troots| == |roots| && forall k :: 0 <= k < |troots| ==> MapAt(m, troots[k]) == roots[k] != NONE
  }

  function Complaint(p: Pair, i: nat): TermError
    requires PairWf(p) && i < |p.t|
  {
    if p.m[i] >= |p.ns| then MapOutOfRange(i)
    else if p.t[i].Var? then VarMismatch(i)
    else if p.t[i].Const? then ConstMismatch(i)
    else if p.ns[p.m[i]].Const? then FoldMismatch(i)
    else NodeMismatch(i)
  }

  /** seen marks exactly the images of the variables among the first i nodes. */
  ghost predicate SeenUpTo(p: Pair, seen: seq<bool>, i: nat)
    requires PairWf(p) && i <= |p.t|
  {
    && |seen| == |p.ns|
    && forall d :: 0 <= d < |p.ns| ==> (seen[d] <==> exists k :: 0 <= k < i && p.t[k].Var? && p.m[k] == d)
  }

  /** One node of the main loop; a variable claims its image. */
  method TermStep(p: Pair, ghost zs: seq<Bv>, vals: seq<bool>, words: seq<AigGraph.Word>, seen: array<bool>, i: nat)
    returns (r: Result<Unit, TermError>)
    requires PairWf(p) && i < |p.t| == |zs| && |words| == |p.t| && WordIs(vals, words[i], zs[i])
    requires SeenUpTo(p, seen[..], i)
    modifies seen
    ensures r == if StepOk(p, zs, i) then Ok(Unit) else Err(Complaint(p, i))
    ensures r.Ok? ==> SeenUpTo(p, seen[..], i + 1)
  {
    var mi := p.m[i];
    if mi == NONE { return Ok(Unit); }
    if mi >= |p.ns| { return Err(MapOutOfRange(i)); }
    var tn, d := p.t[i], p.ns[mi];
    if tn.Var? {
      if !d.Var? || tn.w != d.w || seen[mi] { return Err(VarMismatch(i)); }
      ghost var before := seen[..];
      seen[mi] := true;
      SeenStep(p, before, seen[..], i);
      return Ok(Unit);
    }
    if tn.Const? {
      if !d.Const? || tn.w != d.w { return Err(ConstMismatch(i)); }
      var same := CheckBitsEq(p.tbits, tn.s, p.bits, d.s, tn.w);
      return if same then Ok(Unit) else Err(ConstMismatch(i));
    }
    if d.Const? {
      var same := FoldBitsOk(vals, words[i], p.bits, d.s, d.w, zs[i]);
      return if p.cval[i] && p.ws0[i] == d.w && same then Ok(Unit) else Err(FoldMismatch(i));
    }
    return if NodeCorr(p.m, tn, d) then Ok(Unit) else Err(NodeMismatch(i));
  }

  lemma SeenStep(p: Pair, before: seq<bool>, after: seq<bool>, i: nat)
    requires PairWf(p) && i < |p.t| && p.t[i].Var? && Mapped(p, i)
    requires SeenUpTo(p, before, i) && after == before[p.m[i] := true]
    ensures SeenUpTo(p, after, i + 1)
  {
  }

  // ---------- the check ----------

  /** The term's values with every variable zero. */
  function ZeroVals(t: Dag, tbits: seq<bool>): (zs: seq<Bv>)
    ensures |zs| == |t|
  {
    DagVals(t, tbits, EnvOf(t, Fill(false, Offset(t, |t|))), |t|)
  }

  function PairOf(t: Dag, tbits: seq<bool>, m: seq<nat>, ns: Dag, bits: seq<bool>): (p: Pair)
    requires |m| == |t| && |ns| <= USIZE_MAX
    ensures PairWf(p)
  {
    Pair(t, tbits, m, ns, bits, Widths(t, |t|), ConstFlags(t, CondsOf(ZeroVals(t, tbits)), |t|))
  }

  /** What acceptance means, declaratively. */
  predicate Accepted(t: Dag, tbits: seq<bool>, troots: seq<nat>, m: seq<nat>, ns: Dag, bits: seq<bool>, roots: seq<nat>)
    requires |ns| <= USIZE_MAX
  {
    && DagWf(t, |tbits|) && DagWf(ns, |bits|) && |m| == |t|
    && AllOk(PairOf(t, tbits, m, ns, bits), ZeroVals(t, tbits)) && RootsCorr(troots, m, roots)
  }

  /** Encode the term and simulate it: every node's word, read off the
      simulation, is its value. */
  method Simulated(t: Dag, tbits: seq<bool>, inp: seq<bool>, ghost W: nat)
    returns (vals: seq<bool>, words: seq<AigGraph.Word>)
    requires DagWf(t, |tbits|) && forall i :: 0 <= i < |t| ==> Widths(t, |t|)[i] <= W
    requires Offset(t, |t|) <= |inp|
    ensures |words| == |t|
    ensures forall i :: 0 <= i < |t| ==> WordIs(vals, words[i], DagVals(t, tbits, EnvOf(t, inp), |t|)[i])
  {
    var raw, ws, outs := Encoder.Encode(t, tbits, [], W);
    words := ws;
    vals := AigGraph.Simulate(raw.nodes, inp);
    ghost var zs := DagVals(t, tbits, EnvOf(t, inp), |t|);
    assert Encoder.WordVals(raw.nodes, inp, words) == zs;
    forall i | 0 <= i < |t| ensures WordIs(vals, words[i], zs[i]) {
      assert AigGraph.AllIn(raw.nodes, words[i]);
      forall j | 0 <= j < |words[i]|
        ensures words[i][j].node < |vals| && AigGraph.EvalLit(vals, words[i][j]) == zs[i][j]
      {
        assert AigGraph.In(raw.nodes, words[i][j]);
      }
    }
  }

  /** With every input false: the evaluator the folds are checked with. */
  method Evaluate(t: Dag, tbits: seq<bool>, ghost W: nat) returns (vals: seq<bool>, words: seq<AigGraph.Word>)
    requires DagWf(t, |tbits|) && forall i :: 0 <= i < |t| ==> Widths(t, |t|)[i] <= W
    ensures |words| == |t| && forall i :: 0 <= i < |t| ==> WordIs(vals, words[i], ZeroVals(t, tbits)[i])
  {
    var nin := Offset(t, |t|);
    var inp := [];
    for k := 0 to nin
      invariant inp == Fill(false, k)
    {
      inp := inp + [false];
    }
    vals, words := Simulated(t, tbits, inp, W);
  }

  /** The nodes in order, then the first one that does not correspond. */
  method CheckNodes(p: Pair, ghost zs: seq<Bv>, vals: seq<bool>, words: seq<AigGraph.Word>)
    returns (r: Result<Unit, TermError>)
    requires PairWf(p) && |words| == |p.t| == |zs| && forall i :: 0 <= i < |p.t| ==> WordIs(vals, words[i], zs[i])
    ensures r.Ok? <==> AllOk(p, zs)
    ensures r.Err? ==> exists i :: FirstBadStep(p, zs, i) && r.error == Complaint(p, i)
  {
    var seen := new bool[|p.ns|](_ => false);
    for i := 0 to |p.t|
      invariant fresh(seen) && SeenUpTo(p, seen[..], i)
      invariant forall k :: 0 <= k < i ==> StepOk(p, zs, k)
    {
      var step := TermStep(p, zs, vals, words, seen, i);
      if step.Err? {
        assert FirstBadStep(p, zs, i);
        return step;
      }
    }
    return Ok(Unit);
  }

  method CheckRootsCorr(troots: seq<nat>, m: seq<nat>, roots: seq<nat>) returns (ok: bool)
    ensures ok == RootsCorr(troots, m, roots)
  {
    if |troots| != |roots| { return false; }
    ok := true;
    var k := 0;
    while ok && k < |troots|
      invariant 0 <= k <= |troots|
      invariant ok ==> forall j :: 0 <= j < k ==> MapAt(m, troots[j]) == roots[j] != NONE
      invariant !ok ==> !RootsCorr(troots, m, roots)
    {
      var image := MapAt(m, troots[k]);
      if image == NONE || image != roots[k] { ok := false; }
      k := k + 1;
    }
  }

  ghost predicate FirstBadStep(p: Pair, zs: seq<Bv>, i: nat)
    requires PairWf(p) && |zs| == |p.t|
  {
    i < |p.t| && !StepOk(p, zs, i) && forall k :: 0 <= k < i ==> StepOk(p, zs, k)
  }

  /** What a rejection says: everything checked before holds, and what is
      named is the first thing that does not. */
  ghost predicate Blames(t: Dag, tbits: seq<bool>, troots: seq<nat>, m: seq<nat>, ns: Dag, bits: seq<bool>, roots: seq<nat>,
                         error: TermError)
    requires |ns| <= USIZE_MAX
  {
    match error
    case Term(TooLarge) => DagWf(t, |tbits|) && DagWf(ns, |bits|) && |m| == |t| && Query.BeyondCapacity(t)
    case Term(term) => term.NodeNotWellFormed? && Query.FirstBad(term, t, |tbits|, [])
    case Lowered(lowered) =>
      DagWf(t, |tbits|) && lowered.NodeNotWellFormed? && Query.FirstBad(lowered, ns, |bits|, [])
    case MapLength(n, found) => DagWf(t, |tbits|) && DagWf(ns, |bits|) && n == |t| && found == |m| && n != found
    case RootMismatch =>
      && DagWf(t, |tbits|) && DagWf(ns, |bits|) && |m| == |t|
      && AllOk(PairOf(t, tbits, m, ns, bits), ZeroVals(t, tbits)) && !RootsCorr(troots, m, roots)
    case _ =>
      && DagWf(t, |tbits|) && DagWf(ns, |bits|) && |m| == |t|
      && exists i :: FirstBadStep(PairOf(t, tbits, m, ns, bits), ZeroVals(t, tbits), i) &&
                     error == Complaint(PairOf(t, tbits, m, ns, bits), i)
  }

  /** THE TERM-TO-DAG CORRESPONDENCE CHECK: within capacity it accepts exactly
      the declarative correspondence, and a rejection names the first thing
      that is wrong. */
  method CheckTermDag(t: Dag, tbits: seq<bool>, troots: seq<nat>, m: seq<nat>, ns: Dag, bits: seq<bool>, roots: seq<nat>)
    returns (r: Result<Unit, TermError>)
    requires |t| <= USIZE_MAX && |ns| <= USIZE_MAX
    ensures r.Ok? <==> Accepted(t, tbits, troots, m, ns, bits, roots) && !Query.BeyondCapacity(t)
    ensures r.Err? ==> !Accepted(t, tbits, troots, m, ns, bits, roots) ||
                       (r.error == Term(TooLarge) && Query.BeyondCapacity(t))
    ensures r.Err? ==> Blames(t, tbits, troots, m, ns, bits, roots, r.error)
  {
    var wf0 := Query.Admit(t, |tbits|, []);
    if wf0.Err? && !wf0.error.TooLarge? { return Err(Term(wf0.error)); }
    var wf1 := CheckWf(ns, |bits|);
    if wf1.Err? { return Err(Lowered(wf1.error)); }
    if |m| != |t| { return Err(MapLength(|t|, |m|)); }
    if wf0.Err? { return Err(Term(TooLarge)); }
    Query.WithinNotBeyond(t, wf0.value);
    Query.OffsetBound(t, wf0.value, |t|);
    Query.CapacityCoversInputs(|t|, wf0.value);
    var vals, words := Evaluate(t, tbits, wf0.value);
    ghost var zs := ZeroVals(t, tbits);
    var conds := Conditions(vals, words, zs);
    var cval := DagConst(t, conds);
    var nodes := CheckNodes(Pair(t, tbits, m, ns, bits, Widths(t, |t|), cval), zs, vals, words);
    if nodes.Err? { return nodes; }
    var rootsOk := CheckRootsCorr(troots, m, roots);
    if !rootsOk { return Err(RootMismatch); }
    return Ok(Unit);
  }
}
