/** The term DAG: well-formedness, widths, and its bitvector semantics. */
module Dag {
  import opened Wrappers
  import opened Bits
  import opened BvOps
  import AigGraph
  import Lrat

  /** A node over earlier nodes.  The width-preserving binary operators and the
      comparisons carry their operator; the other constructors are the
      kernel's own. */
  datatype DagNode =
    | Var(w: nat)
    | Const(s: nat, w: nat)
    | Bin(op: BinOp, a: nat, b: nat)
    | BvNot(a: nat)
    | Neg(a: nat)
    | Extract(hi: nat, lo: nat, a: nat)
    | Concat(a: nat, b: nat)
    | ZeroExt(a: nat, extra: nat)
    | SignExt(a: nat, extra: nat)
    | Ite(c: nat, t: nat, e: nat)
    | Cmp(cmp: CmpOp, a: nat, b: nat)
    | Not(a: nat)
    | BoolAnd(a: nat, b: nat)
    | BoolOr(a: nat, b: nat)

  type Dag = seq<DagNode>

  datatype QueryError =
    | NodeNotWellFormed(node: nat)
    | BadRoot(root: nat)
    | TooLarge
    | Check(core: Lrat.CoreError)

  // ---------- well-formedness ----------

  /** Operand a names an earlier node of positive width. */
  predicate Word(ws: seq<nat>, a: nat) { a < |ws| && ws[a] > 0 }

  predicate Boolean(ws: seq<nat>, a: nat) { a < |ws| && ws[a] == 1 }

  predicate SameWidth(ws: seq<nat>, a: nat, b: nat) { Word(ws, a) && b < |ws| && ws[a] == ws[b] }

  /** One node against the widths of the nodes before it. */
  predicate NodeWf(ws: seq<nat>, nbits: nat, node: DagNode)
  {
    match node
    case Var(w) => w > 0
    case Const(s, w) => w > 0 && s <= nbits && w <= nbits - s
    case Bin(_, a, b) => SameWidth(ws, a, b)
    case BvNot(a) => Word(ws, a)
    case Neg(a) => Word(ws, a)
    case Extract(hi, lo, a) => a < |ws| && lo <= hi < ws[a]
    case Concat(a, b) => Word(ws, a) && Word(ws, b) && ws[a] <= USIZE_MAX - ws[b]
    case ZeroExt(a, extra) => Word(ws, a) && ws[a] <= USIZE_MAX - extra
    case SignExt(a, extra) => Word(ws, a) && ws[a] <= USIZE_MAX - extra
    case Ite(c, t, e) => Boolean(ws, c) && SameWidth(ws, t, e)
    case Cmp(_, a, b) => SameWidth(ws, a, b)
    case Not(a) => Boolean(ws, a)
    case BoolAnd(a, b) => Boolean(ws, a) && Boolean(ws, b)
    case BoolOr(a, b) => Boolean(ws, a) && Boolean(ws, b)
  }

  function WidthAt(ws: seq<nat>, a: nat): nat { if a < |ws| then ws[a] else 0 }

  function NodeWidth(ws: seq<nat>, node: DagNode): nat
  {
    match node
    case Var(w) => w
    case Const(_, w) => w
    case Bin(_, a, _) => WidthAt(ws, a)
    case BvNot(a) => WidthAt(ws, a)
    case Neg(a) => WidthAt(ws, a)
    case Extract(hi, lo, _) => if lo <= hi then hi - lo + 1 else 0
    case Concat(a, b) => WidthAt(ws, a) + WidthAt(ws, b)
    case ZeroExt(a, extra) => WidthAt(ws, a) + extra
    case SignExt(a, extra) => WidthAt(ws, a) + extra
    case Ite(_, t, _) => WidthAt(ws, t)
    case Cmp(_, _, _) => 1
    case Not(_) => 1
    case BoolAnd(_, _) => 1
    case BoolOr(_, _) => 1
  }

  /** The widths of the first n nodes. */
  function Widths(ns: Dag, n: nat): (ws: seq<nat>)
    requires n <= |ns|
    ensures |ws| == n
  {
    if n == 0 then [] else Widths(ns, n - 1) + [NodeWidth(Widths(ns, n - 1), ns[n - 1])]
  }

  /** Node i is well-formed after the nodes before it. */
  predicate WfAt(ns: Dag, nbits: nat, i: nat)
    requires i < |ns|
  {
    NodeWf(Widths(ns, i), nbits, ns[i])
  }

  predicate DagWf(ns: Dag, nbits: nat) { forall i :: 0 <= i < |ns| ==> WfAt(ns, nbits, i) }

  lemma {:induction false} WidthsPrefix(ns: Dag, i: nat, n: nat)
    requires i <= n <= |ns|
    ensures Widths(ns, n)[..i] == Widths(ns, i)
    decreases n
  {
    if i < n { WidthsPrefix(ns, i, n - 1); }
  }

  lemma WidthOf(ns: Dag, i: nat)
    requires i < |ns|
    ensures Widths(ns, |ns|)[i] == NodeWidth(Widths(ns, i), ns[i])
  {
    WidthsPrefix(ns, i + 1, |ns|);
    assert Widths(ns, |ns|)[i] == Widths(ns, |ns|)[..i + 1][i];
  }

  lemma {:induction false} WidthsGrow(t: Dag, t': Dag, i: nat)
    requires t <= t' && i <= |t|
    ensures Widths(t', i) == Widths(t, i)
  {
    if i > 0 {
      WidthsGrow(t, t', i - 1);
      assert t'[i - 1] == t[i - 1];
    }
  }

  /** A node keeps its width. */
  lemma WidthStays(t: Dag, t': Dag, d: nat)
    requires t <= t' && d < |t|
    ensures Widths(t', |t'|)[d] == Widths(t, |t|)[d]
  {
    WidthsGrow(t, t', d + 1);
    WidthsPrefix(t, d + 1, |t|);
    WidthsPrefix(t', d + 1, |t'|);
    assert Widths(t, |t|)[d] == Widths(t, |t|)[..d + 1][d];
    assert Widths(t', |t'|)[d] == Widths(t', |t'|)[..d + 1][d];
  }

  /** One well-formed node more. */
  lemma PushWf(t: Dag, nbits: nat, nd: DagNode)
    requires DagWf(t, nbits) && NodeWf(Widths(t, |t|), nbits, nd)
    ensures DagWf(t + [nd], nbits)
    ensures Widths(t + [nd], |t| + 1) == Widths(t, |t|) + [NodeWidth(Widths(t, |t|), nd)]
  {
    hide NodeWf, NodeWidth;
    var t' := t + [nd];
    WidthsGrow(t, t', |t|);
    forall i | 0 <= i < |t'| ensures WfAt(t', nbits, i) {
      if i < |t| {
        WidthsGrow(t, t', i);
        assert WfAt(t, nbits, i);
      }
    }
  }

  /** Every node against the widths before it; the first bad node is named. */
  method CheckWf(ns: Dag, nbits: nat) returns (r: Result<seq<nat>, QueryError>)
    ensures r.Ok? <==> DagWf(ns, nbits)
    ensures r.Ok? ==> r.value == Widths(ns, |ns|)
    ensures r.Err? ==> exists i :: 0 <= i < |ns| && !WfAt(ns, nbits, i) && r.error == NodeNotWellFormed(i) &&
                                   forall j :: 0 <= j < i ==> WfAt(ns, nbits, j)
  {
    var ws := [];
    for i := 0 to |ns|
      invariant ws == Widths(ns, i)
      invariant forall j :: 0 <= j < i ==> WfAt(ns, nbits, j)
    {
      if !NodeWf(ws, nbits, ns[i]) {
        assert !WfAt(ns, nbits, i);
        return Err(NodeNotWellFormed(i));
      }
      ws := ws + [NodeWidth(ws, ns[i])];
    }
    return Ok(ws);
  }

  predicate RootWf(ws: seq<nat>, root: nat) { root < |ws| && ws[root] == 1 }

  method CheckRoots(ws: seq<nat>, roots: seq<nat>) returns (r: Result<Unit, QueryError>)
    ensures r.Ok? <==> forall k :: 0 <= k < |roots| ==> RootWf(ws, roots[k])
    ensures r.Err? ==> exists k :: 0 <= k < |roots| && !RootWf(ws, roots[k]) && r.error == BadRoot(k) &&
                                   forall j :: 0 <= j < k ==> RootWf(ws, roots[j])
  {
    for k := 0 to |roots|
      invariant forall j :: 0 <= j < k ==> RootWf(ws, roots[j])
    {
      var root := roots[k];
      if root >= |ws| || ws[root] != 1 { return Err(BadRoot(k)); }
    }
    return Ok(Unit);
  }

  method MaxWidth(ws: seq<nat>) returns (m: nat)
    ensures forall i :: 0 <= i < |ws| ==> ws[i] <= m
    ensures m == 0 || m in ws
  {
    m := 0;
    for i := 0 to |ws|
      invariant forall k :: 0 <= k < i ==> ws[k] <= m
      invariant m == 0 || m in ws
    {
      if ws[i] > m { m := ws[i]; }
    }
  }

  // ---------- semantics ----------

  function At(vs: seq<Bv>, a: nat): Bv { if a < |vs| then vs[a] else [] }

  /** The truth value of a boolean node's word. */
  predicate Truth(v: Bv) { |v| > 0 && v[0] }

  function BitsAt(bits: seq<bool>, s: nat, w: nat): Bv { if s + w <= |bits| then bits[s..s + w] else [] }

  /** The value of a node, given the values before it; own is the value of a
      variable node. */
  function NodeVal(node: DagNode, bits: seq<bool>, vs: seq<Bv>, own: Bv): Bv
  {
    match node
    case Var(_) => own
    case Const(s, w) => BitsAt(bits, s, w)
    case Bin(op, a, b) => BinValue(op, At(vs, a), At(vs, b))
    case BvNot(a) => Complement(At(vs, a))
    case Neg(a) => BvNeg(At(vs, a))
    case Extract(hi, lo, a) => BvExtract(At(vs, a), hi, lo)
    case Concat(a, b) => BvConcat(At(vs, a), At(vs, b))
    case ZeroExt(a, extra) => BvZeroExt(At(vs, a), extra)
    case SignExt(a, extra) => BvSignExt(At(vs, a), extra)
    case Ite(c, t, e) => if Truth(At(vs, c)) then At(vs, t) else At(vs, e)
    case Cmp(op, a, b) => [CmpValue(op, At(vs, a), At(vs, b))]
    case Not(a) => [!Truth(At(vs, a))]
    case BoolAnd(a, b) => [Truth(At(vs, a)) && Truth(At(vs, b))]
    case BoolOr(a, b) => [Truth(At(vs, a)) || Truth(At(vs, b))]
  }

  /** An assignment gives every node index a word; only variables' are read. */
  type Env = seq<Bv>

  /** The values of the first n nodes. */
  function DagVals(ns: Dag, bits: seq<bool>, env: Env, n: nat): (vs: seq<Bv>)
    requires n <= |ns|
    ensures |vs| == n
  {
    if n == 0 then [] else
    var vs := DagVals(ns, bits, env, n - 1);
    vs + [NodeVal(ns[n - 1], bits, vs, At(env, n - 1))]
  }

  /** The value of node i. */
  function DagVal(ns: Dag, bits: seq<bool>, env: Env, i: nat): Bv
    requires i < |ns|
  {
    DagVals(ns, bits, env, i + 1)[i]
  }

  lemma {:induction false} DagValsPrefix(ns: Dag, bits: seq<bool>, env: Env, i: nat, n: nat)
    requires i <= n <= |ns|
    ensures DagVals(ns, bits, env, n)[..i] == DagVals(ns, bits, env, i)
    decreases n
  {
    if i < n { DagValsPrefix(ns, bits, env, i, n - 1); }
  }

  lemma DagValAt(ns: Dag, bits: seq<bool>, env: Env, i: nat, n: nat)
    requires i < n <= |ns|
    ensures DagVals(ns, bits, env, n)[i] == DagVal(ns, bits, env, i)
    ensures DagVal(ns, bits, env, i) == NodeVal(ns[i], bits, DagVals(ns, bits, env, i), At(env, i))
  {
    hide NodeVal;
    DagValsPrefix(ns, bits, env, i + 1, n);
    assert DagVals(ns, bits, env, n)[i] == DagVals(ns, bits, env, n)[..i + 1][i];
  }

  /** The assignment gives every variable a word of its width. */
  ghost predicate EnvOk(ns: Dag, env: Env)
  {
    |env| == |ns| && forall i :: 0 <= i < |ns| && ns[i].Var? ==> |env[i]| == ns[i].w
  }

  lemma {:induction false} ValWidths(ns: Dag, bits: seq<bool>, env: Env, n: nat)
    requires DagWf(ns, |bits|) && EnvOk(ns, env) && n <= |ns|
    ensures forall i :: 0 <= i < n ==> |DagVals(ns, bits, env, n)[i]| == Widths(ns, n)[i] > 0
  {
    if n > 0 {
      ValWidths(ns, bits, env, n - 1);
      assert WfAt(ns, |bits|, n - 1);
    }
  }

  lemma ValWidth(ns: Dag, bits: seq<bool>, env: Env, i: nat)
    requires DagWf(ns, |bits|) && EnvOk(ns, env) && i < |ns|
    ensures |DagVal(ns, bits, env, i)| == Widths(ns, |ns|)[i] > 0
  {
    ValWidths(ns, bits, env, |ns|);
    DagValAt(ns, bits, env, i, |ns|);
  }

  /** Every root evaluates to true. */
  ghost predicate RootsTrue(ns: Dag, bits: seq<bool>, env: Env, roots: seq<nat>)
    requires forall k :: 0 <= k < |roots| ==> roots[k] < |ns|
  {
    forall k :: 0 <= k < |roots| ==> Truth(DagVal(ns, bits, env, roots[k]))
  }

  /** The query: a well-formed DAG with boolean roots. */
  predicate QueryWf(ns: Dag, nbits: nat, roots: seq<nat>)
  {
    DagWf(ns, nbits) && forall k :: 0 <= k < |roots| ==> RootWf(Widths(ns, |ns|), roots[k])
  }

  ghost predicate DagSat(ns: Dag, bits: seq<bool>, roots: seq<nat>)
    requires forall k :: 0 <= k < |roots| ==> roots[k] < |ns|
  {
    exists env: Env :: EnvOk(ns, env) && RootsTrue(ns, bits, env, roots)
  }

  // ---------- primary inputs ----------

  /** The primary inputs taken by the variables among the first n nodes. */
  function Offset(ns: Dag, n: nat): nat
    requires n <= |ns|
  {
    if n == 0 then 0 else Offset(ns, n - 1) + if ns[n - 1].Var? then ns[n - 1].w else 0
  }

  function InputBits(inp: seq<bool>, first: nat, w: nat): (x: Bv)
    ensures |x| == w
  {
    seq(w, j requires 0 <= j < w => AigGraph.InputBit(inp, first + j))
  }

  /** The assignment an input list gives: variable bits in node order, each
      variable least significant bit first. */
  function EnvOf(ns: Dag, inp: seq<bool>): (env: Env)
    ensures |env| == |ns| && EnvOk(ns, env)
  {
    seq(|ns|, i requires 0 <= i < |ns| => if ns[i].Var? then InputBits(inp, Offset(ns, i), ns[i].w) else [])
  }

  /** The input list of an assignment. */
  function InputsOfEnv(ns: Dag, env: Env, n: nat): (inp: seq<bool>)
    requires n <= |ns| && EnvOk(ns, env)
    ensures |inp| == Offset(ns, n)
  {
    if n == 0 then [] else InputsOfEnv(ns, env, n - 1) + if ns[n - 1].Var? then env[n - 1] else []
  }

  lemma {:induction false} InputsOfEnvPrefix(ns: Dag, env: Env, i: nat, n: nat)
    requires i <= n <= |ns| && EnvOk(ns, env)
    ensures Offset(ns, i) <= Offset(ns, n)
    ensures InputsOfEnv(ns, env, n)[..Offset(ns, i)] == InputsOfEnv(ns, env, i)
    decreases n
  {
    if i < n { InputsOfEnvPrefix(ns, env, i, n - 1); }
  }

  /** Every well-typed assignment is read off some input list. */
  lemma EnvRoundTrip(ns: Dag, env: Env, i: nat)
    requires EnvOk(ns, env) && i < |ns| && ns[i].Var?
    ensures EnvOf(ns, InputsOfEnv(ns, env, |ns|))[i] == env[i]
  {
    var inp := InputsOfEnv(ns, env, |ns|);
    InputsOfEnvPrefix(ns, env, i + 1, |ns|);
    forall j | 0 <= j < ns[i].w ensures AigGraph.InputBit(inp, Offset(ns, i) + j) == env[i][j] {
      assert inp[Offset(ns, i) + j] == inp[..Offset(ns, i + 1)][Offset(ns, i) + j];
    }
  }

  /** Assignments that agree on the variables give every node one value. */
  lemma {:induction false} EnvAgree(ns: Dag, bits: seq<bool>, env: Env, env': Env, n: nat)
    requires n <= |ns| && |env| == |env'| == |ns|
    requires forall i :: 0 <= i < n && ns[i].Var? ==> env[i] == env'[i]
    ensures DagVals(ns, bits, env, n) == DagVals(ns, bits, env', n)
  {
    if n > 0 { EnvAgree(ns, bits, env, env', n - 1); }
  }

  /** Satisfiability by assignments and by input lists is the same. */
  lemma SatByInputs(ns: Dag, bits: seq<bool>, roots: seq<nat>)
    requires forall k :: 0 <= k < |roots| ==> roots[k] < |ns|
    ensures DagSat(ns, bits, roots) <==> exists inp :: RootsTrue(ns, bits, EnvOf(ns, inp), roots)
  {
    if DagSat(ns, bits, roots) {
      var env: Env :| EnvOk(ns, env) && RootsTrue(ns, bits, env, roots);
      var inp := InputsOfEnv(ns, env, |ns|);
      var env' := EnvOf(ns, inp);
      forall i | 0 <= i < |ns| && ns[i].Var? ensures env[i] == env'[i] { EnvRoundTrip(ns, env, i); }
      EnvAgree(ns, bits, env, env', |ns|);
      forall k | 0 <= k < |roots| ensures Truth(DagVal(ns, bits, env', roots[k])) {
        DagValAt(ns, bits, env, roots[k], |ns|);
        DagValAt(ns, bits, env', roots[k], |ns|);
        assert Truth(DagVal(ns, bits, env, roots[k]));
      }
      assert RootsTrue(ns, bits, env', roots);
    }
  }
}
