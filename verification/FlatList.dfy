/** The node list a walk over trees builds, position by position: operands
    before their operator, every constant and every name one node at its first
    occurrence, and every operator occurrence its own node, or when sharing the
    one it already has. */
module FlatList {
  import opened Dag
  import opened Sliver
  import opened Tree
  import opened FlatState
  import opened FlatLeaves

  const EMPTY: St :=
    St([], [], [], NameTable([], [], []), [], [], [], [], [], NameTable([], [], []), NameTable([], [], []), [])

  /** The constant is memoized. */
  predicate InMemo(st: St, value: nat, w: nat)
  {
    exists k :: 0 <= k < |st.constValue| && k < |st.constWidth| && st.constValue[k] == value && st.constWidth[k] == w
  }

  predicate Listed(tab: NameTable, name: Name) { exists k :: 0 <= k < |tab.starts| && NameOf(tab, k) == name }

  /** The first memo entry of a constant, from k on. */
  function MemoIndex(st: St, value: nat, w: nat, k: nat): (r: nat)
    ensures forall j: nat :: k <= j < r && j < |st.constValue| && j < |st.constWidth| ==>
                               !(st.constValue[j] == value && st.constWidth[j] == w)
    ensures k <= r
    decreases |st.constValue| - k
  {
    if k >= |st.constValue| || k >= |st.constWidth| || (st.constValue[k] == value && st.constWidth[k] == w) then k
    else MemoIndex(st, value, w, k + 1)
  }

  /** The first entry of a name, from k on. */
  function TableIndex(tab: NameTable, name: Name, k: nat): (r: nat)
    ensures forall j: nat :: k <= j < r && j < |tab.starts| ==> NameOf(tab, j) != name
    ensures k <= r
    decreases |tab.starts| - k
  {
    if k >= |tab.starts| || NameOf(tab, k) == name then k else TableIndex(tab, name, k + 1)
  }

  function AtOr(s: seq<nat>, k: nat): nat { if k < |s| then s[k] else 0 }

  // ---------- the one-operand operators ----------

  predicate Unary(t: TBv) { t.TExtract? || t.TZeroExt? || t.TSignExt? || t.TNot? || t.TNeg? }

  function UnaryNode(t: TBv, x: nat): DagNode
    requires Unary(t)
  {
    match t
    case TExtract(hi, lo, _) => Extract(hi, lo, x)
    case TZeroExt(extra, _) => ZeroExt(x, extra)
    case TSignExt(extra, _) => SignExt(x, extra)
    case TNot(_) => BvNot(x)
    case TNeg(_) => Neg(x)
  }

  // ---------- the list ----------

  /** The first node that is this operator, from k on. */
  function NodeIndex(st: St, nd: DagNode, k: nat): (r: nat)
    ensures k <= r && (r < |st.nodes| ==> st.nodes[r] == Core(nd))
    ensures forall j: nat :: k <= j < r && j < |st.nodes| ==> st.nodes[j] != Core(nd)
    decreases |st.nodes| - k
  {
    if k >= |st.nodes| || st.nodes[k] == Core(nd) then k else NodeIndex(st, nd, k + 1)
  }

  /** An operator: when sharing, the node it already has; else a new one. */
  function Push(share: bool, st: St, nd: DagNode): (St, nat)
  {
    if share && Core(nd) in st.nodes then (st, NodeIndex(st, nd, 0)) else (WithNode(st, Core(nd)), |st.nodes|)
  }

  function PutConst(st: St, value: nat, w: nat): (St, nat)
  {
    if InMemo(st, value, w) then (st, AtOr(st.constNode, MemoIndex(st, value, w, 0))) else (WithConst(st, value, w), |st.nodes|)
  }

  function PutVar(st: St, name: Name, w: nat): (St, nat)
  {
    if Listed(st.names, name) then (st, AtOr(st.varNode, TableIndex(st.names, name, 0)))
    else (WithVar(st, name, w), |st.nodes|)
  }

  function PutArrayName(st: St, name: Name): (St, nat)
  {
    if Listed(st.anames, name) then (st, TableIndex(st.anames, name, 0)) else (WithArray(st, name), |st.anames.starts|)
  }

  function PutFunName(st: St, name: Name, w: nat): (St, nat)
  {
    if Listed(st.fnames, name) then (st, TableIndex(st.fnames, name, 0)) else (WithFunc(st, name, w), |st.fnames.starts|)
  }

  /** The state after a tree, and the tree's node. */
  function PutBv(share: bool, st: St, t: TBv): (St, nat)
    decreases Size(t), 0
  {
    match t
    case TConst(value, w) => PutConst(st, value, w)
    case TVar(name, w) => PutVar(st, name, w)
    case TBin(op, a, b) => var (s, x, y) := PutPair(share, st, a, b); Push(share, s, Bin(op, x, y))
    case TConcat(a, b) => var (s, x, y) := PutPair(share, st, a, b); Push(share, s, Concat(x, y))
    case TIte(c, a, b) =>
      var (s, x) := PutBool(share, st, c);
      var (s', y, z) := PutPair(share, s, a, b);
      Push(share, s', Ite(x, y, z))
    case TSelect(arr, index) =>
      var (s, x) := PutBv(share, st, index);
      var (s', aid, levels) := PutArray(share, s, arr, []);
      (WithSelect(s', aid, x, levels), |s'.nodes|)
    case TCall(name, w, args) =>
      var (s, ids) := PutArgs(share, st, args, []);
      var (s', fid) := PutFunName(s, name, w);
      (WithCall(s', fid, w, ids), |s'.nodes|)
    case _ => var (s, x) := PutBv(share, st, t.a); Push(share, s, UnaryNode(t, x))
  }

  function PutPair(share: bool, st: St, a: TBv, b: TBv): (St, nat, nat)
    decreases Size(a) + Size(b), 1
  {
    assert Size(a) < Size(a) + Size(b) && Size(b) < Size(a) + Size(b);
    var (s, x) := PutBv(share, st, a);
    var (s', y) := PutBv(share, s, b);
    (s', x, y)
  }

  /** The state after an array, its base's id, and its levels' nodes after
      those before. */
  function PutArray(share: bool, st: St, a: TArray, levels: seq<nat>): (St, nat, seq<nat>)
    decreases ArraySize(a), 1
  {
    match a
    case TBase(name) => var (s, aid) := PutArrayName(st, name); (s, aid, levels)
    case TStore(arr, index, value) =>
      var (s, x, y) := PutPair(share, st, index, value);
      PutArray(share, s, arr, levels + [x] + [y])
  }

  function PutArgs(share: bool, st: St, args: TArgs, ids: seq<nat>): (St, seq<nat>)
    decreases ArgsSize(args), 1
  {
    match args
    case TNil => (st, ids)
    case TCons(head, tail) => var (s, x) := PutBv(share, st, head); PutArgs(share, s, tail, ids + [x])
  }

  function PutBool(share: bool, st: St, t: TBool): (St, nat)
    decreases BoolSize(t), 0
  {
    match t
    case BCmp(op, a, b) => var (s, x, y) := PutPair(share, st, a, b); Push(share, s, Cmp(op, x, y))
    case BNot(x) => var (s, y) := PutBool(share, st, x); Push(share, s, Not(y))
    case BAnd(x, y) =>
      var (s, p) := PutBool(share, st, x);
      var (s', q) := PutBool(share, s, y);
      Push(share, s', BoolAnd(p, q))
    case BOr(x, y) =>
      var (s, p) := PutBool(share, st, x);
      var (s', q) := PutBool(share, s, y);
      Push(share, s', BoolOr(p, q))
  }

  /** The state after the asserted trees, and their nodes. */
  function PutAll(share: bool, ts: seq<TBool>): (r: (St, seq<nat>))
    ensures |r.1| == |ts|
  {
    if ts == [] then (EMPTY, []) else
    var (s, roots) := PutAll(share, ts[..|ts| - 1]);
    var (s', root) := PutBool(share, s, ts[|ts| - 1]);
    (s', roots + [root])
  }
}
