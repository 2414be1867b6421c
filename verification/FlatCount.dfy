/** How many nodes a flattening has. */
module FlatCount {
  import opened Tree
  import opened FlatState
  import opened FlatLeaves
  import opened FlatList
  import Flatten

  // ---------- what the trees hold ----------

  /** Every occurrence of an operator, a read or a call. */
  function Ops(t: TBv): nat
    decreases Size(t), 0
  {
    match t
    case TConst(_, _) => 0
    case TVar(_, _) => 0
    case TBin(_, a, b) => 1 + Ops(a) + Ops(b)
    case TConcat(a, b) => 1 + Ops(a) + Ops(b)
    case TIte(c, a, b) => 1 + BoolOps(c) + Ops(a) + Ops(b)
    case TSelect(arr, index) => 1 + Ops(index) + ArrayOps(arr)
    case TCall(_, _, args) => 1 + ArgsOps(args)
    case _ => 1 + Ops(t.a)
  }

  function ArrayOps(a: TArray): nat
    decreases ArraySize(a), 1
  {
    match a
    case TBase(_) => 0
    case TStore(arr, index, value) => Ops(index) + Ops(value) + ArrayOps(arr)
  }

  function ArgsOps(args: TArgs): nat
    decreases ArgsSize(args), 1
  {
    match args
    case TNil => 0
    case TCons(head, tail) => Ops(head) + ArgsOps(tail)
  }

  function BoolOps(t: TBool): nat
    decreases BoolSize(t), 0
  {
    match t
    case BCmp(_, a, b) => 1 + Ops(a) + Ops(b)
    case BNot(x) => 1 + BoolOps(x)
    case BAnd(x, y) => 1 + BoolOps(x) + BoolOps(y)
    case BOr(x, y) => 1 + BoolOps(x) + BoolOps(y)
  }

  /** The constants, by value and width. */
  function Consts(t: TBv): set<(nat, nat)>
    decreases Size(t), 0
  {
    match t
    case TConst(value, w) => {(value, w)}
    case TVar(_, _) => {}
    case TBin(_, a, b) => Consts(a) + Consts(b)
    case TConcat(a, b) => Consts(a) + Consts(b)
    case TIte(c, a, b) => BoolConsts(c) + (Consts(a) + Consts(b))
    case TSelect(arr, index) => Consts(index) + ArrayConsts(arr)
    case TCall(_, _, args) => ArgsConsts(args)
    case _ => Consts(t.a)
  }

  function ArrayConsts(a: TArray): set<(nat, nat)>
    decreases ArraySize(a), 1
  {
    match a
    case TBase(_) => {}
    case TStore(arr, index, value) => (Consts(index) + Consts(value)) + ArrayConsts(arr)
  }

  function ArgsConsts(args: TArgs): set<(nat, nat)>
    decreases ArgsSize(args), 1
  {
    match args
    case TNil => {}
    case TCons(head, tail) => Consts(head) + ArgsConsts(tail)
  }

  function BoolConsts(t: TBool): set<(nat, nat)>
    decreases BoolSize(t), 0
  {
    match t
    case BCmp(_, a, b) => Consts(a) + Consts(b)
    case BNot(x) => BoolConsts(x)
    case BAnd(x, y) => BoolConsts(x) + BoolConsts(y)
    case BOr(x, y) => BoolConsts(x) + BoolConsts(y)
  }

  function AllOps(ts: seq<TBool>): nat { if ts == [] then 0 else AllOps(ts[..|ts| - 1]) + BoolOps(ts[|ts| - 1]) }

  function AllConsts(ts: seq<TBool>): set<(nat, nat)>
  {
    if ts == [] then {} else AllConsts(ts[..|ts| - 1]) + BoolConsts(ts[|ts| - 1])
  }

  // ---------- what a state holds ----------

  function Memo(st: St): set<(nat, nat)>
  {
    set k | 0 <= k < |st.constValue| && k < |st.constWidth| :: (st.constValue[k], st.constWidth[k])
  }

  /** The tables have one entry per constant, and no more nodes than the
      operators are left over. */
  ghost predicate Tallied(st: St, ops: nat)
  {
    && |st.constValue| == |st.constWidth| == |st.constNode| == |Memo(st)|
    && |st.nodes| == ops + |st.constNode| + |st.varNode|
  }

  /** From one state to a later one: the operators pushed and the constants
      seen in between. */
  ghost predicate Grows(st: St, st': St, ops: nat, consts: set<(nat, nat)>)
  {
    forall n: nat :: Tallied(st, n) ==> Tallied(st', n + ops) && Memo(st') == Memo(st) + consts
  }

  lemma GrowsThen(a: St, b: St, c: St, m: nat, n: nat, s: set<(nat, nat)>, s': set<(nat, nat)>)
    requires Grows(a, b, m, s) && Grows(b, c, n, s')
    ensures Grows(a, c, m + n, s + s')
  {
    hide Tallied, Memo;
    forall k: nat | Tallied(a, k) ensures Tallied(c, k + (m + n)) && Memo(c) == Memo(a) + (s + s') {
      assert Tallied(b, k + m);
      assert Tallied(c, k + m + n);
      assert Memo(a) + s + s' == Memo(a) + (s + s');
    }
  }

  /** More nodes alone. */
  lemma GrowsNode(a: St, b: St, more: nat)
    requires b.constValue == a.constValue && b.constWidth == a.constWidth && b.constNode == a.constNode
    requires b.varNode == a.varNode && |b.nodes| == |a.nodes| + more
    ensures Grows(a, b, more, {})
  {
    assert Memo(b) == Memo(a) == Memo(a) + {};
  }

  /** An operator after its operands. */
  lemma GrowsPush(a: St, b: St, c: St, ops: nat, consts: set<(nat, nat)>)
    requires Grows(a, b, ops, consts)
    requires c.constValue == b.constValue && c.constWidth == b.constWidth && c.constNode == b.constNode
    requires c.varNode == b.varNode && |c.nodes| == |b.nodes| + 1
    ensures Grows(a, c, 1 + ops, consts)
  {
    hide Tallied, Memo;
    GrowsNode(b, c, 1);
    GrowsThen(a, b, c, ops, 1, consts, {});
    assert consts + {} == consts;
  }

  lemma MemoSnoc(st: St, value: nat, w: nat)
    requires |st.constValue| == |st.constWidth|
    ensures Memo(WithConst(st, value, w)) == Memo(st) + {(value, w)}
  {
    var st' := WithConst(st, value, w);
    forall c | c in Memo(st') ensures c in Memo(st) + {(value, w)} {
      var k :| 0 <= k < |st'.constValue| && k < |st'.constWidth| && c == (st'.constValue[k], st'.constWidth[k]);
      if k < |st.constValue| { assert c == (st.constValue[k], st.constWidth[k]); }
    }
    forall c | c in Memo(st) + {(value, w)} ensures c in Memo(st') {
      if c in Memo(st) {
        var k :| 0 <= k < |st.constValue| && k < |st.constWidth| && c == (st.constValue[k], st.constWidth[k]);
        assert c == (st'.constValue[k], st'.constWidth[k]);
      } else {
        assert c == (st'.constValue[|st.constValue|], st'.constWidth[|st.constValue|]);
      }
    }
  }

  lemma PutConstGrows(st: St, value: nat, w: nat)
    ensures Grows(st, PutConst(st, value, w).0, 0, {(value, w)})
  {
    var st' := PutConst(st, value, w).0;
    forall n: nat | Tallied(st, n) ensures Tallied(st', n + 0) && Memo(st') == Memo(st) + {(value, w)} {
      if InMemo(st, value, w) {
        var k :| 0 <= k < |st.constValue| && k < |st.constWidth| && st.constValue[k] == value && st.constWidth[k] == w;
        assert (st.constValue[k], st.constWidth[k]) in Memo(st);
        assert Memo(st) == Memo(st) + {(value, w)};
      } else {
        MemoSnoc(st, value, w);
        assert (value, w) !in Memo(st);
      }
    }
  }

  lemma PutVarGrows(st: St, name: Name, w: nat)
    ensures Grows(st, PutVar(st, name, w).0, 0, {})
  {
    var st' := PutVar(st, name, w).0;
    assert Memo(st') == Memo(st) == Memo(st) + {};
  }

  lemma {:induction false} PutBvGrows(st: St, t: TBv)
    ensures Grows(st, PutBv(false, st, t).0, Ops(t), Consts(t))
    decreases Size(t), 0
  {
    hide Grows, PutPair, PutArray, PutArgs, PutBool, PutConst, PutVar, PutFunName;
    match t {
      case TConst(value, w) => PutConstGrows(st, value, w);
      case TVar(name, w) => PutVarGrows(st, name, w);
      case TBin(_, a, b) =>
        PutPairGrows(st, a, b);
        PutTwoGrows(st, t);
      case TConcat(a, b) =>
        PutPairGrows(st, a, b);
        PutTwoGrows(st, t);
      case TIte(c, a, b) =>
        PutBoolGrows(st, c);
        PutPairGrows(PutBool(false, st, c).0, a, b);
        PutIteGrows(st, t);
      case TSelect(arr, index) =>
        PutBvGrows(st, index);
        PutArrayGrows(PutBv(false, st, index).0, arr, []);
        PutSelectGrows(st, t);
      case TCall(name, w, args) =>
        PutArgsGrows(st, args, []);
        PutCallGrows(st, t);
      case _ =>
        PutBvGrows(st, t.a);
        PutOneGrows(st, t);
    }
  }

  lemma PutOneGrows(st: St, t: TBv)
    requires Unary(t) && Grows(st, PutBv(false, st, t.a).0, Ops(t.a), Consts(t.a))
    ensures Grows(st, PutBv(false, st, t).0, Ops(t), Consts(t))
  {
    hide Grows;
    GrowsPush(st, PutBv(false, st, t.a).0, PutBv(false, st, t).0, Ops(t.a), Consts(t));
  }

  lemma PutTwoGrows(st: St, t: TBv)
    requires (t.TBin? || t.TConcat?) && Grows(st, PutPair(false, st, t.a, t.b).0, Ops(t.a) + Ops(t.b), Consts(t.a) + Consts(t.b))
    ensures Grows(st, PutBv(false, st, t).0, Ops(t), Consts(t))
  {
    hide Grows, PutPair;
    GrowsPush(st, PutPair(false, st, t.a, t.b).0, PutBv(false, st, t).0, Ops(t.a) + Ops(t.b), Consts(t));
  }

  lemma PutIteGrows(st: St, t: TBv)
    requires t.TIte? && Grows(st, PutBool(false, st, t.c).0, BoolOps(t.c), BoolConsts(t.c))
    requires var s := PutBool(false, st, t.c).0; Grows(s, PutPair(false, s, t.a, t.b).0, Ops(t.a) + Ops(t.b), Consts(t.a) + Consts(t.b))
    ensures Grows(st, PutBv(false, st, t).0, Ops(t), Consts(t))
  {
    hide Grows, PutPair, PutBool;
    var s := PutBool(false, st, t.c).0;
    GrowsThen(st, s, PutPair(false, s, t.a, t.b).0, BoolOps(t.c), Ops(t.a) + Ops(t.b), BoolConsts(t.c), Consts(t.a) + Consts(t.b));
    GrowsPush(st, PutPair(false, s, t.a, t.b).0, PutBv(false, st, t).0, BoolOps(t.c) + (Ops(t.a) + Ops(t.b)), Consts(t));
  }

  lemma PutSelectGrows(st: St, t: TBv)
    requires t.TSelect? && Grows(st, PutBv(false, st, t.index).0, Ops(t.index), Consts(t.index))
    requires var s := PutBv(false, st, t.index).0; Grows(s, PutArray(false, s, t.arr, []).0, ArrayOps(t.arr), ArrayConsts(t.arr))
    ensures Grows(st, PutBv(false, st, t).0, Ops(t), Consts(t))
  {
    hide Grows, PutArray;
    var s := PutBv(false, st, t.index).0;
    GrowsThen(st, s, PutArray(false, s, t.arr, []).0, Ops(t.index), ArrayOps(t.arr), Consts(t.index), ArrayConsts(t.arr));
    GrowsPush(st, PutArray(false, s, t.arr, []).0, PutBv(false, st, t).0, Ops(t.index) + ArrayOps(t.arr), Consts(t));
  }

  lemma PutCallGrows(st: St, t: TBv)
    requires t.TCall? && Grows(st, PutArgs(false, st, t.args, []).0, ArgsOps(t.args), ArgsConsts(t.args))
    ensures Grows(st, PutBv(false, st, t).0, Ops(t), Consts(t))
  {
    hide Grows, PutArgs, PutFunName;
    var s := PutArgs(false, st, t.args, []).0;
    FunNameGrows(s, t.name, t.w);
    GrowsThen(st, s, PutFunName(s, t.name, t.w).0, ArgsOps(t.args), 0, ArgsConsts(t.args), {});
    assert ArgsConsts(t.args) + {} == ArgsConsts(t.args);
    GrowsPush(st, PutFunName(s, t.name, t.w).0, PutBv(false, st, t).0, ArgsOps(t.args), Consts(t));
  }

  lemma FunNameGrows(st: St, name: Name, w: nat)
    ensures Grows(st, PutFunName(st, name, w).0, 0, {})
  {
    GrowsNode(st, PutFunName(st, name, w).0, 0);
  }

  lemma {:induction false} PutPairGrows(st: St, a: TBv, b: TBv)
    ensures Grows(st, PutPair(false, st, a, b).0, Ops(a) + Ops(b), Consts(a) + Consts(b))
    decreases Size(a) + Size(b), 1
  {
    hide Grows, PutBv;
    PutBvGrows(st, a);
    var s := PutBv(false, st, a).0;
    PutBvGrows(s, b);
    GrowsThen(st, s, PutBv(false, s, b).0, Ops(a), Ops(b), Consts(a), Consts(b));
  }

  lemma {:induction false} PutArrayGrows(st: St, a: TArray, levels: seq<nat>)
    ensures Grows(st, PutArray(false, st, a, levels).0, ArrayOps(a), ArrayConsts(a))
    decreases ArraySize(a), 1
  {
    hide Grows, PutPair;
    match a {
      case TBase(name) => GrowsNode(st, PutArrayName(st, name).0, 0);
      case TStore(arr, index, value) =>
        PutPairGrows(st, index, value);
        var (s, x, y) := PutPair(false, st, index, value);
        PutArrayGrows(s, arr, levels + [x] + [y]);
        GrowsThen(st, s, PutArray(false, s, arr, levels + [x] + [y]).0, Ops(index) + Ops(value), ArrayOps(arr),
                  Consts(index) + Consts(value), ArrayConsts(arr));
    }
  }

  lemma {:induction false} PutArgsGrows(st: St, args: TArgs, ids: seq<nat>)
    ensures Grows(st, PutArgs(false, st, args, ids).0, ArgsOps(args), ArgsConsts(args))
    decreases ArgsSize(args), 1
  {
    hide Grows, PutBv;
    match args {
      case TNil => GrowsNode(st, st, 0);
      case TCons(head, tail) =>
        PutBvGrows(st, head);
        var (s, x) := PutBv(false, st, head);
        PutArgsGrows(s, tail, ids + [x]);
        GrowsThen(st, s, PutArgs(false, s, tail, ids + [x]).0, Ops(head), ArgsOps(tail), Consts(head), ArgsConsts(tail));
    }
  }

  lemma {:induction false} PutBoolGrows(st: St, t: TBool)
    ensures Grows(st, PutBool(false, st, t).0, BoolOps(t), BoolConsts(t))
    decreases BoolSize(t), 0
  {
    hide Grows, PutPair;
    match t {
      case BCmp(_, a, b) =>
        PutPairGrows(st, a, b);
        GrowsPush(st, PutPair(false, st, a, b).0, PutBool(false, st, t).0, Ops(a) + Ops(b), BoolConsts(t));
      case BNot(x) =>
        PutBoolGrows(st, x);
        GrowsPush(st, PutBool(false, st, x).0, PutBool(false, st, t).0, BoolOps(x), BoolConsts(t));
      case BAnd(x, y) => PutBothGrows(st, t, x, y);
      case BOr(x, y) => PutBothGrows(st, t, x, y);
    }
  }

  lemma {:induction false} PutBothGrows(st: St, t: TBool, x: TBool, y: TBool)
    requires t == BAnd(x, y) || t == BOr(x, y)
    ensures Grows(st, PutBool(false, st, t).0, BoolOps(t), BoolConsts(t))
    decreases BoolSize(x) + BoolSize(y), 1
  {
    hide Grows;
    PutBoolGrows(st, x);
    var s := PutBool(false, st, x).0;
    PutBoolGrows(s, y);
    GrowsThen(st, s, PutBool(false, s, y).0, BoolOps(x), BoolOps(y), BoolConsts(x), BoolConsts(y));
    GrowsPush(st, PutBool(false, s, y).0, PutBool(false, st, t).0, BoolOps(x) + BoolOps(y), BoolConsts(t));
  }

  lemma {:induction false} PutAllGrows(ts: seq<TBool>)
    ensures Grows(EMPTY, PutAll(false, ts).0, AllOps(ts), AllConsts(ts))
  {
    hide Grows, PutBool;
    if ts == [] {
      GrowsNode(EMPTY, EMPTY, 0);
    } else {
      var init, last := ts[..|ts| - 1], ts[|ts| - 1];
      PutAllGrows(init);
      PutBoolGrows(PutAll(false, init).0, last);
      GrowsThen(EMPTY, PutAll(false, init).0, PutAll(false, ts).0, AllOps(init), BoolOps(last), AllConsts(init), BoolConsts(last));
    }
  }

  // ---------- the count ----------

  lemma {:induction false} PairsCount(st: St, n: nat)
    requires TableOk(st.names) && n <= |st.varWidth| == |st.names.starts|
    ensures |set k | 0 <= k < n :: (NameOf(st.names, k), st.varWidth[k])| == n
  {
    hide NameOf, TableOk;
    var all := set k | 0 <= k < n :: (NameOf(st.names, k), st.varWidth[k]);
    if n > 0 {
      PairsCount(st, n - 1);
      var fewer := set k | 0 <= k < n - 1 :: (NameOf(st.names, k), st.varWidth[k]);
      var last := (NameOf(st.names, n - 1), st.varWidth[n - 1]);
      forall k: nat | k < n - 1 ensures (NameOf(st.names, k), st.varWidth[k]) != last {
        NamesApart(st, k, n - 1);
      }
      assert all == fewer + {last};
    } else {
      assert all == {};
    }
  }

  lemma NamesApart(st: St, j: nat, k: nat)
    requires TableOk(st.names) && j < k < |st.names.starts|
    ensures NameOf(st.names, j) != NameOf(st.names, k)
  {
  }

  /** THE NODE COUNT of a flattening: one node per operator occurrence, one per
      constant and one per variable name. */
  lemma FlatSize(ts: seq<TBool>)
    requires Flatten.FlatOf(PutAll(false, ts).0, PutAll(false, ts).1, ts)
    ensures |PutAll(false, ts).0.nodes| == AllOps(ts) + |AllConsts(ts)| + |TreeUses(ts).vars|
  {
    hide PutAll, TableOk, NameOf;
    var st := PutAll(false, ts).0;
    Flatten.FlatTables(st, PutAll(false, ts).1, ts);
    PutAllGrows(ts);
    assert Memo(EMPTY) == {};
    assert Tallied(EMPTY, 0);
    assert Memo(EMPTY) + AllConsts(ts) == AllConsts(ts);
    PairsCount(st, |st.varWidth|);
    assert VarPairs(st) == TreeUses(ts).vars;
  }
}
