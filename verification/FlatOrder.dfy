/** In which order a flattening lists its operators. */
module FlatOrder {
  import opened BvOps
  import opened Dag
  import opened Sliver
  import opened Tree
  import opened FlatState
  import opened FlatList

  // ---------- operators without their operands ----------

  /** An operator with its parameters and every index zero; leaves have none. */
  function Shape(node: ExtNode): seq<ExtNode>
  {
    match node
    case Select(_, _, _, n) => [Select(0, 0, 0, n)]
    case Call(_, w, _, n) => [Call(0, w, 0, n)]
    case Core(nd) =>
      match nd
      case Var(_) => []
      case Const(_, _) => []
      case Bin(op, _, _) => [Core(Bin(op, 0, 0))]
      case BvNot(_) => [Core(BvNot(0))]
      case Neg(_) => [Core(Neg(0))]
      case Extract(hi, lo, _) => [Core(Extract(hi, lo, 0))]
      case Concat(_, _) => [Core(Concat(0, 0))]
      case ZeroExt(_, extra) => [Core(ZeroExt(0, extra))]
      case SignExt(_, extra) => [Core(SignExt(0, extra))]
      case Ite(_, _, _) => [Core(Ite(0, 0, 0))]
      case Cmp(op, _, _) => [Core(Cmp(op, 0, 0))]
      case Not(_) => [Core(Not(0))]
      case BoolAnd(_, _) => [Core(BoolAnd(0, 0))]
      case BoolOr(_, _) => [Core(BoolOr(0, 0))]
  }

  function Shapes(nodes: seq<ExtNode>): seq<ExtNode>
  {
    if nodes == [] then [] else Shapes(nodes[..|nodes| - 1]) + Shape(nodes[|nodes| - 1])
  }

  lemma ShapesSnoc(nodes: seq<ExtNode>, node: ExtNode)
    ensures Shapes(nodes + [node]) == Shapes(nodes) + Shape(node)
  {
    assert (nodes + [node])[..|nodes|] == nodes;
  }

  // ---------- post-order ----------

  /** The operators of a tree, operands from left to right before their
      operator; a select's index before its stores, outermost first. */
  function Post(t: TBv): seq<ExtNode>
    decreases Size(t), 0
  {
    match t
    case TConst(_, _) => []
    case TVar(_, _) => []
    case TBin(op, a, b) => Post(a) + Post(b) + [Core(Bin(op, 0, 0))]
    case TConcat(a, b) => Post(a) + Post(b) + [Core(Concat(0, 0))]
    case TIte(c, a, b) => PostBool(c) + (Post(a) + Post(b)) + [Core(Ite(0, 0, 0))]
    case TSelect(arr, index) => Post(index) + PostArray(arr) + [Select(0, 0, 0, Depth(arr))]
    case TCall(_, w, args) => PostArgs(args) + [Call(0, w, 0, Arity(args))]
    case _ => Post(t.a) + [Core(UnaryNode(t, 0))]
  }

  function PostArray(a: TArray): seq<ExtNode>
    decreases ArraySize(a), 1
  {
    match a
    case TBase(_) => []
    case TStore(arr, index, value) => Post(index) + Post(value) + PostArray(arr)
  }

  function PostArgs(args: TArgs): seq<ExtNode>
    decreases ArgsSize(args), 1
  {
    match args
    case TNil => []
    case TCons(head, tail) => Post(head) + PostArgs(tail)
  }

  function PostBool(t: TBool): seq<ExtNode>
    decreases BoolSize(t), 0
  {
    match t
    case BCmp(op, a, b) => Post(a) + Post(b) + [Core(Cmp(op, 0, 0))]
    case BNot(x) => PostBool(x) + [Core(Not(0))]
    case BAnd(x, y) => PostBool(x) + PostBool(y) + [Core(BoolAnd(0, 0))]
    case BOr(x, y) => PostBool(x) + PostBool(y) + [Core(BoolOr(0, 0))]
  }

  function PostAll(ts: seq<TBool>): seq<ExtNode>
  {
    if ts == [] then [] else PostAll(ts[..|ts| - 1]) + PostBool(ts[|ts| - 1])
  }

  function Depth(a: TArray): nat
  {
    match a
    case TBase(_) => 0
    case TStore(arr, _, _) => 1 + Depth(arr)
  }

  function Arity(args: TArgs): nat
  {
    match args
    case TNil => 0
    case TCons(_, tail) => 1 + Arity(tail)
  }

  // ---------- the list is in post-order ----------

  /** From one state to a later one exactly these operators were listed. */
  predicate Lists(st: St, st': St, items: seq<ExtNode>) { Shapes(st'.nodes) == Shapes(st.nodes) + items }

  lemma ListsThen(a: St, b: St, c: St, xs: seq<ExtNode>, ys: seq<ExtNode>)
    requires Lists(a, b, xs) && Lists(b, c, ys)
    ensures Lists(a, c, xs + ys)
  {
    hide Shapes;
    assert Shapes(a.nodes) + xs + ys == Shapes(a.nodes) + (xs + ys);
  }

  lemma ListsNone(a: St, b: St)
    requires a.nodes == b.nodes
    ensures Lists(a, b, [])
  {
  }

  /** One node on top of a state. */
  lemma ListsNode(a: St, b: St, c: St, xs: seq<ExtNode>, node: ExtNode)
    requires Lists(a, b, xs) && c.nodes == b.nodes + [node]
    ensures Lists(a, c, xs + Shape(node))
  {
    hide Shape, Shapes;
    ShapesSnoc(b.nodes, node);
    assert Lists(b, c, Shape(node));
    ListsThen(a, b, c, xs, Shape(node));
  }

  lemma ListsLeaf(a: St, b: St, node: ExtNode)
    requires b.nodes == a.nodes || b.nodes == a.nodes + [node]
    requires Shape(node) == []
    ensures Lists(a, b, [])
  {
    ListsNone(a, a);
    if b.nodes != a.nodes { ListsNode(a, a, b, [], node); } else { ListsNone(a, b); }
  }

  lemma ListsConst(st: St, value: nat, w: nat)
    ensures Lists(st, PutConst(st, value, w).0, [])
  {
    ListsLeaf(st, PutConst(st, value, w).0, Core(Const(|st.bits|, w)));
  }

  lemma ListsVar(st: St, name: Name, w: nat)
    ensures Lists(st, PutVar(st, name, w).0, [])
  {
    ListsLeaf(st, PutVar(st, name, w).0, Core(Var(w)));
  }

  lemma UnaryShape(t: TBv, x: nat)
    requires Unary(t)
    ensures Shape(Core(UnaryNode(t, x))) == [Core(UnaryNode(t, 0))]
  {
  }

  lemma {:induction false} BvOrder(st: St, t: TBv)
    ensures Lists(st, PutBv(false, st, t).0, Post(t))
    decreases Size(t), 0
  {
    hide Lists, PutPair, PutArray, PutArgs, PutBool, PutFunName, Shape;
    var r := PutBv(false, st, t);
    match t {
      case TConst(value, w) => ListsConst(st, value, w);
      case TVar(name, w) => ListsVar(st, name, w);
      case TBin(op, a, b) =>
        PairOrder(st, a, b);
        var (s, x, y) := PutPair(false, st, a, b);
        ListsNode(st, s, r.0, Post(a) + Post(b), Core(Bin(op, x, y)));
        TwoShapes(op, x, y);
      case TConcat(a, b) =>
        PairOrder(st, a, b);
        var (s, x, y) := PutPair(false, st, a, b);
        ListsNode(st, s, r.0, Post(a) + Post(b), Core(Concat(x, y)));
        TwoShapes(Add, x, y);
      case TIte(c, a, b) =>
        BoolOrder(st, c);
        var (s, x) := PutBool(false, st, c);
        PairOrder(s, a, b);
        var (s', y, z) := PutPair(false, s, a, b);
        ListsThen(st, s, s', PostBool(c), Post(a) + Post(b));
        ListsNode(st, s', r.0, PostBool(c) + (Post(a) + Post(b)), Core(Ite(x, y, z)));
        IteShape(x, y, z);
      case TSelect(arr, index) =>
        BvOrder(st, index);
        var (s, x) := PutBv(false, st, index);
        ArrayOrder(s, arr, []);
        var (s', aid, levels) := PutArray(false, s, arr, []);
        ListsThen(st, s, s', Post(index), PostArray(arr));
        ListsNode(st, s', r.0, Post(index) + PostArray(arr), Select(aid, x, |s'.side|, |levels| / 2));
        SelectShape(aid, x, |s'.side|, |levels| / 2);
      case TCall(name, w, args) =>
        ArgsOrder(st, args, []);
        var (s, ids) := PutArgs(false, st, args, []);
        var (s', fid) := PutFunName(s, name, w);
        FunNameNodes(s, name, w);
        ListsNone(s, s');
        ListsThen(st, s, s', PostArgs(args), []);
        ListsNode(st, s', r.0, PostArgs(args) + [], Call(fid, w, |s'.side|, |ids|));
        CallShape(fid, w, |s'.side|, |ids|);
        assert PostArgs(args) + [] == PostArgs(args);
      case _ =>
        BvOrder(st, t.a);
        var (s, x) := PutBv(false, st, t.a);
        ListsNode(st, s, r.0, Post(t.a), Core(UnaryNode(t, x)));
        UnaryShape(t, x);
    }
  }

  lemma TwoShapes(op: BinOp, x: nat, y: nat)
    ensures Shape(Core(Bin(op, x, y))) == [Core(Bin(op, 0, 0))] && Shape(Core(Concat(x, y))) == [Core(Concat(0, 0))]
  {
  }

  lemma IteShape(x: nat, y: nat, z: nat)
    ensures Shape(Core(Ite(x, y, z))) == [Core(Ite(0, 0, 0))]
  {
  }

  lemma SelectShape(aid: nat, j: nat, s: nat, n: nat)
    ensures Shape(Select(aid, j, s, n)) == [Select(0, 0, 0, n)]
  {
  }

  lemma CallShape(fid: nat, w: nat, s: nat, n: nat)
    ensures Shape(Call(fid, w, s, n)) == [Call(0, w, 0, n)]
  {
  }

  lemma BoolShapes(op: CmpOp, x: nat, y: nat)
    ensures Shape(Core(Cmp(op, x, y))) == [Core(Cmp(op, 0, 0))] && Shape(Core(Not(x))) == [Core(Not(0))]
    ensures Shape(Core(BoolAnd(x, y))) == [Core(BoolAnd(0, 0))] && Shape(Core(BoolOr(x, y))) == [Core(BoolOr(0, 0))]
  {
  }

  lemma FunNameNodes(st: St, name: Name, w: nat)
    ensures PutFunName(st, name, w).0.nodes == st.nodes
  {
  }

  lemma {:induction false} PairOrder(st: St, a: TBv, b: TBv)
    ensures Lists(st, PutPair(false, st, a, b).0, Post(a) + Post(b))
    decreases Size(a) + Size(b), 1
  {
    hide Lists, PutBv;
    BvOrder(st, a);
    var s := PutBv(false, st, a).0;
    BvOrder(s, b);
    ListsThen(st, s, PutBv(false, s, b).0, Post(a), Post(b));
  }

  lemma {:induction false} ArrayOrder(st: St, a: TArray, levels: seq<nat>)
    ensures Lists(st, PutArray(false, st, a, levels).0, PostArray(a))
    ensures |PutArray(false, st, a, levels).2| == |levels| + 2 * Depth(a)
    decreases ArraySize(a), 1
  {
    hide Lists, PutPair;
    match a {
      case TBase(name) => ListsNone(st, PutArrayName(st, name).0);
      case TStore(arr, index, value) =>
        PairOrder(st, index, value);
        var (s, x, y) := PutPair(false, st, index, value);
        ArrayOrder(s, arr, levels + [x] + [y]);
        ListsThen(st, s, PutArray(false, s, arr, levels + [x] + [y]).0, Post(index) + Post(value), PostArray(arr));
    }
  }

  lemma {:induction false} ArgsOrder(st: St, args: TArgs, ids: seq<nat>)
    ensures Lists(st, PutArgs(false, st, args, ids).0, PostArgs(args))
    ensures |PutArgs(false, st, args, ids).1| == |ids| + Arity(args)
    decreases ArgsSize(args), 1
  {
    hide Lists, PutBv;
    match args {
      case TNil => ListsNone(st, st);
      case TCons(head, tail) =>
        BvOrder(st, head);
        var (s, x) := PutBv(false, st, head);
        ArgsOrder(s, tail, ids + [x]);
        ListsThen(st, s, PutArgs(false, s, tail, ids + [x]).0, Post(head), PostArgs(tail));
    }
  }

  lemma {:induction false} BoolOrder(st: St, t: TBool)
    ensures Lists(st, PutBool(false, st, t).0, PostBool(t))
    decreases BoolSize(t), 0
  {
    hide Lists, PutPair, Shape;
    var r := PutBool(false, st, t);
    match t {
      case BCmp(op, a, b) =>
        PairOrder(st, a, b);
        var (s, x, y) := PutPair(false, st, a, b);
        ListsNode(st, s, r.0, Post(a) + Post(b), Core(Cmp(op, x, y)));
        BoolShapes(op, x, y);
      case BNot(x) =>
        BoolOrder(st, x);
        var (s, y) := PutBool(false, st, x);
        ListsNode(st, s, r.0, PostBool(x), Core(Not(y)));
        BoolShapes(Eq, y, 0);
      case BAnd(x, y) =>
        var s, p, s', q := BothOrder(st, x, y);
        ListsNode(st, s', r.0, PostBool(x) + PostBool(y), Core(BoolAnd(p, q)));
        BoolShapes(Eq, p, q);
      case BOr(x, y) =>
        var s, p, s', q := BothOrder(st, x, y);
        ListsNode(st, s', r.0, PostBool(x) + PostBool(y), Core(BoolOr(p, q)));
        BoolShapes(Eq, p, q);
    }
  }

  lemma {:induction false} BothOrder(st: St, x: TBool, y: TBool) returns (s: St, p: nat, s': St, q: nat)
    ensures (s, p) == PutBool(false, st, x) && (s', q) == PutBool(false, s, y)
    ensures Lists(st, s', PostBool(x) + PostBool(y))
    decreases BoolSize(x) + BoolSize(y), 1
  {
    hide Lists;
    BoolOrder(st, x);
    s, p := PutBool(false, st, x).0, PutBool(false, st, x).1;
    BoolOrder(s, y);
    s', q := PutBool(false, s, y).0, PutBool(false, s, y).1;
    ListsThen(st, s, s', PostBool(x), PostBool(y));
  }

  /** THE ORDER OF A FLATTENING: without its constants and variables the list is
      the trees' operators in post-order, one node for each occurrence. */
  lemma {:induction false} FlatInOrder(ts: seq<TBool>)
    ensures Shapes(PutAll(false, ts).0.nodes) == PostAll(ts)
  {
    hide PutBool, PostBool;
    if ts != [] {
      var init, last := ts[..|ts| - 1], ts[|ts| - 1];
      FlatInOrder(init);
      BoolOrder(PutAll(false, init).0, last);
    }
  }
}
