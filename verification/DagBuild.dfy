/** The DAG builder: a left-to-right walk that shares variables by name and
    constants by value, and, when hash-consing, every repeated operator. */
module DagBuild {
  import opened Bits
  import opened BvOps
  import opened Dag
  import opened Sliver
  import opened SliverSound
  import opened Tree
  import opened FlatState
  import opened FlatLeaves
  import opened FlatList
  import Flatten
  import TreeSound
  import TS = TermSound

  // ---------- the order variables appear in ----------

  /** The variables in the order they were first seen. */
  function Order(st: St): seq<(Name, nat)>
  {
    seq(|st.varWidth|, k requires 0 <= k < |st.varWidth| => (NameOf(st.names, k), st.varWidth[k]))
  }

  predicate Seen(vars: seq<(Name, nat)>, name: Name) { exists k :: 0 <= k < |vars| && vars[k].0 == name }

  /** The variables after a term, left to right, new names appended. */
  function VarsAfter(vars: seq<(Name, nat)>, t: TBv): seq<(Name, nat)>
    decreases t
  {
    match t
    case TConst(_, _) => vars
    case TVar(name, w) => if Seen(vars, name) then vars else vars + [(name, w)]
    case TBin(_, a, b) => VarsAfter(VarsAfter(vars, a), b)
    case TExtract(_, _, a) => VarsAfter(vars, a)
    case TConcat(a, b) => VarsAfter(VarsAfter(vars, a), b)
    case TZeroExt(_, a) => VarsAfter(vars, a)
    case TSignExt(_, a) => VarsAfter(vars, a)
    case TIte(c, a, b) => VarsAfter(VarsAfter(VarsAfterBool(vars, c), a), b)
    case TNot(a) => VarsAfter(vars, a)
    case TNeg(a) => VarsAfter(vars, a)
    case TSelect(_, _) => vars
    case TCall(_, _, _) => vars
  }

  function VarsAfterBool(vars: seq<(Name, nat)>, t: TBool): seq<(Name, nat)>
    decreases t
  {
    match t
    case BCmp(_, a, b) => VarsAfter(VarsAfter(vars, a), b)
    case BNot(x) => VarsAfterBool(vars, x)
    case BAnd(x, y) => VarsAfterBool(VarsAfterBool(vars, x), y)
    case BOr(x, y) => VarsAfterBool(VarsAfterBool(vars, x), y)
  }

  function VarsAfterAll(vars: seq<(Name, nat)>, ts: seq<TBool>): seq<(Name, nat)>
  {
    if ts == [] then vars else VarsAfterBool(VarsAfterAll(vars, ts[..|ts| - 1]), ts[|ts| - 1])
  }

  // ---------- a node already built ----------

  lemma OperandsAgree(nd: DagNode, bits: seq<bool>, us: seq<Bv>, vs: seq<Bv>, own: Bv, own': Bv)
    requires !nd.Var? && forall a :: a in TS.Operands(nd) ==> At(us, a) == At(vs, a)
    ensures NodeVal(nd, bits, us, own) == NodeVal(nd, bits, vs, own')
  {
    hide BinValue, CmpValue, Complement, BvNeg, BvExtract, BvConcat, BvZeroExt, BvSignExt;
  }

  /** An earlier equal node has the value the node would have now. */
  lemma SharedValue(st: St, i: nat, nd: DagNode, mdl: Model, own: Bv)
    requires StOk(st) && i < |st.nodes| && st.nodes[i] == Core(nd) && !nd.Var?
    ensures ExtVal(Q(st), mdl, i) == NodeVal(nd, st.bits, ExtVals(Q(st), mdl, |st.nodes|), own)
    ensures NodeWidth(ExtWidths(st.nodes, |st.nodes|), nd) == StWidth(st, i)
  {
    hide VarsOk, MemosOk, Tidy, TableOk;
    var us, vs := ExtVals(Q(st), mdl, i), ExtVals(Q(st), mdl, |st.nodes|);
    assert ExtWfAt(st.nodes, |st.bits|, st.side, i) by { WfHere(st, i); }
    ExtValsPrefix(Q(st), mdl, i, |st.nodes|);
    forall a | a in TS.Operands(nd) ensures At(us, a) == At(vs, a) {
      TS.OperandsEarlier(ExtWidths(st.nodes, i), |st.bits|, nd, a);
      assert vs[a] == vs[..i][a];
    }
    OperandsAgree(nd, st.bits, us, vs, At(mdl.env, i), own);
    SharedWidth(st, i, nd);
  }

  lemma SharedWidth(st: St, i: nat, nd: DagNode)
    requires StOk(st) && i < |st.nodes| && st.nodes[i] == Core(nd)
    ensures NodeWidth(ExtWidths(st.nodes, |st.nodes|), nd) == StWidth(st, i)
  {
    hide VarsOk, MemosOk, Tidy, TableOk;
    var ws := ExtWidths(st.nodes, |st.nodes|);
    ExtWidthsPrefix(st.nodes, i, |st.nodes|);
    ExtWidthsPrefix(st.nodes, i + 1, |st.nodes|);
    assert ws[i] == ws[..i + 1][i];
    assert ExtWfAt(st.nodes, |st.bits|, st.side, i) by { WfHere(st, i); }
    forall a | a in TS.Operands(nd) ensures WidthAt(ExtWidths(st.nodes, i), a) == WidthAt(ws, a) {
      TS.OperandsEarlier(ExtWidths(st.nodes, i), |st.bits|, nd, a);
      assert ws[a] == ws[..i][a];
    }
  }

  /** So a node found in the memo means the tree it spells. */
  lemma SharedMeans(st: St, i: nat, nd: DagNode, t: TBv)
    requires StOk(st) && i < |st.nodes| && st.nodes[i] == Core(nd) && Sorted(t) && Spells(st, nd, t)
    ensures Means(st, i, t)
  {
    hide StOk, Matches, NodeVal, ExtVals, ExtVal, StWidth, Sorted, TreeWidth, NodeWidth, NodeWf;
    SpellsValue(st, nd, t);
    SortedWidth(t);
    forall I: Interp, mdl: Model | Matches(st, I, mdl) ensures ExtVal(Q(st), mdl, i) == TreeVal(t, I) {
      SharedValue(st, i, nd, mdl, []);
    }
    SharedWidth(st, i, nd);
  }

  lemma SharedMeansBool(st: St, i: nat, nd: DagNode, t: TBool)
    requires StOk(st) && i < |st.nodes| && st.nodes[i] == Core(nd) && SortedBool(t) && SpellsBool(st, nd, t)
    ensures MeansBool(st, i, t)
  {
    hide StOk, Matches, NodeVal, ExtVals, ExtVal, StWidth, SortedBool, NodeWidth, NodeWf;
    SpellsBoolValue(st, nd, t);
    forall I: Interp, mdl: Model | Matches(st, I, mdl) ensures ExtVal(Q(st), mdl, i) == [BoolVal(t, I)] {
      SharedValue(st, i, nd, mdl, []);
    }
    SharedWidth(st, i, nd);
  }

  // ---------- the builder ----------

  lemma FunctionalSub(s: set<(Name, nat)>, t: set<(Name, nat)>)
    requires s <= t && Functional(t)
    ensures Functional(s)
  {
  }

  /** The trees to build use every name at one width, which is the one it
      already has. */
  ghost predicate OneWidth(st: St, uses: Uses) { Functional(UsesIn(st).vars + uses.vars) }

  ghost predicate Built(a: St, b: St, i: nat, t: TBv)
  {
    Flatten.Step(a, b, UsesOf(t)) && Means(b, i, t) && Order(b) == VarsAfter(Order(a), t)
  }

  ghost predicate BuiltBool(a: St, b: St, i: nat, t: TBool)
  {
    Flatten.Step(a, b, BoolUses(t)) && MeansBool(b, i, t) && Order(b) == VarsAfterBool(Order(a), t)
  }

  predicate Operator(nd: DagNode) { !nd.Var? && !nd.Const? }

  /** The hash-consing key of an operator: its tag and three operands. */
  type Key = (nat, nat, nat, nat)

  function BinTag(op: BinOp): nat
  {
    match op
    case Add => 1 case Sub => 2 case Mul => 3 case Udiv => 4 case Urem => 5 case And => 6 case Or => 7 case Xor => 8
    case Shl => 9 case Lshr => 10 case Ashr => 11 case Rotr => 12 case Rotl => 33 case Sdiv => 34 case Srem => 35
  }

  function CmpTag(op: CmpOp): nat
  {
    match op
    case Eq => 18 case Ne => 19 case Ult => 20 case Ule => 21 case Ugt => 22
    case Uge => 23 case Slt => 24 case Sle => 25 case Sgt => 26 case Sge => 27
  }

  function KeyOf(nd: DagNode): Key
    requires Operator(nd)
  {
    match nd
    case Bin(op, a, b) => (BinTag(op), a, b, 0)
    case Extract(hi, lo, a) => (13, a, hi, lo)
    case Concat(a, b) => (14, a, b, 0)
    case ZeroExt(a, extra) => (15, a, extra, 0)
    case SignExt(a, extra) => (16, a, extra, 0)
    case Ite(c, t, e) => (17, c, t, e)
    case Cmp(op, a, b) => (CmpTag(op), a, b, 0)
    case Not(a) => (28, a, 0, 0)
    case BoolAnd(a, b) => (29, a, b, 0)
    case BoolOr(a, b) => (30, a, b, 0)
    case BvNot(a) => (31, a, 0, 0)
    case Neg(a) => (32, a, 0, 0)
  }

  /** NO TWO OPERATORS SHARE A KEY. */
  lemma KeyInjective(x: DagNode, y: DagNode)
    requires Operator(x) && Operator(y) && KeyOf(x) == KeyOf(y)
    ensures x == y
  {
  }

  /** Node list and ghost state hold the same nodes. */
  ghost predicate SameNodes(st: St, nodes: Dag)
  {
    |st.nodes| == |nodes| && forall i :: 0 <= i < |nodes| ==> st.nodes[i] == Core(nodes[i])
  }

  /** The memo names, for each key it knows, the operator with that key; when
      hash-consing it knows every operator, so none is repeated. */
  ghost predicate ShareOk(nodes: Dag, memo: map<Key, nat>, hashCons: bool)
  {
    && (forall key :: key in memo ==> KeyAt(nodes, memo[key], key))
    && (hashCons ==> forall i :: 0 <= i < |nodes| && Operator(nodes[i]) ==> KeyOf(nodes[i]) in memo && memo[KeyOf(nodes[i])] == i)
    && (!hashCons ==> memo == map[])
  }

  ghost predicate KeyAt(nodes: Dag, i: nat, key: Key) { i < |nodes| && Operator(nodes[i]) && KeyOf(nodes[i]) == key }

  ghost predicate ConstsOk(st: St, consts: map<(nat, nat), nat>)
  {
    forall key :: key in consts ==> Means(st, consts[key], TConst(key.0, key.1))
  }

  /** The index finds exactly the memoized constants, at their first entry. */
  ghost predicate ConstsListed(st: St, consts: map<(nat, nat), nat>)
  {
    forall value: nat, w: nat ::
      && ((value, w) in consts <==> InMemo(st, value, w))
      && ((value, w) in consts ==> (st, consts[(value, w)]) == PutConst(st, value, w))
  }

  /** The index finds exactly the tabled names. */
  ghost predicate IndexOk(st: St, varIndex: map<Name, nat>)
  {
    && (forall k: nat :: k < |st.varNode| ==> NameOf(st.names, k) in varIndex)
    && (forall name :: name in varIndex ==> exists k: nat :: IndexedAt(st, varIndex, name, k))
  }

  /** The variable table, in the order of the names. */
  ghost predicate VarsListed(st: St, vars: seq<(Name, nat, nat)>)
  {
    |vars| == |st.varNode| == |st.varWidth| &&
    forall k :: 0 <= k < |vars| ==> vars[k] == (NameOf(st.names, k), st.varWidth[k], st.varNode[k])
  }

  ghost predicate IndexedAt(st: St, varIndex: map<Name, nat>, name: Name, k: nat)
    requires name in varIndex
  {
    k < |st.varNode| && NameOf(st.names, k) == name && varIndex[name] == st.varNode[k]
  }

  lemma ConstsKept(a: St, b: St, consts: map<(nat, nat), nat>)
    requires StOk(a) && Extends(a, b) && ConstsOk(a, consts)
    ensures ConstsOk(b, consts)
  {
    hide Means, StOk, Extends;
    forall key | key in consts ensures Means(b, consts[key], TConst(key.0, key.1)) {
      MeansKept(a, b, consts[key], TConst(key.0, key.1));
    }
  }

  lemma IndexKept(a: St, b: St, varIndex: map<Name, nat>)
    requires IndexOk(a, varIndex) && b.names == a.names && b.varNode == a.varNode
    ensures IndexOk(b, varIndex)
  {
    forall name | name in varIndex ensures exists k: nat :: IndexedAt(b, varIndex, name, k) {
      var k: nat :| IndexedAt(a, varIndex, name, k);
      assert IndexedAt(b, varIndex, name, k);
    }
  }

  class DagBuilder {
    var nodes: Dag
    var bits: seq<bool>
    var roots: seq<nat>
    var vars: seq<(Name, nat, nat)>
    var memo: map<Key, nat>
    var consts: map<(nat, nat), nat>
    var varIndex: map<Name, nat>
    const hashCons: bool
    ghost var st: St

    ghost predicate Valid()
      reads this
    {
      && StOk(st) && SameNodes(st, nodes) && st.bits == bits
      && ShareOk(nodes, memo, hashCons) && ConstsOk(st, consts) && ConstsListed(st, consts)
      && IndexOk(st, varIndex) && VarsListed(st, vars)
    }

    constructor (hashCons: bool)
      ensures Valid() && roots == [] && Order(st) == [] && UsesIn(st) == NO_USES && this.hashCons == hashCons && st == EMPTY
    {
      nodes, bits, roots, vars := [], [], [], [];
      memo, consts, varIndex := map[], map[], map[];
      this.hashCons := hashCons;
      st := St([], [], [], NameTable([], [], []), [], [], [], [], [], NameTable([], [], []), NameTable([], [], []), []);
    }

    /** The node, shared with an equal one when hash-consing. */
    method Place(nd: DagNode) returns (i: nat)
      requires Valid() && Operator(nd) && NodeWf(ExtWidths(st.nodes, |st.nodes|), |st.bits|, nd)
      requires NodeWidth(ExtWidths(st.nodes, |st.nodes|), nd) <= MAX_WIDTH
      modifies this
      ensures Valid() && roots == old(roots) && i < |nodes| && nodes[i] == nd
      ensures (st, i) == Push(hashCons, old(st), nd)
    {
      hide StOk, Means, ExtWf, Extends, NodeWf, IndexOk, ConstsOk, ShareOk, KeyOf;
      var key := KeyOf(nd);
      if hashCons && key in memo {
        ShareFound(nodes, memo, hashCons, nd);
        ShareFirst(st, nodes, memo, nd);
        return memo[key];
      }
      if hashCons && Core(nd) in st.nodes { ShareKnown(st, nodes, memo, nd); }
      SharePlaced(nodes, memo, hashCons, nd);
      i := |nodes|;
      PushOk(st, Core(nd));
      ConstsKept(st, WithNode(st, Core(nd)), consts);
      ConstsListedKept(st, WithNode(st, Core(nd)), consts);
      IndexKept(st, WithNode(st, Core(nd)), varIndex);
      nodes := nodes + [nd];
      st := WithNode(st, Core(nd));
      if hashCons { memo := memo[key := i]; }
    }

    method Intern(nd: DagNode, ghost t: TBv) returns (i: nat)
      requires Valid() && Operator(nd) && Sorted(t) && Spells(st, nd, t)
      modifies this
      ensures Valid() && roots == old(roots) && Flatten.Step(old(st), st, NO_USES) && Means(st, i, t)
      ensures Order(st) == Order(old(st)) && (st, i) == Push(hashCons, old(st), nd)
    {
      hide StOk, Means, Spells, Sorted, Extends, ShareOk, ConstsOk, ConstsListed, IndexOk;
      ghost var st0 := st;
      SpellsValue(st, nd, t);
      SortedWidth(t);
      PushMeans(st, nd, t);
      i := Place(nd);
      if st == st0 {
        SharedMeans(st, i, nd, t);
        Flatten.StepNone(st);
      } else {
        Flatten.NodeStepKeeps(st0, st);
      }
    }

    method InternBool(nd: DagNode, ghost t: TBool) returns (i: nat)
      requires Valid() && Operator(nd) && SortedBool(t) && SpellsBool(st, nd, t)
      modifies this
      ensures Valid() && roots == old(roots) && Flatten.Step(old(st), st, NO_USES) && MeansBool(st, i, t)
      ensures Order(st) == Order(old(st)) && (st, i) == Push(hashCons, old(st), nd)
    {
      hide StOk, MeansBool, SpellsBool, SortedBool, Extends, ShareOk, ConstsOk, ConstsListed, IndexOk;
      ghost var st0 := st;
      SpellsBoolValue(st, nd, t);
      PushMeansBool(st, nd, t);
      i := Place(nd);
      if st == st0 {
        SharedMeansBool(st, i, nd, t);
        Flatten.StepNone(st);
      } else {
        Flatten.NodeStepKeeps(st0, st);
      }
    }

    /** A constant, shared by value and width. */
    method Constant(value: nat, w: nat) returns (i: nat)
      requires Valid() && WidthOk(w)
      modifies this
      ensures Valid() && roots == old(roots) && Built(old(st), st, i, TConst(value, w))
      ensures (st, i) == PutConst(old(st), value, w)
      ensures consts == old(consts)[(value, w) := i]
    {
      hide StOk, Means, FromInt, ExtWf, Extends, IndexOk, ConstsOk, ConstsListed, ShareOk, PutConst;
      ghost var st0 := st;
      ConstsAt(st, consts, value, w);
      if (value, w) in consts {
        ConstKnown(st, consts, value, w);
        return consts[(value, w)];
      }
      ConstMeans(st, value, w);
      var word := Flatten.Flat.BitsOf(value, w);
      i := |nodes|;
      ghost var next := WithConst(st, value, w);
      ConstsMore(st, consts, value, w);
      ShareConst(nodes, memo, hashCons, |bits|, w);
      IndexKept(st, next, varIndex);
      nodes := nodes + [Const(|bits|, w)];
      bits := bits + word;
      st := next;
      consts := consts[(value, w) := i];
      assert UsesIn(st) == UsesIn(st0);
      Flatten.JoinAssoc(UsesIn(st0), NO_USES, NO_USES);
    }

    /** A variable, shared by name. */
    method Variable(name: Name, w: nat) returns (i: nat)
      requires Valid() && WidthOk(w) && OneWidth(st, UsesOf(TVar(name, w)))
      modifies this
      ensures Valid() && roots == old(roots) && Built(old(st), st, i, TVar(name, w))
      ensures (st, i) == PutVar(old(st), name, w)
      ensures varIndex == old(varIndex)[name := i]
    {
      hide StOk, Means, ExtWf, Extends, IndexOk, ConstsOk, ConstsListed, ShareOk, VarsListed, OneWidth, Built, PutVar;
      VarAt(st, varIndex, name, w);
      if name in varIndex {
        KnownName(st, varIndex, name, w);
        return varIndex[name];
      }
      VariableBuilt(st, varIndex, name, w);
      ghost var next := WithVar(st, name, w);
      ConstsKept(st, next, consts);
      ConstsListedKept(st, next, consts);
      ShareVar(nodes, memo, hashCons, w);
      i := |nodes|;
      NewName(st, varIndex, name, w);
      nodes := nodes + [Var(w)];
      vars := vars + [(name, w, i)];
      st := next;
      varIndex := varIndex[name := i];
    }

    /** Both operands, left to right. */
    method Pair(a: TBv, b: TBv) returns (x: nat, y: nat)
      requires Valid() && Sorted(a) && Closed(a) && Sorted(b) && Closed(b)
      requires OneWidth(st, Join(UsesOf(a), UsesOf(b)))
      modifies this
      ensures Valid() && roots == old(roots) && Flatten.Step(old(st), st, Join(UsesOf(a), UsesOf(b)))
      ensures Means(st, x, a) && Means(st, y, b) && Order(st) == VarsAfter(VarsAfter(Order(old(st)), a), b)
      ensures (st, x, y) == PutPair(hashCons, old(st), a, b)
      decreases Size(a) + Size(b), 2
    {
      hide *;
      ghost var st0 := st;
      SmallerPair(a, b);
      Flatten.PairParts(hashCons, st, a, b);
      WidthSplit(st, UsesOf(a), UsesOf(b));
      x := Bv(a);
      BuiltFacts(st0, st, x, a);
      ghost var st1 := st;
      WidthRest(st0, st1, UsesOf(a), UsesOf(b));
      y := Bv(b);
      BuiltFacts(st1, st, y, b);
      Flatten.StepFacts(st0, st1, UsesOf(a));
      Flatten.StepFacts(st1, st, UsesOf(b));
      MeansKept(st1, st, x, a);
      Flatten.StepTrans(st0, st1, st, UsesOf(a), UsesOf(b));
    }

    /** The node of a bitvector term. */
    method Bv(t: TBv) returns (i: nat)
      requires Valid() && Sorted(t) && Closed(t) && OneWidth(st, UsesOf(t))
      modifies this
      ensures Valid() && roots == old(roots) && Built(old(st), st, i, t) && (st, i) == PutBv(hashCons, old(st), t)
      decreases Size(t), 1
    {
      hide StOk, Means, MeansBool, UsesIn, Extends, Functional, Flatten.Step, Order, Valid;
      ghost var st0 := st;
      match t {
        case TConst(value, w) => i := Constant(value, w);
        case TVar(name, w) => i := Variable(name, w);
        case TBin(op, a, b) =>
          var x, y := Pair(a, b);
          ghost var st1 := st;
          i := Intern(Bin(op, x, y), t);
          Flatten.StepOn(st0, st1, st, UsesOf(t));
        case TConcat(a, b) =>
          var x, y := Pair(a, b);
          ghost var st1 := st;
          i := Intern(Concat(x, y), t);
          Flatten.StepOn(st0, st1, st, UsesOf(t));
        case TIte(_, _, _) => i := BvIte(t);
        case TExtract(_, _, _) => i := BvUnary(t);
        case TZeroExt(_, _) => i := BvUnary(t);
        case TSignExt(_, _) => i := BvUnary(t);
        case TNot(_) => i := BvUnary(t);
        case TNeg(_) => i := BvUnary(t);
      }
    }

    method BvUnary(t: TBv) returns (i: nat)
      requires Valid() && Sorted(t) && Closed(t) && OneWidth(st, UsesOf(t))
      requires t.TExtract? || t.TZeroExt? || t.TSignExt? || t.TNot? || t.TNeg?
      modifies this
      ensures Valid() && roots == old(roots) && Built(old(st), st, i, t) && (st, i) == PutBv(hashCons, old(st), t)
      decreases Size(t), 0
    {
      hide StOk, Means, UsesIn, Extends, Functional, Flatten.Step, Order, Valid;
      ghost var st0 := st;
      var x := Bv(t.a);
      ghost var st1 := st;
      match t {
        case TExtract(hi, lo, _) => i := Intern(Extract(hi, lo, x), t);
        case TZeroExt(extra, _) => i := Intern(ZeroExt(x, extra), t);
        case TSignExt(extra, _) => i := Intern(SignExt(x, extra), t);
        case TNot(_) => i := Intern(BvNot(x), t);
        case TNeg(_) => i := Intern(Neg(x), t);
      }
      Flatten.StepOn(st0, st1, st, UsesOf(t));
    }

    method BvIte(t: TBv) returns (i: nat)
      requires Valid() && Sorted(t) && Closed(t) && OneWidth(st, UsesOf(t)) && t.TIte?
      modifies this
      ensures Valid() && roots == old(roots) && Built(old(st), st, i, t) && (st, i) == PutBv(hashCons, old(st), t)
      decreases Size(t), 0
    {
      hide StOk, Means, MeansBool, UsesIn, Extends, Functional, Flatten.Step, Order, Valid;
      ghost var st0, u, v := st, BoolUses(t.c), Join(UsesOf(t.a), UsesOf(t.b));
      WidthSplit(st, u, v);
      var c := Boolean(t.c);
      ghost var st1 := st;
      WidthRest(st0, st1, u, v);
      var x, y := Pair(t.a, t.b);
      ghost var st2 := st;
      Flatten.StepFacts(st0, st1, u);
      Flatten.StepFacts(st1, st2, v);
      MeansBoolKept(st1, st2, c, t.c);
      Flatten.StepTrans(st0, st1, st2, u, v);
      i := Intern(Ite(c, x, y), t);
      Flatten.StepOn(st0, st2, st, UsesOf(t));
    }

    /** The node of a boolean term. */
    method Boolean(t: TBool) returns (i: nat)
      requires Valid() && SortedBool(t) && ClosedBool(t) && OneWidth(st, BoolUses(t))
      modifies this
      ensures Valid() && roots == old(roots) && BuiltBool(old(st), st, i, t) && (st, i) == PutBool(hashCons, old(st), t)
      decreases BoolSize(t), 1
    {
      hide StOk, Means, MeansBool, UsesIn, Extends, Functional, Flatten.Step, Order, Valid;
      ghost var st0 := st;
      match t {
        case BCmp(op, a, b) =>
          var x, y := Pair(a, b);
          ghost var st1 := st;
          i := InternBool(Cmp(op, x, y), t);
          Flatten.StepOn(st0, st1, st, BoolUses(t));
        case BNot(a) =>
          var x := Boolean(a);
          ghost var st1 := st;
          i := InternBool(Not(x), t);
          Flatten.StepOn(st0, st1, st, BoolUses(t));
        case _ => i := Connective(t);
      }
    }

    method Connective(t: TBool) returns (i: nat)
      requires Valid() && SortedBool(t) && ClosedBool(t) && OneWidth(st, BoolUses(t)) && (t.BAnd? || t.BOr?)
      modifies this
      ensures Valid() && roots == old(roots) && BuiltBool(old(st), st, i, t) && (st, i) == PutBool(hashCons, old(st), t)
      decreases BoolSize(t), 0
    {
      hide StOk, MeansBool, UsesIn, Extends, Functional, Flatten.Step, Order, Valid;
      ghost var st0, u, v := st, BoolUses(t.x), BoolUses(t.y);
      WidthSplit(st, u, v);
      var x := Boolean(t.x);
      ghost var st1 := st;
      WidthRest(st0, st1, u, v);
      var y := Boolean(t.y);
      ghost var st2 := st;
      Flatten.StepFacts(st0, st1, u);
      Flatten.StepFacts(st1, st2, v);
      MeansBoolKept(st1, st2, x, t.x);
      Flatten.StepTrans(st0, st1, st2, u, v);
      i := InternBool(if t.BAnd? then BoolAnd(x, y) else BoolOr(x, y), t);
      Flatten.StepOn(st0, st2, st, BoolUses(t));
    }

    /** Assert the terms in order; each one's node becomes a root. */
    method AssertAll(ts: seq<TBool>)
      requires Valid() && roots == [] && Order(st) == [] && UsesIn(st) == NO_USES && st == EMPTY
      requires forall k :: 0 <= k < |ts| ==> SortedBool(ts[k]) && ClosedBool(ts[k])
      requires Functional(TreeUses(ts).vars)
      modifies this
      ensures Valid() && RootsMean(st, roots, ts) && (st, roots) == PutAll(hashCons, ts)
    {
      hide StOk, MeansBool, UsesIn, Extends, Functional, Flatten.Step, Order, SameNodes, ShareOk, ConstsOk, ConstsListed, IndexOk,
        VarsListed;
      assert ts[..0] == [];
      for k := 0 to |ts|
        invariant Valid() && RootsMean(st, roots, ts[..k]) && (st, roots) == PutAll(hashCons, ts[..k])
      {
        ghost var st0, before := st, roots;
        NextWidth(st, ts, k);
        var root := Boolean(ts[k]);
        roots := roots + [root];
        MoreRoots(st0, st, before, root, ts, k);
        Flatten.PutSplit(hashCons, ts, k);
      }
      assert ts[..|ts|] == ts;
    }
  }

  /** Every root means its tree, and the variables are in first-seen order. */
  ghost predicate RootsMean(st: St, roots: seq<nat>, ts: seq<TBool>)
  {
    && |roots| == |ts| && (forall k :: 0 <= k < |ts| ==> MeansBool(st, roots[k], ts[k]))
    && UsesIn(st) == TreeUses(ts) && Order(st) == VarsAfterAll([], ts)
  }

  lemma NextWidth(st: St, ts: seq<TBool>, k: nat)
    requires k < |ts| && UsesIn(st) == TreeUses(ts[..k]) && Functional(TreeUses(ts).vars)
    ensures OneWidth(st, BoolUses(ts[k]))
  {
    Flatten.UsesSplit(ts, k);
    FunctionalSub(UsesIn(st).vars + BoolUses(ts[k]).vars, TreeUses(ts).vars);
  }

  lemma MoreRoots(st: St, st': St, roots: seq<nat>, root: nat, ts: seq<TBool>, k: nat)
    requires StOk(st) && k < |ts| && RootsMean(st, roots, ts[..k]) && BuiltBool(st, st', root, ts[k])
    ensures RootsMean(st', roots + [root], ts[..k + 1])
  {
    hide StOk, MeansBool, UsesIn, Order, Extends;
    Flatten.UsesSplit(ts, k);
    assert ts[..k + 1][..k] == ts[..k];
    forall j | 0 <= j < k ensures MeansBool(st', (roots + [root])[j], ts[..k + 1][j]) {
      assert ts[..k + 1][j] == ts[..k][j];
      MeansBoolKept(st, st', roots[j], ts[..k][j]);
    }
  }

  lemma BuiltFacts(a: St, b: St, i: nat, t: TBv)
    requires Built(a, b, i, t)
    ensures Flatten.Step(a, b, UsesOf(t)) && Means(b, i, t) && Order(b) == VarsAfter(Order(a), t)
  {
  }

  lemma SmallerPair(a: TBv, b: TBv)
    ensures Size(a) < Size(a) + Size(b) && Size(b) < Size(a) + Size(b)
  {
  }

  /** One width over both operands is one width over the first, and over the
      second after it. */
  lemma WidthSplit(st: St, u: Uses, v: Uses)
    requires OneWidth(st, Join(u, v))
    ensures OneWidth(st, u)
  {
    FunctionalSub(UsesIn(st).vars + u.vars, UsesIn(st).vars + Join(u, v).vars);
  }

  lemma WidthRest(st: St, st1: St, u: Uses, v: Uses)
    requires OneWidth(st, Join(u, v)) && Flatten.Step(st, st1, u)
    ensures OneWidth(st1, v)
  {
    FunctionalSub(UsesIn(st1).vars + v.vars, UsesIn(st).vars + Join(u, v).vars);
  }

  lemma KnownName(st: St, varIndex: map<Name, nat>, name: Name, w: nat)
    requires StOk(st) && IndexOk(st, varIndex) && name in varIndex && OneWidth(st, UsesOf(TVar(name, w))) && w > 0
    ensures Built(st, st, varIndex[name], TVar(name, w))
  {
    hide ExtWf, MemosOk, Tidy;
    var k: nat :| IndexedAt(st, varIndex, name, k);
    assert (name, st.varWidth[k]) in VarPairs(st);
    assert (name, w) in UsesIn(st).vars + UsesOf(TVar(name, w)).vars;
    assert st.varWidth[k] == w;
    Flatten.KnownVar(st, k, name, w);
    Flatten.StepSame(st, UsesOf(TVar(name, w)));
    TabledMeans(st, k);
    assert Order(st)[k].0 == name;
  }

  lemma FreshName(st: St, varIndex: map<Name, nat>, name: Name)
    requires StOk(st) && IndexOk(st, varIndex) && name !in varIndex
    ensures forall k: nat :: k < |st.names.starts| ==> NameOf(st.names, k) != name
    ensures !Seen(Order(st), name)
  {
  }

  lemma VariableBuilt(st: St, varIndex: map<Name, nat>, name: Name, w: nat)
    requires StOk(st) && IndexOk(st, varIndex) && name !in varIndex && WidthOk(w)
    ensures StOk(WithVar(st, name, w)) && Extends(st, WithVar(st, name, w))
    ensures Built(st, WithVar(st, name, w), |st.nodes|, TVar(name, w))
  {
    hide StOk, Means, Extends, IndexOk, Order, UsesIn;
    FreshName(st, varIndex, name);
    VarMeans(st, name, w);
    Flatten.NewVarUses(st, name, w);
    NewName(st, varIndex, name, w);
  }

  lemma ConstKnown(st: St, consts: map<(nat, nat), nat>, value: nat, w: nat)
    requires StOk(st) && ConstsOk(st, consts) && (value, w) in consts
    ensures Built(st, st, consts[(value, w)], TConst(value, w))
  {
    hide StOk, Means;
    Flatten.StepNone(st);
  }

  /** What the indices answer is the list's next entry. */
  lemma ConstsAt(st: St, consts: map<(nat, nat), nat>, value: nat, w: nat)
    requires ConstsListed(st, consts)
    ensures PutConst(st, value, w) ==
              if (value, w) in consts then (st, consts[(value, w)]) else (WithConst(st, value, w), |st.nodes|)
  {
    hide FromInt;
  }

  lemma VarAt(st: St, varIndex: map<Name, nat>, name: Name, w: nat)
    requires StOk(st) && IndexOk(st, varIndex)
    ensures PutVar(st, name, w) == if name in varIndex then (st, varIndex[name]) else (WithVar(st, name, w), |st.nodes|)
  {
    hide ExtWf, MemosOk, Tidy, NameOf;
    if name in varIndex {
      var k: nat :| IndexedAt(st, varIndex, name, k);
      Flatten.TableFirst(st.names, k, name);
    } else {
      forall k: nat | k < |st.names.starts| ensures NameOf(st.names, k) != name { assert NameOf(st.names, k) in varIndex; }
    }
  }

  lemma ConstsMore(st: St, consts: map<(nat, nat), nat>, value: nat, w: nat)
    requires StOk(st) && ConstsOk(st, consts) && ConstsListed(st, consts) && (value, w) !in consts && WidthOk(w)
    ensures ConstsOk(WithConst(st, value, w), consts[(value, w) := |st.nodes|])
    ensures ConstsListed(WithConst(st, value, w), consts[(value, w) := |st.nodes|])
  {
    hide StOk, Means, Extends, ConstsListed;
    Flatten.StMemos(st);
    ConstMeans(st, value, w);
    ConstsKept(st, WithConst(st, value, w), consts);
    ConstsListedMore(st, consts, value, w);
  }

  lemma ShareConst(nodes: Dag, memo: map<Key, nat>, hashCons: bool, s: nat, w: nat)
    requires ShareOk(nodes, memo, hashCons)
    ensures ShareOk(nodes + [Const(s, w)], memo, hashCons)
  {
    hide KeyOf;
    forall key | key in memo ensures KeyAt(nodes + [Const(s, w)], memo[key], key) { assert KeyAt(nodes, memo[key], key); }
  }

  /** A variable is no operator, so the memo stands. */
  lemma ShareVar(nodes: Dag, memo: map<Key, nat>, hashCons: bool, w: nat)
    requires ShareOk(nodes, memo, hashCons)
    ensures ShareOk(nodes + [Var(w)], memo, hashCons)
  {
    hide KeyOf;
    forall key | key in memo ensures KeyAt(nodes + [Var(w)], memo[key], key) { assert KeyAt(nodes, memo[key], key); }
  }

  /** A placed operator is memoized under its key. */
  lemma SharePlaced(nodes: Dag, memo: map<Key, nat>, hashCons: bool, nd: DagNode)
    requires ShareOk(nodes, memo, hashCons) && Operator(nd) && (hashCons ==> KeyOf(nd) !in memo)
    ensures ShareOk(nodes + [nd], if hashCons then memo[KeyOf(nd) := |nodes|] else memo, hashCons)
  {
    hide KeyOf;
    forall key | key in memo ensures KeyAt(nodes + [nd], memo[key], key) { assert KeyAt(nodes, memo[key], key); }
  }

  /** A key the memo knows is the operator itself. */
  lemma ShareFound(nodes: Dag, memo: map<Key, nat>, hashCons: bool, nd: DagNode)
    requires ShareOk(nodes, memo, hashCons) && Operator(nd) && KeyOf(nd) in memo
    ensures memo[KeyOf(nd)] < |nodes| && nodes[memo[KeyOf(nd)]] == nd
  {
    hide KeyOf;
    assert KeyAt(nodes, memo[KeyOf(nd)], KeyOf(nd));
    KeyInjective(nodes[memo[KeyOf(nd)]], nd);
  }

  /** When hash-consing an operator of the list is memoized. */
  lemma ShareKnown(st: St, nodes: Dag, memo: map<Key, nat>, nd: DagNode)
    requires ShareOk(nodes, memo, true) && SameNodes(st, nodes) && Operator(nd) && Core(nd) in st.nodes
    ensures KeyOf(nd) in memo
  {
    hide KeyOf;
    var i :| 0 <= i < |nodes| && st.nodes[i] == Core(nd);
    assert nodes[i] == nd;
  }

  /** It is the first such node, being the only one. */
  lemma ShareFirst(st: St, nodes: Dag, memo: map<Key, nat>, nd: DagNode)
    requires ShareOk(nodes, memo, true) && SameNodes(st, nodes) && Operator(nd) && KeyOf(nd) in memo
    ensures (st, memo[KeyOf(nd)]) == Push(true, st, nd)
  {
    hide KeyOf;
    ShareFound(nodes, memo, true, nd);
    var i := memo[KeyOf(nd)];
    assert st.nodes[i] == Core(nd);
    var j := NodeIndex(st, nd, 0);
    assert j <= i && st.nodes[j] == Core(nodes[j]);
    assert nodes[j] == nd;
  }

  lemma ConstsListedKept(a: St, b: St, consts: map<(nat, nat), nat>)
    requires ConstsListed(a, consts)
    requires b.constValue == a.constValue && b.constWidth == a.constWidth && b.constNode == a.constNode
    ensures ConstsListed(b, consts)
  {
    forall value: nat, w: nat
      ensures ((value, w) in consts <==> InMemo(b, value, w)) &&
              ((value, w) in consts ==> (b, consts[(value, w)]) == PutConst(b, value, w))
    {
      SameIndex(a, b, value, w, 0);
      assert InMemo(b, value, w) <==> InMemo(a, value, w);
      if (value, w) in consts { assert (a, consts[(value, w)]) == PutConst(a, value, w); }
    }
  }

  lemma {:induction false} SameIndex(a: St, b: St, value: nat, w: nat, k: nat)
    requires b.constValue == a.constValue && b.constWidth == a.constWidth
    ensures MemoIndex(b, value, w, k) == MemoIndex(a, value, w, k)
    decreases |a.constValue| - k
  {
    if k < |a.constValue| { SameIndex(a, b, value, w, k + 1); }
  }

  /** A constant that joins the memo. */
  lemma ConstsListedMore(st: St, consts: map<(nat, nat), nat>, value: nat, w: nat)
    requires MemosOk(st) && ConstsListed(st, consts) && (value, w) !in consts
    ensures ConstsListed(WithConst(st, value, w), consts[(value, w) := |st.nodes|])
  {
    hide FromInt;
    var next, more := WithConst(st, value, w), consts[(value, w) := |st.nodes|];
    var n := |st.constValue|;
    forall v: nat, u: nat
      ensures ((v, u) in more <==> InMemo(next, v, u)) && ((v, u) in more ==> (next, more[(v, u)]) == PutConst(next, v, u))
    {
      assert InMemo(next, v, u) <==> InMemo(st, v, u) || (v, u) == (value, w) by { MemoMore(st, value, w, v, u); }
      if (v, u) in consts {
        assert (st, consts[(v, u)]) == PutConst(st, v, u);
        IndexInside(st, v, u, 0);
        IndexGrown(st, value, w, v, u, 0);
      } else if (v, u) == (value, w) {
        assert !InMemo(st, value, w);
        IndexLast(st, value, w, 0);
      }
    }
  }

  lemma MemoMore(st: St, value: nat, w: nat, v: nat, u: nat)
    requires MemosOk(st)
    ensures InMemo(WithConst(st, value, w), v, u) <==> InMemo(st, v, u) || (v, u) == (value, w)
  {
    hide FromInt, MemoOk;
    var next := WithConst(st, value, w);
    if InMemo(st, v, u) {
      var k :| 0 <= k < |st.constValue| && k < |st.constWidth| && st.constValue[k] == v && st.constWidth[k] == u;
      assert next.constValue[k] == v && next.constWidth[k] == u;
    }
    if (v, u) == (value, w) { assert next.constValue[|st.constValue|] == v && next.constWidth[|st.constValue|] == u; }
  }

  lemma {:induction false} IndexInside(st: St, v: nat, u: nat, k: nat)
    requires MemosOk(st) && exists j :: k <= j < |st.constValue| && st.constValue[j] == v && st.constWidth[j] == u
    ensures MemoIndex(st, v, u, k) < |st.constValue|
    decreases |st.constValue| - k
  {
    hide MemoOk;
    if k < |st.constValue| && !(st.constValue[k] == v && st.constWidth[k] == u) { IndexInside(st, v, u, k + 1); }
  }

  lemma {:induction false} IndexGrown(st: St, value: nat, w: nat, v: nat, u: nat, k: nat)
    requires MemosOk(st) && MemoIndex(st, v, u, k) < |st.constValue|
    ensures MemoIndex(WithConst(st, value, w), v, u, k) == MemoIndex(st, v, u, k)
    decreases |st.constValue| - k
  {
    hide MemoOk, FromInt;
    if k < |st.constValue| && !(st.constValue[k] == v && st.constWidth[k] == u) { IndexGrown(st, value, w, v, u, k + 1); }
  }

  lemma {:induction false} IndexLast(st: St, value: nat, w: nat, k: nat)
    requires MemosOk(st) && k <= |st.constValue| && !InMemo(st, value, w)
    ensures MemoIndex(WithConst(st, value, w), value, w, k) == |st.constValue|
    decreases |st.constValue| - k
  {
    hide MemoOk, FromInt;
    if k < |st.constValue| { IndexLast(st, value, w, k + 1); }
  }

  lemma NewName(st: St, varIndex: map<Name, nat>, name: Name, w: nat)
    requires StOk(st) && IndexOk(st, varIndex) && name !in varIndex
    ensures IndexOk(WithVar(st, name, w), varIndex[name := |st.nodes|])
    ensures Order(WithVar(st, name, w)) == VarsAfter(Order(st), TVar(name, w))
    ensures forall vars :: VarsListed(st, vars) ==> VarsListed(WithVar(st, name, w), vars + [(name, w, |st.nodes|)])
  {
    hide IndexOk, StOk, NameOf;
    FreshName(st, varIndex, name);
    assert TableOk(st.names) && |st.varNode| == |st.varWidth| == |st.names.starts| by { Flatten.StTables(st); }
    WithNameOk(st.names, name);
    NewIndex(st, varIndex, name, w);
  }

  lemma NewIndex(st: St, varIndex: map<Name, nat>, name: Name, w: nat)
    requires |st.varNode| == |st.names.starts| && IndexOk(st, varIndex) && name !in varIndex
    requires NameOf(WithName(st.names, name), |st.names.starts|) == name
    requires forall k: nat :: k < |st.names.starts| ==> NameOf(WithName(st.names, name), k) == NameOf(st.names, k)
    ensures IndexOk(WithVar(st, name, w), varIndex[name := |st.nodes|])
  {
    hide NameOf;
    var next, index := WithVar(st, name, w), varIndex[name := |st.nodes|];
    forall other | other in index ensures exists k: nat :: IndexedAt(next, index, other, k) {
      if other == name {
        assert IndexedAt(next, index, name, |st.varNode|);
      } else {
        var k: nat :| IndexedAt(st, varIndex, other, k);
        assert IndexedAt(next, index, other, k);
      }
    }
  }

  // ---------- two runs ----------

  /** The DAG assignment an interpretation gives, through the builder's
      variables. */
  ghost function NamedEnv(st: St, I: Interp): Env { TreeSound.ModelOf(st, I, []).env }

  /** Under every interpretation each root has its tree's value. */
  ghost predicate Represents(nodes: Dag, bits: seq<bool>, st: St, roots: seq<nat>, ts: seq<TBool>)
  {
    && |roots| == |ts| && (forall k :: 0 <= k < |roots| ==> roots[k] < |nodes|)
    && forall I: Interp, k :: 0 <= k < |ts| ==> DagVal(nodes, bits, NamedEnv(st, I), roots[k]) == [BoolVal(ts[k], I)]
  }

  /** No operator is built twice. */
  predicate NoRepeats(nodes: Dag)
  {
    forall i, j :: 0 <= i < |nodes| && 0 <= j < |nodes| && Operator(nodes[i]) && nodes[i] == nodes[j] ==> i == j
  }

  method BuildDag(ts: seq<TBool>, hashCons: bool) returns (b: DagBuilder)
    requires forall k :: 0 <= k < |ts| ==> SortedBool(ts[k]) && ClosedBool(ts[k])
    requires Functional(TreeUses(ts).vars)
    ensures fresh(b) && b.Valid() && DagWf(b.nodes, |b.bits|) && Represents(b.nodes, b.bits, b.st, b.roots, ts)
    ensures Order(b.st) == VarsAfterAll([], ts) && (b.st, b.roots) == PutAll(hashCons, ts) && SameNodes(b.st, b.nodes)
    ensures hashCons ==> NoRepeats(b.nodes)
  {
    hide StOk, MeansBool, UsesIn, Functional, Order, Represents, ConstsOk, IndexOk;
    b := new DagBuilder(hashCons);
    b.AssertAll(ts);
    CoreIs(b.st, b.nodes);
    BuiltWf(b.st, b.nodes);
    RootsRepresent(b.st, b.nodes, b.roots, ts);
    if hashCons { Unrepeated(b.nodes, b.memo); }
  }

  lemma CoreIs(st: St, nodes: Dag)
    requires SameNodes(st, nodes)
    ensures TreeSound.CoreOf(st, nodes)
  {
  }

  lemma BuiltWf(st: St, nodes: Dag)
    requires StOk(st) && TreeSound.CoreOf(st, nodes)
    ensures DagWf(nodes, |st.bits|)
  {
    hide VarsOk, MemosOk, Tidy, TableOk;
    forall i | 0 <= i < |nodes| ensures WfAt(nodes, |st.bits|, i) {
      TreeSound.CoreWidths(st, nodes, i);
      assert ExtWfAt(st.nodes, |st.bits|, st.side, i) by { WfHere(st, i); }
    }
  }

  lemma RootsRepresent(st: St, nodes: Dag, roots: seq<nat>, ts: seq<TBool>)
    requires StOk(st) && TreeSound.CoreOf(st, nodes) && RootsMean(st, roots, ts)
    ensures Represents(nodes, st.bits, st, roots, ts)
  {
    hide StOk, UsesIn, Order, Matches, ExtVals, DagVals, TreeSound.ModelOf;
    forall k | 0 <= k < |roots| ensures roots[k] < |nodes| { assert MeansBool(st, roots[k], ts[k]); }
    forall I: Interp, k | 0 <= k < |ts| ensures DagVal(nodes, st.bits, NamedEnv(st, I), roots[k]) == [BoolVal(ts[k], I)] {
      var mdl := TreeSound.ModelOf(st, I, []);
      TreeSound.ModelOfMatches(st, I, []);
      assert MeansBool(st, roots[k], ts[k]);
      TreeSound.CoreVals(st, nodes, mdl, roots[k] + 1);
    }
  }

  lemma Unrepeated(nodes: Dag, memo: map<Key, nat>)
    requires ShareOk(nodes, memo, true)
    ensures NoRepeats(nodes)
  {
  }

  lemma OrderListed(st: St, vars: seq<(Name, nat, nat)>)
    requires VarsListed(st, vars)
    ensures |Order(st)| == |vars| && forall k :: 0 <= k < |vars| ==> Order(st)[k] == (vars[k].0, vars[k].1)
  {
  }

  /** SHARING IS INVISIBLE: the hash-consed and the unshared run of one list of
      terms have the same variables in the same order, and under every
      interpretation their roots have equal values. */
  method SharedAndPlain(ts: seq<TBool>) returns (shared: DagBuilder, plain: DagBuilder)
    requires forall k :: 0 <= k < |ts| ==> SortedBool(ts[k]) && ClosedBool(ts[k])
    requires Functional(TreeUses(ts).vars)
    ensures |shared.vars| == |plain.vars| && |shared.roots| == |plain.roots| == |ts|
    ensures forall k :: 0 <= k < |shared.vars| ==>
              shared.vars[k].0 == plain.vars[k].0 && shared.vars[k].1 == plain.vars[k].1
    ensures forall k :: 0 <= k < |ts| ==> shared.roots[k] < |shared.nodes| && plain.roots[k] < |plain.nodes|
    ensures forall I: Interp, k :: 0 <= k < |ts| ==>
              DagVal(shared.nodes, shared.bits, NamedEnv(shared.st, I), shared.roots[k]) ==
              DagVal(plain.nodes, plain.bits, NamedEnv(plain.st, I), plain.roots[k])
    ensures NoRepeats(shared.nodes)
  {
    hide StOk, DagVal, NamedEnv, Order, NoRepeats, PutAll, SameNodes, ShareOk, ConstsOk, ConstsListed, IndexOk;
    shared := BuildDag(ts, true);
    plain := BuildDag(ts, false);
    OrderListed(shared.st, shared.vars);
    OrderListed(plain.st, plain.vars);
  }
}
