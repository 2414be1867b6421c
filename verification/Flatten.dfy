/** The flattener: a left-to-right walk over the trees that grows one node
    list with its tables. */
module Flatten {
  import opened Wrappers
  import opened Bits
  import opened Dag
  import opened Sliver
  import opened Tree
  import opened FlatState
  import opened FlatLeaves
  import opened FlatSpec
  import opened FlatList

  /** The step from one state to a later one that used more names. */
  ghost predicate Step(st: St, st': St, uses: Uses)
  {
    StOk(st') && Extends(st, st') && UsesIn(st') == Join(UsesIn(st), uses)
  }

  lemma StepTrans(a: St, b: St, c: St, u: Uses, v: Uses)
    requires Step(a, b, u) && Step(b, c, v)
    ensures Step(a, c, Join(u, v))
  {
    hide StOk, Extends, UsesIn;
    ExtendsTrans(a, b, c);
    JoinAssoc(UsesIn(a), u, v);
  }

  lemma JoinAssoc(u: Uses, v: Uses, w: Uses)
    ensures Join(Join(u, v), w) == Join(u, Join(v, w))
    ensures Join(u, NO_USES) == u
  {
    assert (u.vars + v.vars) + w.vars == u.vars + (v.vars + w.vars);
    assert (u.funs + v.funs) + w.funs == u.funs + (v.funs + w.funs);
    assert u.vars + {} == u.vars && u.funs + {} == u.funs;
  }

  lemma AllCorePush(st: St, st': St, node: ExtNode)
    requires st'.nodes == st.nodes + [node]
    ensures AllCore(st') <==> AllCore(st) && node.Core?
  {
    if AllCore(st') {
      forall i | 0 <= i < |st.nodes| ensures st.nodes[i].Core? { assert st'.nodes[i] == st.nodes[i]; }
      assert st'.nodes[|st.nodes|] == node;
    }
  }

  /** Flattening a bitvector tree: a node that means it, or the first complaint
      of the walk. */
  ghost predicate Flattened(st: St, st': St, r: Result<(nat, nat), FlatError>, t: TBv)
  {
    match r
    case Ok(node) =>
      && Sorted(t) && Step(st, st', UsesOf(t)) && Means(st', node.0, t) && node.1 == TreeWidth(t)
      && (AllCore(st') <==> AllCore(st) && Closed(t)) && WalkBv(UsesIn(st), t) == Ok(UsesIn(st'))
    case Err(error) => WalkBv(UsesIn(st), t) == Err(error)
  }

  ghost predicate FlattenedBool(st: St, st': St, r: Result<nat, FlatError>, t: TBool)
  {
    match r
    case Ok(node) =>
      && SortedBool(t) && Step(st, st', BoolUses(t)) && MeansBool(st', node, t)
      && (AllCore(st') <==> AllCore(st) && ClosedBool(t)) && WalkBool(UsesIn(st), t) == Ok(UsesIn(st'))
    case Err(error) => WalkBool(UsesIn(st), t) == Err(error)
  }

  ghost predicate FlattenedArray(st: St, st': St, levels: seq<nat>, r: Result<(nat, seq<nat>), FlatError>, a: TArray)
  {
    match r
    case Ok(out) =>
      && SortedArray(a) && Step(st, st', ArrayUses(a)) && levels <= out.1
      && ChainMeans(st', out.0, out.1[|levels|..], a) && WalkArray(UsesIn(st), a) == Ok(UsesIn(st'))
    case Err(error) => WalkArray(UsesIn(st), a) == Err(error)
  }

  ghost predicate FlattenedArgs(st: St, st': St, ids: seq<nat>, r: Result<seq<nat>, FlatError>, args: TArgs)
  {
    match r
    case Ok(out) =>
      && SortedArgs(args) && Step(st, st', ArgsUses(args)) && ids <= out && ArgsMean(st', out[|ids|..], args)
      && WalkArgs(UsesIn(st), args) == Ok(UsesIn(st'))
    case Err(error) => WalkArgs(UsesIn(st), args) == Err(error)
  }

  /** A name newly tabled at a width. */
  lemma NewVarUses(st: St, name: Name, w: nat)
    requires StOk(st) && forall k: nat :: k < |st.names.starts| ==> NameOf(st.names, k) != name
    ensures UsesIn(WithVar(st, name, w)) == Join(UsesIn(st), Uses({(name, w)}, {})) && !Second(UsesIn(st).vars, name, w)
  {
    hide ExtWf, MemosOk, Tidy, NameOf;
    var st' := WithVar(st, name, w);
    WithNameOk(st.names, name);
    forall p | p in VarPairs(st) ensures p in VarPairs(st') {
      var k: nat :| k < |st.varWidth| && p == (NameOf(st.names, k), st.varWidth[k]);
      assert st'.varWidth[k] == st.varWidth[k];
    }
    assert (NameOf(st'.names, |st.varWidth|), st'.varWidth[|st.varWidth|]) == (name, w);
    assert (name, w) in VarPairs(st');
    assert VarPairs(st') == VarPairs(st) + {(name, w)};
    assert FunPairs(st') == FunPairs(st);
  }

  lemma NewFunUses(st: St, name: Name, w: nat)
    requires StOk(st) && forall k: nat :: k < |st.fnames.starts| ==> NameOf(st.fnames, k) != name
    ensures UsesIn(WithFunc(st, name, w)) == Join(UsesIn(st), Uses({}, {(name, w)})) && !Second(UsesIn(st).funs, name, w)
  {
    hide ExtWf, MemosOk, Tidy, NameOf;
    var st' := WithFunc(st, name, w);
    WithNameOk(st.fnames, name);
    forall p | p in FunPairs(st) ensures p in FunPairs(st') {
      var k: nat :| k < |st.funcWidth| && p == (NameOf(st.fnames, k), st.funcWidth[k]);
      assert st'.funcWidth[k] == st.funcWidth[k];
    }
    assert (NameOf(st'.fnames, |st.funcWidth|), st'.funcWidth[|st.funcWidth|]) == (name, w);
    assert (name, w) in FunPairs(st');
    assert FunPairs(st') == FunPairs(st) + {(name, w)};
    assert VarPairs(st') == VarPairs(st);
  }

  /** A tabled name at another width is a second width. */
  lemma SecondVarWidth(st: St, k: nat, name: Name, w: nat)
    requires StOk(st) && k < |st.varWidth| && NameOf(st.names, k) == name && st.varWidth[k] != w
    ensures Second(UsesIn(st).vars, name, w)
  {
    assert (name, st.varWidth[k]) in VarPairs(st);
  }

  lemma SecondFunWidth(st: St, k: nat, name: Name, w: nat)
    requires StOk(st) && k < |st.funcWidth| && NameOf(st.fnames, k) == name && st.funcWidth[k] != w
    ensures Second(UsesIn(st).funs, name, w)
  {
    assert (name, st.funcWidth[k]) in FunPairs(st);
  }

  lemma KnownVar(st: St, k: nat, name: Name, w: nat)
    requires StOk(st) && k < |st.varWidth| && NameOf(st.names, k) == name && st.varWidth[k] == w
    ensures Join(UsesIn(st), Uses({(name, w)}, {})) == UsesIn(st) && !Second(UsesIn(st).vars, name, w)
  {
    assert (name, w) in VarPairs(st);
    assert VarPairs(st) + {(name, w)} == VarPairs(st);
  }

  lemma KnownFun(st: St, k: nat, name: Name, w: nat)
    requires StOk(st) && k < |st.funcWidth| && NameOf(st.fnames, k) == name && st.funcWidth[k] == w
    ensures Join(UsesIn(st), Uses({}, {(name, w)})) == UsesIn(st) && !Second(UsesIn(st).funs, name, w)
  {
    assert (name, w) in FunPairs(st);
    assert FunPairs(st) + {(name, w)} == FunPairs(st);
  }

  // ---------- the list, as built ----------

  lemma {:induction false} MemoFrom(st: St, k: nat, value: nat, w: nat, j: nat)
    requires j <= k < |st.constValue| && k < |st.constWidth| && st.constValue[k] == value && st.constWidth[k] == w
    requires forall i: nat :: j <= i < k ==> !(st.constValue[i] == value && st.constWidth[i] == w)
    ensures MemoIndex(st, value, w, j) == k
    decreases k - j
  {
    if j < k { MemoFrom(st, k, value, w, j + 1); }
  }

  lemma MemoFirst(st: St, k: nat, value: nat, w: nat)
    requires k < |st.constValue| == |st.constWidth| == |st.constNode| && st.constValue[k] == value && st.constWidth[k] == w
    requires forall i: nat :: i < k ==> !(st.constValue[i] == value && st.constWidth[i] == w)
    ensures PutConst(st, value, w) == (st, st.constNode[k])
  {
    MemoFrom(st, k, value, w, 0);
  }

  lemma {:induction false} TableFrom(tab: NameTable, k: nat, name: Name, j: nat)
    requires TableOk(tab) && j <= k < |tab.starts| && NameOf(tab, k) == name
    ensures TableIndex(tab, name, j) == k
    decreases k - j
  {
    hide NameOf;
    if j < k { TableFrom(tab, k, name, j + 1); }
  }

  lemma TableFirst(tab: NameTable, k: nat, name: Name)
    requires TableOk(tab) && k < |tab.starts| && NameOf(tab, k) == name
    ensures TableIndex(tab, name, 0) == k && Listed(tab, name)
  {
    TableFrom(tab, k, name, 0);
  }

  lemma PutTwo(st: St, t: TBool)
    requires t.BAnd? || t.BOr?
    ensures var (s, x) := PutBool(false, st, t.x);
            var (s', y) := PutBool(false, s, t.y);
            PutBool(false, st, t) == Push(false, s', if t.BAnd? then BoolAnd(x, y) else BoolOr(x, y))
  {
  }

  lemma PairParts(share: bool, st: St, a: TBv, b: TBv)
    ensures var (s, x) := PutBv(share, st, a); var (s', y) := PutBv(share, s, b); PutPair(share, st, a, b) == (s', x, y)
  {
    hide PutBv;
  }

  lemma PutSplit(share: bool, ts: seq<TBool>, k: nat)
    requires k < |ts|
    ensures var (s, roots) := PutAll(share, ts[..k]);
            var (s', root) := PutBool(share, s, ts[k]);
            PutAll(share, ts[..k + 1]) == (s', roots + [root])
  {
    hide PutBool;
    assert ts[..k + 1][..k] == ts[..k];
  }

  // ---------- the leaves ----------

  lemma MemoFlattened(st: St, k: nat, value: nat, w: nat)
    requires StOk(st) && WidthOk(w) && k < |st.constNode| && k < |st.constValue| && k < |st.constWidth|
    requires st.constValue[k] == value && st.constWidth[k] == w
    ensures Flattened(st, st, Ok((st.constNode[k], w)), TConst(value, w)) && InMemo(st, value, w)
  {
    hide StOk, Extends, Means, FromInt;
    StMemos(st);
    MemoMeans(st, k);
    JoinAssoc(UsesIn(st), NO_USES, NO_USES);
    StepSame(st, NO_USES);
  }

  lemma ConstFlattened(st: St, value: nat, w: nat)
    requires StOk(st) && WidthOk(w)
    ensures Flattened(st, WithConst(st, value, w), Ok((|st.nodes|, w)), TConst(value, w))
  {
    hide StOk, Extends, Means, FromInt, AllCore;
    var st' := WithConst(st, value, w);
    ConstMeans(st, value, w);
    assert UsesIn(st') == UsesIn(st);
    JoinAssoc(UsesIn(st), NO_USES, NO_USES);
    AllCorePush(st, st', Core(Const(|st.bits|, w)));
  }

  lemma TabledFlattened(st: St, k: nat, name: Name, w: nat)
    requires StOk(st) && WidthOk(w) && k < |st.names.starts| && NameOf(st.names, k) == name
    ensures k < |st.varNode| == |st.varWidth| && Listed(st.names, name)
    ensures Flattened(st, st, if st.varWidth[k] != w then Err(NameWidth) else Ok((st.varNode[k], w)), TVar(name, w))
  {
    hide StOk, Extends, Means, NameOf, AllCore, Join, UsesIn;
    StTables(st);
    if st.varWidth[k] != w {
      SecondVarWidth(st, k, name, w);
    } else {
      KnownVar(st, k, name, w);
      TabledMeans(st, k);
      StepSame(st, UsesOf(TVar(name, w)));
    }
  }

  lemma VarFlattened(st: St, name: Name, w: nat)
    requires StOk(st) && WidthOk(w) && forall k: nat :: k < |st.names.starts| ==> NameOf(st.names, k) != name
    ensures !Listed(st.names, name) && Flattened(st, WithVar(st, name, w), Ok((|st.nodes|, w)), TVar(name, w))
  {
    hide StOk, Extends, Means, NameOf, AllCore, UsesIn;
    VarMeans(st, name, w);
    NewVarUses(st, name, w);
    AllCorePush(st, WithVar(st, name, w), Core(Var(w)));
  }

  /** The tables a state keeps. */
  lemma StTables(st: St)
    requires StOk(st)
    ensures TableOk(st.names) && TableOk(st.anames) && TableOk(st.fnames)
    ensures |st.varNode| == |st.varWidth| == |st.names.starts| && |st.funcWidth| == |st.fnames.starts|
  {
  }

  // ---------- reads and calls ----------

  /** What the index's answer makes of a read. */
  lemma SelectIndex(st: St, st1: St, t: TBv, index: Result<(nat, nat), FlatError>)
    requires t.TSelect? && Flattened(st, st1, index, t.index)
    ensures index.Err? ==> Flattened(st, st1, Err(index.error), t)
    ensures index.Ok? ==> StOk(st1)
    ensures index.Ok? && index.value.1 != 32 ==> Flattened(st, st1, Err(BadArraySort), t)
  {
    hide StOk, UsesIn, Means;
  }

  lemma SelectFails(st: St, st1: St, st2: St, t: TBv, x: nat, error: FlatError)
    requires t.TSelect? && Flattened(st, st1, Ok((x, 32)), t.index) && FlattenedArray(st1, st2, [], Err(error), t.arr)
    ensures Flattened(st, st2, Err(error), t)
  {
    hide StOk, UsesIn, Means, Step;
  }

  lemma SelectFlattened(st: St, st1: St, st2: St, t: TBv, x: nat, aid: nat, levels: seq<nat>)
    requires t.TSelect? && Flattened(st, st1, Ok((x, 32)), t.index)
    requires FlattenedArray(st1, st2, [], Ok((aid, levels)), t.arr)
    ensures Flattened(st, WithSelect(st2, aid, x, levels), Ok((|st2.nodes|, 8)), t)
  {
    hide StOk, Means, UsesIn, Extends, Functional, Step, ChainMeans;
    var u, v, st3 := UsesOf(t.index), ArrayUses(t.arr), WithSelect(st2, aid, x, levels);
    StepFacts(st, st1, u);
    StepFacts(st1, st2, v);
    assert levels[0..] == levels;
    MeansKept(st1, st2, x, t.index);
    StepTrans(st, st1, st2, u, v);
    SelectMeans(st2, aid, x, levels, t.arr, t.index);
    NodeStepKeeps(st2, st3);
    AllCorePush(st2, st3, Select(aid, x, |st2.side|, |levels| / 2));
    StepOn(st, st2, st3, UsesOf(t));
  }

  /** What the arguments' answer makes of a call. */
  lemma CallArgs(st: St, st1: St, t: TBv, args: Result<seq<nat>, FlatError>)
    requires t.TCall? && FlattenedArgs(st, st1, [], args, t.args)
    ensures args.Err? ==> Flattened(st, st1, Err(args.error), t)
    ensures args.Ok? ==> StOk(st1)
    ensures args.Ok? && !WidthOk(t.w) ==> Flattened(st, st1, Err(BadWidth), t)
  {
    hide StOk, UsesIn, ArgsMean;
  }

  lemma CallFails(st: St, st1: St, t: TBv, ids: seq<nat>)
    requires t.TCall? && WidthOk(t.w) && FlattenedArgs(st, st1, [], Ok(ids), t.args)
    requires Second(UsesIn(st1).funs, t.name, t.w)
    ensures forall st2: St :: Flattened(st, st2, Err(FuncWidth), t)
  {
    hide StOk, UsesIn, ArgsMean, Step;
  }

  lemma CallFlattened(st: St, st1: St, st2: St, t: TBv, ids: seq<nat>, fid: nat)
    requires t.TCall? && WidthOk(t.w) && FlattenedArgs(st, st1, [], Ok(ids), t.args)
    requires Step(st1, st2, Uses({}, {(t.name, t.w)})) && !Second(UsesIn(st1).funs, t.name, t.w)
    requires fid < |st2.funcWidth| && st2.funcWidth[fid] == t.w && NameOf(st2.fnames, fid) == t.name
    ensures Flattened(st, WithCall(st2, fid, t.w, ids), Ok((|st2.nodes|, t.w)), t)
  {
    hide StOk, Means, UsesIn, Extends, Functional, Step, ArgsMean;
    var u, v, st3 := ArgsUses(t.args), Uses({}, {(t.name, t.w)}), WithCall(st2, fid, t.w, ids);
    StepFacts(st, st1, u);
    StepFacts(st1, st2, v);
    assert ids[0..] == ids;
    ArgsKept(st1, st2, ids, t.args);
    StepTrans(st, st1, st2, u, v);
    CallMeans(st2, fid, t.name, t.w, ids, t.args);
    NodeStepKeeps(st2, st3);
    AllCorePush(st2, st3, Call(fid, t.w, |st2.side|, |ids|));
    StepOn(st, st2, st3, UsesOf(t));
  }

  // ---------- the one-operand operators ----------

  /** The bounds on an operand of width w. */
  predicate UnaryOk(t: TBv, w: nat)
    requires Unary(t)
  {
    match t
    case TExtract(hi, lo, _) => !(hi < lo || hi >= w)
    case TZeroExt(extra, _) => !(extra > MAX_WIDTH || !WidthOk(w + extra))
    case TSignExt(extra, _) => !(extra > MAX_WIDTH || !WidthOk(w + extra))
    case TNot(_) => true
    case TNeg(_) => true
  }

  function UnaryWidth(t: TBv, w: nat): nat
    requires Unary(t) && UnaryOk(t, w)
  {
    match t
    case TExtract(hi, lo, _) => hi - lo + 1
    case TZeroExt(extra, _) => w + extra
    case TSignExt(extra, _) => w + extra
    case TNot(_) => w
    case TNeg(_) => w
  }

  /** What the operand's answer makes of the whole. */
  lemma UnaryWalk(st: St, st1: St, t: TBv, arg: Result<(nat, nat), FlatError>)
    requires Unary(t) && Flattened(st, st1, arg, t.a)
    ensures arg.Err? ==> WalkBv(UsesIn(st), t) == Err(arg.error)
    ensures arg.Ok? && !UnaryOk(t, arg.value.1) ==> WalkBv(UsesIn(st), t) == Err(BadWidth)
    ensures arg.Ok? && UnaryOk(t, arg.value.1) ==>
              && Sorted(t) && Spells(st1, UnaryNode(t, arg.value.0), t) && UnaryWidth(t, arg.value.1) == TreeWidth(t)
              && WalkBv(UsesIn(st), t) == Ok(UsesIn(st1)) && UsesOf(t) == UsesOf(t.a) && (Closed(t) <==> Closed(t.a))
  {
    hide UsesIn, Means, Step, AllCore;
  }

  class Flat {
    var nodes: seq<ExtNode>
    var bits: seq<bool>
    var side: seq<nat>
    var roots: seq<nat>
    var names: NameTable
    var varNode: seq<nat>
    var varWidth: seq<nat>
    var constValue: seq<nat>
    var constWidth: seq<nat>
    var constNode: seq<nat>
    var anames: NameTable
    var fnames: NameTable
    var funcWidth: seq<nat>

    /** Everything built so far except the roots. */
    ghost function State(): St
      reads this
    {
      St(nodes, bits, side, names, varNode, varWidth, constValue, constWidth, constNode, anames, fnames, funcWidth)
    }

    constructor ()
      ensures StOk(State()) && roots == [] && UsesIn(State()) == NO_USES && AllCore(State())
      ensures State() == EMPTY
    {
      nodes, bits, side, roots := [], [], [], [];
      names, varNode, varWidth := NameTable([], [], []), [], [];
      constValue, constWidth, constNode := [], [], [];
      anames, fnames, funcWidth := NameTable([], [], []), NameTable([], [], []), [];
    }

    method ConstFind(value: nat, w: nat) returns (found: Option<nat>)
      requires MemosOk(State())
      ensures found.Some? ==> found.value < |constNode| && constValue[found.value] == value && constWidth[found.value] == w
      ensures found.Some? ==> forall j: nat :: j < found.value ==> !(constValue[j] == value && constWidth[j] == w)
      ensures found.None? ==> forall k: nat :: k < |constNode| ==> !(constValue[k] == value && constWidth[k] == w)
    {
      found := None;
      for k := 0 to |constValue|
        invariant found.Some? ==> found.value < k && constValue[found.value] == value && constWidth[found.value] == w
        invariant found.Some? ==> forall j: nat :: j < found.value ==> !(constValue[j] == value && constWidth[j] == w)
        invariant found.None? ==> forall j: nat :: j < k ==> !(constValue[j] == value && constWidth[j] == w)
      {
        if found.None? && constValue[k] == value && constWidth[k] == w { found := Some(k); }
      }
    }

    /** The value's low w bits, least significant first. */
    static method BitsOf(value: nat, w: nat) returns (out: seq<bool>)
      ensures out == FromInt(value, w)
    {
      out := [];
      for j := 0 to w
        invariant out == FromInt(value, w)[..j]
      {
        FromIntBit(value, w, j);
        out := out + [value / Pow2(j) % 2 == 1];
      }
    }

    /** The node of a constant: the memo's, or a new one. */
    method FlatConst(value: nat, w: nat) returns (i: nat)
      requires StOk(State()) && WidthOk(w)
      modifies this
      ensures roots == old(roots) && Flattened(old(State()), State(), Ok((i, w)), TConst(value, w))
      ensures (State(), i) == PutConst(old(State()), value, w)
    {
      hide StOk, FromInt, Flattened;
      ghost var st := State();
      StMemos(st);
      var k := ConstFind(value, w);
      if k.Some? {
        MemoFlattened(st, k.value, value, w);
        MemoFirst(st, k.value, value, w);
        return constNode[k.value];
      }
      ConstFlattened(st, value, w);
      var word := BitsOf(value, w);
      i := |nodes|;
      nodes := nodes + [Core(Const(|bits|, w))];
      bits := bits + word;
      constValue, constWidth, constNode := constValue + [value], constWidth + [w], constNode + [i];
      assert State() == WithConst(st, value, w);
    }

    /** The node of a named variable, at its one width. */
    method FlatVar(name: Name, w: nat) returns (r: Result<(nat, nat), FlatError>)
      requires StOk(State()) && WidthOk(w)
      modifies this
      ensures roots == old(roots) && Flattened(old(State()), State(), r, TVar(name, w))
      ensures r.Ok? ==> (State(), r.value.0) == PutVar(old(State()), name, w)
    {
      hide StOk, Flattened, NameOf, TableOk;
      ghost var st := State();
      StTables(st);
      var k := TableFind(names, name);
      if k.Some? {
        TabledFlattened(st, k.value, name, w);
        if varWidth[k.value] != w { return Err(NameWidth); }
        TableFirst(names, k.value, name);
        return Ok((varNode[k.value], w));
      }
      VarFlattened(st, name, w);
      var tab := PushName(names, name);
      var i := |nodes|;
      nodes := nodes + [Core(Var(w))];
      names := tab;
      varNode, varWidth := varNode + [i], varWidth + [w];
      assert State() == WithVar(st, name, w);
      return Ok((i, w));
    }

    /** The id of an array: the table's, or the next. */
    method FlatArrayId(name: Name) returns (aid: nat)
      requires StOk(State())
      modifies this`anames
      ensures Step(old(State()), State(), NO_USES) && UsesIn(State()) == UsesIn(old(State()))
      ensures (State(), aid) == PutArrayName(old(State()), name)
      ensures aid < |anames.starts| && NameOf(anames, aid) == name
    {
      hide Extends, ExtWf, MemosOk, Tidy;
      ghost var st := State();
      JoinAssoc(UsesIn(st), NO_USES, NO_USES);
      var k := TableFind(anames, name);
      if k.Some? {
        StepSame(st, NO_USES);
        TableFirst(anames, k.value, name);
        return k.value;
      }
      WithArrayOk(st, name);
      WithNameOk(anames, name);
      aid := |anames.starts|;
      anames := PushName(anames, name);
      assert State() == WithArray(st, name);
      assert UsesIn(State()) == UsesIn(st);
    }

    /** The id of a function at its one result width. */
    method FlatFuncId(name: Name, w: nat) returns (r: Result<nat, FlatError>)
      requires StOk(State())
      modifies this`fnames, this`funcWidth
      ensures r.Err? ==> r.error == FuncWidth && Second(UsesIn(old(State())).funs, name, w)
      ensures r.Ok? ==> !Second(UsesIn(old(State())).funs, name, w)
      ensures r.Ok? ==> Step(old(State()), State(), Uses({}, {(name, w)}))
      ensures r.Ok? ==> (State(), r.value) == PutFunName(old(State()), name, w)
      ensures r.Ok? ==> r.value < |funcWidth| && funcWidth[r.value] == w && NameOf(fnames, r.value) == name
    {
      hide Extends, ExtWf, MemosOk, Tidy;
      ghost var st := State();
      var k := TableFind(fnames, name);
      if k.Some? {
        if funcWidth[k.value] != w {
          SecondFunWidth(st, k.value, name, w);
          return Err(FuncWidth);
        }
        KnownFun(st, k.value, name, w);
        StepSame(st, Uses({}, {(name, w)}));
        TableFirst(fnames, k.value, name);
        return Ok(k.value);
      }
      WithFuncOk(st, name, w);
      WithNameOk(fnames, name);
      NewFunUses(st, name, w);
      var g := |fnames.starts|;
      fnames := PushName(fnames, name);
      funcWidth := funcWidth + [w];
      assert State() == WithFunc(st, name, w);
      return Ok(g);
    }

    /** Push the operator node of a tree. */
    method PushCore(nd: DagNode, ghost t: TBv) returns (i: nat)
      requires StOk(State()) && Sorted(t) && Spells(State(), nd, t)
      modifies this`nodes
      ensures i == |old(nodes)| && State() == WithNode(old(State()), Core(nd))
      ensures Step(old(State()), State(), NO_USES) && Means(State(), i, t)
      ensures AllCore(State()) <==> AllCore(old(State()))
    {
      hide StOk, Extends, Means, Spells, Sorted;
      ghost var st := State();
      PushMeans(st, nd, t);
      i := |nodes|;
      nodes := nodes + [Core(nd)];
      assert State() == WithNode(st, Core(nd));
      assert UsesIn(State()) == UsesIn(st);
      JoinAssoc(UsesIn(st), NO_USES, NO_USES);
      AllCorePush(st, State(), Core(nd));
    }

    method PushCoreBool(nd: DagNode, ghost t: TBool) returns (i: nat)
      requires StOk(State()) && SortedBool(t) && SpellsBool(State(), nd, t)
      modifies this`nodes
      ensures i == |old(nodes)| && State() == WithNode(old(State()), Core(nd))
      ensures Step(old(State()), State(), NO_USES) && MeansBool(State(), i, t)
      ensures AllCore(State()) <==> AllCore(old(State()))
    {
      hide StOk, Extends, MeansBool, SpellsBool, SortedBool;
      ghost var st := State();
      PushMeansBool(st, nd, t);
      i := |nodes|;
      nodes := nodes + [Core(nd)];
      assert State() == WithNode(st, Core(nd));
      assert UsesIn(State()) == UsesIn(st);
      JoinAssoc(UsesIn(st), NO_USES, NO_USES);
      AllCorePush(st, State(), Core(nd));
    }

    // ---------- the walk ----------

    /** Flatten a bitvector tree: its node and its width. */
    method FlatBv(t: TBv) returns (r: Result<(nat, nat), FlatError>)
      requires StOk(State())
      modifies this
      ensures roots == old(roots) && Flattened(old(State()), State(), r, t)
      ensures r.Ok? ==> (State(), r.value.0) == PutBv(false, old(State()), t)
      decreases Size(t), 1
    {
      hide StOk, Step, Means, UsesIn;
      match t {
        case TConst(value, w) =>
          if !WidthOk(w) { return Err(BadWidth); }
          var i := FlatConst(value, w);
          r := Ok((i, w));
        case TVar(name, w) =>
          if !WidthOk(w) { return Err(BadWidth); }
          r := FlatVar(name, w);
        case TBin(_, _, _) => r := FlatBin(t);
        case TConcat(_, _) => r := FlatConcat(t);
        case TIte(_, _, _) => r := FlatIte(t);
        case TSelect(_, _) => r := FlatSelect(t);
        case TCall(_, _, _) => r := FlatCall(t);
        case _ => r := FlatUnary(t);
      }
    }

    /** Both operands, left to right. */
    method FlatPair(a: TBv, b: TBv) returns (r: Result<Operands, FlatError>)
      requires StOk(State())
      modifies this
      ensures roots == old(roots) && FlattenedPair(old(State()), State(), r, a, b)
      ensures r.Ok? ==> (State(), r.value.x, r.value.y) == PutPair(false, old(State()), a, b)
      decreases Size(a) + Size(b), 2
    {
      hide *;
      ghost var st := State();
      PairParts(false, st, a, b);
      var first := FlatBv(a);
      FirstOperand(st, State(), first, a, b);
      if first.Err? { return Err(first.error); }
      ghost var st1 := State();
      var second := FlatBv(b);
      SecondOperand(st, st1, State(), first.value, second, a, b);
      if second.Err? { return Err(second.error); }
      return Ok(Operands(first.value.0, first.value.1, second.value.0, second.value.1));
    }

    /** A width-preserving binary operator: equal widths, then the node. */
    method FlatBin(t: TBv) returns (r: Result<(nat, nat), FlatError>)
      requires StOk(State()) && t.TBin?
      modifies this
      ensures roots == old(roots) && Flattened(old(State()), State(), r, t)
      ensures r.Ok? ==> (State(), r.value.0) == PutBv(false, old(State()), t)
      decreases Size(t), 0
    {
      hide StOk, Means, UsesIn, Extends, Functional, Step;
      ghost var st := State();
      var both := FlatPair(t.a, t.b);
      if both.Err? { return Err(both.error); }
      var Operands(x, wx, y, wy) := both.value;
      if wx != wy { return Err(BadWidth); }
      ghost var st1 := State();
      StepFacts(st, st1, UsesOf(t));
      var i := PushCore(Bin(t.op, x, y), t);
      StepOn(st, st1, State(), UsesOf(t));
      return Ok((i, wx));
    }

    method FlatConcat(t: TBv) returns (r: Result<(nat, nat), FlatError>)
      requires StOk(State()) && t.TConcat?
      modifies this
      ensures roots == old(roots) && Flattened(old(State()), State(), r, t)
      ensures r.Ok? ==> (State(), r.value.0) == PutBv(false, old(State()), t)
      decreases Size(t), 0
    {
      hide StOk, Means, UsesIn, Extends, Functional, Step;
      ghost var st := State();
      var both := FlatPair(t.a, t.b);
      if both.Err? { return Err(both.error); }
      var Operands(x, wx, y, wy) := both.value;
      if !WidthOk(wx + wy) { return Err(BadWidth); }
      ghost var st1 := State();
      StepFacts(st, st1, UsesOf(t));
      var i := PushCore(Concat(x, y), t);
      StepOn(st, st1, State(), UsesOf(t));
      return Ok((i, wx + wy));
    }

    /** The condition first, then both branches, of one width. */
    method FlatIte(t: TBv) returns (r: Result<(nat, nat), FlatError>)
      requires StOk(State()) && t.TIte?
      modifies this
      ensures roots == old(roots) && Flattened(old(State()), State(), r, t)
      ensures r.Ok? ==> (State(), r.value.0) == PutBv(false, old(State()), t)
      decreases Size(t), 0
    {
      hide StOk, Means, MeansBool, UsesIn, Extends, Functional, Step;
      ghost var st, u, v := State(), BoolUses(t.c), Join(UsesOf(t.a), UsesOf(t.b));
      JoinAssoc(UsesIn(st), u, v);
      var c := FlatBool(t.c);
      if c.Err? { return Err(c.error); }
      ghost var st1 := State();
      StepFacts(st, st1, u);
      var both := FlatPair(t.a, t.b);
      if both.Err? { return Err(both.error); }
      var Operands(x, wx, y, wy) := both.value;
      if wx != wy { return Err(BadWidth); }
      ghost var st2 := State();
      StepFacts(st1, st2, v);
      MeansBoolKept(st1, st2, c.value, t.c);
      StepTrans(st, st1, st2, u, v);
      var i := PushCore(Ite(c.value, x, y), t);
      StepOn(st, st2, State(), UsesOf(t));
      return Ok((i, wx));
    }

    /** extract, the extensions, bvnot and bvneg: the operand, then the node. */
    method FlatUnary(t: TBv) returns (r: Result<(nat, nat), FlatError>)
      requires StOk(State()) && Unary(t)
      modifies this
      ensures roots == old(roots) && Flattened(old(State()), State(), r, t)
      ensures r.Ok? ==> (State(), r.value.0) == PutBv(false, old(State()), t)
      decreases Size(t), 0
    {
      hide StOk, Means, UsesIn, Extends, Functional, Step, WalkBv, Sorted, Spells, TreeWidth, AllCore, Closed;
      ghost var st := State();
      var arg := FlatBv(t.a);
      UnaryWalk(st, State(), t, arg);
      if arg.Err? { return Err(arg.error); }
      var (x, w) := arg.value;
      if !UnaryOk(t, w) { return Err(BadWidth); }
      ghost var st1 := State();
      StepFacts(st, st1, UsesOf(t));
      var i := PushCore(UnaryNode(t, x), t);
      StepOn(st, st1, State(), UsesOf(t));
      return Ok((i, UnaryWidth(t, w)));
    }

    /** The index, then the chain outermost store first, then the node. */
    method FlatSelect(t: TBv) returns (r: Result<(nat, nat), FlatError>)
      requires StOk(State()) && t.TSelect?
      modifies this
      ensures roots == old(roots) && Flattened(old(State()), State(), r, t)
      ensures r.Ok? ==> (State(), r.value.0) == PutBv(false, old(State()), t)
      decreases Size(t), 0
    {
      hide StOk, Flattened, FlattenedArray;
      ghost var st := State();
      var index := FlatBv(t.index);
      ghost var st1 := State();
      SelectIndex(st, st1, t, index);
      if index.Err? { return Err(index.error); }
      if index.value.1 != 32 { return Err(BadArraySort); }
      var chain := FlatArray(t.arr, []);
      ghost var st2 := State();
      if chain.Err? {
        SelectFails(st, st1, st2, t, index.value.0, chain.error);
        return Err(chain.error);
      }
      var (aid, levels) := chain.value;
      SelectFlattened(st, st1, st2, t, index.value.0, aid, levels);
      var i := |nodes|;
      nodes := nodes + [Select(aid, index.value.0, |side|, |levels| / 2)];
      side := side + levels;
      assert State() == WithSelect(st2, aid, index.value.0, levels);
      return Ok((i, 8));
    }

    /** The arguments in order, then the function, then the node. */
    method FlatCall(t: TBv) returns (r: Result<(nat, nat), FlatError>)
      requires StOk(State()) && t.TCall?
      modifies this
      ensures roots == old(roots) && Flattened(old(State()), State(), r, t)
      ensures r.Ok? ==> (State(), r.value.0) == PutBv(false, old(State()), t)
      decreases Size(t), 0
    {
      hide StOk, Flattened, FlattenedArgs, Step, UsesIn, Second;
      ghost var st := State();
      var args := FlatArgs(t.args, []);
      ghost var st1 := State();
      CallArgs(st, st1, t, args);
      if args.Err? { return Err(args.error); }
      if !WidthOk(t.w) { return Err(BadWidth); }
      var fid := FlatFuncId(t.name, t.w);
      var ids := args.value;
      if fid.Err? {
        CallFails(st, st1, t, ids);
        return Err(fid.error);
      }
      ghost var st2 := State();
      CallFlattened(st, st1, st2, t, ids, fid.value);
      var i := |nodes|;
      nodes := nodes + [Call(fid.value, t.w, |side|, |ids|)];
      side := side + ids;
      assert State() == WithCall(st2, fid.value, t.w, ids);
      return Ok((i, t.w));
    }

    /** Flatten a store chain, outermost store first; each level's index then
        its value is appended to levels. */
    method FlatArray(a: TArray, levels: seq<nat>) returns (r: Result<(nat, seq<nat>), FlatError>)
      requires StOk(State())
      modifies this
      ensures roots == old(roots) && FlattenedArray(old(State()), State(), levels, r, a)
      ensures r.Ok? ==> (State(), r.value.0, r.value.1) == PutArray(false, old(State()), a, levels)
      decreases ArraySize(a), 1
    {
      hide StOk, Means, UsesIn, Extends, Functional, Step;
      if a.TBase? {
        var aid := FlatArrayId(a.name);
        assert levels[|levels|..] == [];
        return Ok((aid, levels));
      }
      r := FlatStore(a, levels);
    }

    method FlatStore(a: TArray, levels: seq<nat>) returns (r: Result<(nat, seq<nat>), FlatError>)
      requires StOk(State()) && a.TStore?
      modifies this
      ensures roots == old(roots) && FlattenedArray(old(State()), State(), levels, r, a)
      ensures r.Ok? ==> (State(), r.value.0, r.value.1) == PutArray(false, old(State()), a, levels)
      decreases ArraySize(a), 0
    {
      hide StOk, Means, UsesIn, Extends, Functional, Step, NameOf;
      ghost var st, u, v, w := State(), UsesOf(a.index), UsesOf(a.value), ArrayUses(a.arr);
      ghost var all := Join(UsesIn(st), ArrayUses(a));
      JoinAssoc(UsesIn(st), u, v);
      JoinAssoc(UsesIn(st), Join(u, v), w);
      var index := FlatBv(a.index);
      if index.Err? { return Err(index.error); }
      ghost var st1 := State();
      StepFacts(st, st1, u);
      if index.value.1 != 32 { return Err(BadArraySort); }
      var value := FlatBv(a.value);
      if value.Err? { return Err(value.error); }
      ghost var st2 := State();
      StepFacts(st1, st2, v);
      StepTrans(st, st1, st2, u, v);
      if value.value.1 != 8 { return Err(BadArraySort); }
      var longer := levels + [index.value.0] + [value.value.0];
      var rest := FlatArray(a.arr, longer);
      if rest.Err? { return Err(rest.error); }
      ghost var st3 := State();
      StepFacts(st2, st3, w);
      StepTrans(st, st2, st3, Join(u, v), w);
      MeansKept(st1, st2, index.value.0, a.index);
      MeansKept(st2, st3, index.value.0, a.index);
      MeansKept(st2, st3, value.value.0, a.value);
      LongerChain(levels, index.value.0, value.value.0, rest.value.1);
      return rest;
    }

    /** Flatten every argument in order, appending the nodes to ids. */
    method FlatArgs(args: TArgs, ids: seq<nat>) returns (r: Result<seq<nat>, FlatError>)
      requires StOk(State())
      modifies this
      ensures roots == old(roots) && FlattenedArgs(old(State()), State(), ids, r, args)
      ensures r.Ok? ==> (State(), r.value) == PutArgs(false, old(State()), args, ids)
      decreases ArgsSize(args), 0
    {
      hide StOk, Means, UsesIn, Extends, Functional, Step;
      ghost var st := State();
      if args.TNil? {
        StepNone(st);
        assert ids[|ids|..] == [];
        return Ok(ids);
      }
      ghost var u, v := UsesOf(args.head), ArgsUses(args.tail);
      JoinAssoc(UsesIn(st), u, v);
      var head := FlatBv(args.head);
      if head.Err? { return Err(head.error); }
      ghost var st1 := State();
      StepFacts(st, st1, u);
      r := FlatArgs(args.tail, ids + [head.value.0]);
      if r.Err? { return; }
      StepFacts(st1, State(), v);
      StepTrans(st, st1, State(), u, v);
      MeansKept(st1, State(), head.value.0, args.head);
      assert r.value[|ids|..][0] == head.value.0 && r.value[|ids|..][1..] == r.value[|ids| + 1..];
    }

    /** A comparison: both operands, equal widths, then the node. */
    method FlatCmp(t: TBool) returns (r: Result<nat, FlatError>)
      requires StOk(State()) && t.BCmp?
      modifies this
      ensures roots == old(roots) && FlattenedBool(old(State()), State(), r, t)
      ensures r.Ok? ==> (State(), r.value) == PutBool(false, old(State()), t)
      decreases BoolSize(t), 0
    {
      hide StOk, Means, MeansBool, UsesIn, Extends, Functional, Step;
      ghost var st := State();
      var both := FlatPair(t.a, t.b);
      if both.Err? { return Err(both.error); }
      var Operands(x, wx, y, wy) := both.value;
      if wx != wy { return Err(BadWidth); }
      ghost var st1 := State();
      StepFacts(st, st1, BoolUses(t));
      var i := PushCoreBool(Cmp(t.cmp, x, y), t);
      StepOn(st, st1, State(), BoolUses(t));
      return Ok(i);
    }

    /** A conjunction or disjunction. */
    method FlatConnective(t: TBool) returns (r: Result<nat, FlatError>)
      requires StOk(State()) && (t.BAnd? || t.BOr?)
      modifies this
      ensures roots == old(roots) && FlattenedBool(old(State()), State(), r, t)
      ensures r.Ok? ==> (State(), r.value) == PutBool(false, old(State()), t)
      decreases BoolSize(t), 0
    {
      hide StOk, MeansBool, UsesIn, Extends, Functional, Step, PutBool;
      ghost var st, u, v := State(), BoolUses(t.x), BoolUses(t.y);
      PutTwo(st, t);
      JoinAssoc(UsesIn(st), u, v);
      var x := FlatBool(t.x);
      if x.Err? { return x; }
      ghost var st1 := State();
      StepFacts(st, st1, u);
      var y := FlatBool(t.y);
      if y.Err? { return y; }
      ghost var st2 := State();
      StepFacts(st1, st2, v);
      MeansBoolKept(st1, st2, x.value, t.x);
      StepTrans(st, st1, st2, u, v);
      var i := PushCoreBool(if t.BAnd? then BoolAnd(x.value, y.value) else BoolOr(x.value, y.value), t);
      StepOn(st, st2, State(), BoolUses(t));
      return Ok(i);
    }

    /** Flatten a boolean tree: its node. */
    method FlatBool(t: TBool) returns (r: Result<nat, FlatError>)
      requires StOk(State())
      modifies this
      ensures roots == old(roots) && FlattenedBool(old(State()), State(), r, t)
      ensures r.Ok? ==> (State(), r.value) == PutBool(false, old(State()), t)
      decreases BoolSize(t), 1
    {
      hide StOk, MeansBool, UsesIn, Extends, Functional, Step;
      match t {
        case BCmp(_, _, _) => r := FlatCmp(t);
        case BNot(x) =>
          ghost var st := State();
          r := FlatBool(x);
          if r.Err? { return; }
          ghost var st1 := State();
          StepFacts(st, st1, BoolUses(t));
          var i := PushCoreBool(Not(r.value), t);
          StepOn(st, st1, State(), BoolUses(t));
          return Ok(i);
        case _ => r := FlatConnective(t);
      }
    }

    /** Flatten the asserted trees in order, each becoming a root. */
    method FlattenRoots(ts: seq<TBool>) returns (r: Result<Unit, FlatError>)
      requires StOk(State()) && roots == [] && UsesIn(State()) == NO_USES && AllCore(State()) && State() == EMPTY
      modifies this
      ensures r.Ok? ==> FlatOf(State(), roots, ts) && (State(), roots) == PutAll(false, ts)
      ensures r.Ok? ==> WalkAll(NO_USES, ts) == Ok(UsesIn(State()))
      ensures r.Err? ==> WalkAll(NO_USES, ts) == Err(r.error)
    {
      hide StOk, MeansBool, UsesIn, AllCore, Functional, Extends;
      var k := 0;
      assert ts[..0] == [];
      while k < |ts|
        invariant 0 <= k <= |ts| && FlatOf(State(), roots, ts[..k])
        invariant WalkAll(NO_USES, ts[..k]) == Ok(UsesIn(State())) && (State(), roots) == PutAll(false, ts[..k])
      {
        ghost var st, before := State(), roots;
        var root := FlatBool(ts[k]);
        UsesSplit(ts, k);
        WalkSplit(NO_USES, ts, k);
        if root.Err? {
          WalkStops(NO_USES, ts, k + 1);
          return Err(root.error);
        }
        StepFacts(st, State(), BoolUses(ts[k]));
        roots := roots + [root.value];
        PutSplit(false, ts, k);
        RootsStep(st, State(), before, root.value, ts, k);
        k := k + 1;
      }
      assert ts[..|ts|] == ts;
      return Ok(Unit);
    }
  }

  /** The state holds the trees: every root means its tree, the names are
      those the trees use, and it is closed exactly when they are. */
  ghost predicate FlatOf(st: St, roots: seq<nat>, ts: seq<TBool>)
  {
    && StOk(st) && |roots| == |ts| && (forall k :: 0 <= k < |ts| ==> MeansBool(st, roots[k], ts[k]))
    && UsesIn(st) == TreeUses(ts) && (AllCore(st) <==> AllClosed(ts))
  }

  lemma FlatTables(st: St, roots: seq<nat>, ts: seq<TBool>)
    requires FlatOf(st, roots, ts)
    ensures TableOk(st.names) && |st.varNode| == |st.varWidth| == |st.names.starts| && VarPairs(st) == TreeUses(ts).vars
  {
  }

  lemma UsesSplit(ts: seq<TBool>, k: nat)
    requires k < |ts|
    ensures TreeUses(ts[..k + 1]) == Join(TreeUses(ts[..k]), BoolUses(ts[k]))
    ensures TreeUses(ts[..k + 1]).vars <= TreeUses(ts).vars && TreeUses(ts[..k + 1]).funs <= TreeUses(ts).funs
  {
    assert ts[..k + 1][..k] == ts[..k];
    UsesPrefix(ts, k + 1);
  }

  lemma {:induction false} UsesPrefix(ts: seq<TBool>, k: nat)
    requires k <= |ts|
    ensures TreeUses(ts[..k]).vars <= TreeUses(ts).vars && TreeUses(ts[..k]).funs <= TreeUses(ts).funs
    decreases |ts|
  {
    if k < |ts| {
      UsesPrefix(ts[..|ts| - 1], k);
      assert ts[..|ts| - 1][..k] == ts[..k];
    } else {
      assert ts[..k] == ts;
    }
  }

  /** One more root. */
  lemma RootsStep(st: St, st': St, roots: seq<nat>, root: nat, ts: seq<TBool>, k: nat)
    requires k < |ts| && FlatOf(st, roots, ts[..k]) && FlattenedBool(st, st', Ok(root), ts[k])
    ensures FlatOf(st', roots + [root], ts[..k + 1])
  {
    hide StOk, MeansBool, UsesIn, AllCore, Extends;
    UsesSplit(ts, k);
    forall j | 0 <= j < k ensures MeansBool(st', (roots + [root])[j], ts[..k + 1][j]) {
      assert ts[..k + 1][j] == ts[..k][j];
      MeansBoolKept(st, st', roots[j], ts[..k][j]);
    }
    assert ts[..k + 1] == ts[..k] + [ts[k]];
    ClosedSnoc(ts[..k], ts[k]);
  }

  predicate AllClosed(ts: seq<TBool>) { forall k :: 0 <= k < |ts| ==> ClosedBool(ts[k]) }

  lemma ClosedSnoc(ts: seq<TBool>, t: TBool)
    ensures AllClosed(ts + [t]) <==> AllClosed(ts) && ClosedBool(t)
  {
    if AllClosed(ts + [t]) {
      forall j | 0 <= j < |ts| ensures ClosedBool(ts[j]) { assert (ts + [t])[j] == ts[j]; }
      assert (ts + [t])[|ts|] == t;
    }
  }

  /** THE FLATTENING.  It succeeds exactly on sorted trees that use every
      variable and every function at one width; then every root means its
      tree, by name.  A refusal is the walk's first complaint. */
  method FlattenTree(ts: seq<TBool>) returns (r: Result<Flat, FlatError>)
    ensures r.Ok? <==> AllSorted(ts) && Functional(TreeUses(ts).vars) && Functional(TreeUses(ts).funs)
    ensures r.Ok? ==> fresh(r.value) && FlatOf(r.value.State(), r.value.roots, ts)
    ensures r.Ok? ==> (r.value.State(), r.value.roots) == PutAll(false, ts)
    ensures r.Err? ==> WalkAll(NO_USES, ts) == Err(r.error)
  {
    hide StOk, UsesIn, AllCore, Functional, MeansBool;
    var f := new Flat();
    var walked := f.FlattenRoots(ts);
    FromNone(ts);
    if walked.Err? { return Err(walked.error); }
    return Ok(f);
  }

  /** The node list of a closed flattening. */
  method ProjectCore(nodes: seq<ExtNode>) returns (r: Result<Dag, FlatError>)
    ensures r.Ok? <==> forall i :: 0 <= i < |nodes| ==> nodes[i].Core?
    ensures r.Ok? ==> |r.value| == |nodes| && forall i :: 0 <= i < |nodes| ==> nodes[i] == Core(r.value[i])
    ensures r.Err? ==> r.error == NotCore
  {
    var out := [];
    for i := 0 to |nodes|
      invariant |out| == i && forall j :: 0 <= j < i ==> nodes[j] == Core(out[j])
    {
      match nodes[i] {
        case Core(nd) => out := out + [nd];
        case Select(_, _, _, _) => return Err(NotCore);
        case Call(_, _, _, _) => return Err(NotCore);
      }
    }
    return Ok(out);
  }

  /** Two flattened operands and their widths. */
  datatype Operands = Operands(x: nat, wx: nat, y: nat, wy: nat)

  /** Flattening two operands. */
  ghost predicate FlattenedPair(st: St, st': St, r: Result<Operands, FlatError>, a: TBv, b: TBv)
  {
    match r
    case Ok(both) =>
      && Sorted(a) && Sorted(b) && Step(st, st', Join(UsesOf(a), UsesOf(b)))
      && Means(st', both.x, a) && both.wx == TreeWidth(a) && Means(st', both.y, b) && both.wy == TreeWidth(b)
      && (AllCore(st') <==> AllCore(st) && Closed(a) && Closed(b)) && WalkPair(UsesIn(st), a, b) == Ok(UsesIn(st'))
    case Err(error) => WalkPair(UsesIn(st), a, b) == Err(error)
  }

  lemma FirstOperand(st: St, st1: St, first: Result<(nat, nat), FlatError>, a: TBv, b: TBv)
    requires Flattened(st, st1, first, a)
    ensures Size(a) < Size(a) + Size(b) && Size(b) < Size(a) + Size(b)
    ensures first.Ok? ==> StOk(st1)
    ensures first.Err? ==> FlattenedPair(st, st1, Err(first.error), a, b)
  {
    hide UsesIn, Sorted, UsesOf, Functional, StOk, Means, WalkBv;
  }

  lemma SecondOperand(st: St, st1: St, st2: St, x: (nat, nat), second: Result<(nat, nat), FlatError>, a: TBv, b: TBv)
    requires Flattened(st, st1, Ok(x), a) && Flattened(st1, st2, second, b)
    ensures second.Ok? ==> FlattenedPair(st, st2, Ok(Operands(x.0, x.1, second.value.0, second.value.1)), a, b)
    ensures second.Err? ==> FlattenedPair(st, st2, Err(second.error), a, b)
  {
    hide UsesIn, Sorted, UsesOf, Functional, StOk, Means, Extends, TreeWidth, Closed, AllCore, WalkBv;
    JoinAssoc(UsesIn(st), UsesOf(a), UsesOf(b));
    if second.Ok? {
      MeansKept(st1, st2, x.0, a);
      StepTrans(st, st1, st2, UsesOf(a), UsesOf(b));
    }
  }

  lemma StepFacts(a: St, b: St, u: Uses)
    requires Step(a, b, u)
    ensures StOk(b) && Extends(a, b) && UsesIn(b) == Join(UsesIn(a), u)
  {
  }

  /** A node that uses no name adds nothing to the step before it. */
  lemma StepOn(a: St, b: St, c: St, u: Uses)
    requires Step(a, b, u) && Step(b, c, NO_USES)
    ensures Step(a, c, u) && UsesIn(c) == UsesIn(b)
  {
    hide StOk, Extends, UsesIn, Join;
    JoinAssoc(UsesIn(b), NO_USES, NO_USES);
    StepTrans(a, b, c, u, NO_USES);
    JoinAssoc(u, NO_USES, NO_USES);
  }

  lemma StepNone(a: St)
    requires StOk(a)
    ensures Step(a, a, NO_USES)
  {
    JoinAssoc(UsesIn(a), NO_USES, NO_USES);
  }

  /** A change to the nodes and the side table alone uses no name. */
  lemma NodeStepKeeps(a: St, b: St)
    requires StOk(b) && Extends(a, b) && b.names == a.names && b.varWidth == a.varWidth
    requires b.fnames == a.fnames && b.funcWidth == a.funcWidth
    ensures Step(a, b, NO_USES)
  {
    assert UsesIn(b) == UsesIn(a);
    JoinAssoc(UsesIn(a), NO_USES, NO_USES);
  }

  lemma LongerChain(levels: seq<nat>, x: nat, v: nat, out: seq<nat>)
    requires levels + [x] + [v] <= out
    ensures levels <= out && |out[|levels|..]| >= 2
    ensures out[|levels|..][0] == x && out[|levels|..][1] == v && out[|levels|..][2..] == out[|levels + [x] + [v]|..]
  {
  }

  lemma StMemos(st: St)
    requires StOk(st)
    ensures MemosOk(st)
  {
  }

  lemma StepSame(st: St, uses: Uses)
    requires StOk(st) && Join(UsesIn(st), uses) == UsesIn(st)
    ensures Step(st, st, uses)
  {
  }
}
