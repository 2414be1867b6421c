/** The state changes of a flattening that touch a table: constants, named
    variables, arrays, functions, store chains and call arguments. */
module FlatLeaves {
  import opened Bits
  import opened Dag
  import opened Sliver
  import opened SliverSound
  import opened Tree
  import opened FlatState

  // ---------- the widths names have been used at ----------

  function VarPairs(st: St): set<(Name, nat)>
  {
    set k | 0 <= k < |st.varWidth| :: (NameOf(st.names, k), st.varWidth[k])
  }

  function FunPairs(st: St): set<(Name, nat)>
  {
    set k | 0 <= k < |st.funcWidth| :: (NameOf(st.fnames, k), st.funcWidth[k])
  }

  function UsesIn(st: St): Uses { Uses(VarPairs(st), FunPairs(st)) }

  /** Every node is a closed one. */
  predicate AllCore(st: St) { forall i :: 0 <= i < |st.nodes| ==> st.nodes[i].Core? }

  // ---------- constants ----------

  function WithConst(st: St, value: nat, w: nat): St
  {
    st.(nodes := st.nodes + [Core(Const(|st.bits|, w))], bits := st.bits + FromInt(value, w),
        constValue := st.constValue + [value], constWidth := st.constWidth + [w], constNode := st.constNode + [|st.nodes|])
  }

  lemma ConstMemos(st: St, value: nat, w: nat)
    requires StOk(st)
    ensures MemosOk(WithConst(st, value, w))
  {
    hide ExtWf, FromInt, Tidy;
    var st' := WithConst(st, value, w);
    assert st'.bits[|st.bits|..|st.bits| + w] == FromInt(value, w);
    forall k: nat | k < |st'.constNode| ensures MemoOk(st', k) {
      if k < |st.constNode| {
        assert MemoOk(st, k);
        var nd := st.nodes[st.constNode[k]].nd;
        assert ExtWfAt(st.nodes, |st.bits|, st.side, st.constNode[k]) by { WfHere(st, st.constNode[k]); }
        assert st'.bits[nd.s..nd.s + nd.w] == st.bits[nd.s..nd.s + nd.w];
      }
    }
  }

  lemma ConstMeans(st: St, value: nat, w: nat)
    requires StOk(st) && WidthOk(w)
    ensures StOk(WithConst(st, value, w)) && Extends(st, WithConst(st, value, w))
    ensures Means(WithConst(st, value, w), |st.nodes|, TConst(value, w))
  {
    hide ExtWf, FromInt, Tidy, MemosOk;
    var st' := WithConst(st, value, w);
    WfGrow(st, st', Core(Const(|st.bits|, w)));
    TidyGrow(st, st', Core(Const(|st.bits|, w)));
    assert st'.bits[|st.bits|..|st.bits| + w] == FromInt(value, w);
    ConstMemos(st, value, w);
    forall I: Interp, mdl: Model | Matches(st', I, mdl)
      ensures ExtVal(Q(st'), mdl, |st.nodes|) == TreeVal(TConst(value, w), I)
    {
    }
  }

  /** A memoized constant means the constant. */
  lemma MemoMeans(st: St, k: nat)
    requires StOk(st) && k < |st.constNode| && st.constWidth[k] > 0
    ensures Means(st, st.constNode[k], TConst(st.constValue[k], st.constWidth[k]))
  {
    var i := st.constNode[k];
    assert MemoOk(st, k);
    ExtWidthsPrefix(st.nodes, i + 1, |st.nodes|);
    assert ExtWidths(st.nodes, |st.nodes|)[i] == ExtWidths(st.nodes, |st.nodes|)[..i + 1][i];
  }

  // ---------- variables ----------

  function WithVar(st: St, name: Name, w: nat): St
  {
    st.(nodes := st.nodes + [Core(Var(w))], names := WithName(st.names, name),
        varNode := st.varNode + [|st.nodes|], varWidth := st.varWidth + [w])
  }

  lemma VarMeans(st: St, name: Name, w: nat)
    requires StOk(st) && WidthOk(w) && forall k: nat :: k < |st.names.starts| ==> NameOf(st.names, k) != name
    ensures StOk(WithVar(st, name, w)) && Extends(st, WithVar(st, name, w))
    ensures Means(WithVar(st, name, w), |st.nodes|, TVar(name, w))
  {
    hide ExtWf, Tidy;
    var st' := WithVar(st, name, w);
    WfGrow(st, st', Core(Var(w)));
    TidyGrow(st, st', Core(Var(w)));
    WithNameOk(st.names, name);
    forall k: nat | k < |st'.constNode| ensures MemoOk(st', k) { assert MemoOk(st, k); }
    forall I: Interp, mdl: Model | Matches(st', I, mdl)
      ensures ExtVal(Q(st'), mdl, |st.nodes|) == TreeVal(TVar(name, w), I)
    {
      assert VarMatches(st', I, mdl, |st.varNode|);
    }
  }

  /** A tabled variable means the variable. */
  lemma TabledMeans(st: St, k: nat)
    requires StOk(st) && k < |st.varNode| && st.varWidth[k] > 0
    ensures Means(st, st.varNode[k], TVar(NameOf(st.names, k), st.varWidth[k]))
  {
    var i := st.varNode[k];
    ExtWidthsPrefix(st.nodes, i + 1, |st.nodes|);
    assert ExtWidths(st.nodes, |st.nodes|)[i] == ExtWidths(st.nodes, |st.nodes|)[..i + 1][i];
    forall I: Interp, mdl: Model | Matches(st, I, mdl)
      ensures ExtVal(Q(st), mdl, i) == TreeVal(TVar(NameOf(st.names, k), st.varWidth[k]), I)
    {
      assert VarMatches(st, I, mdl, k);
    }
  }

  // ---------- arrays ----------

  function WithArray(st: St, name: Name): St { st.(anames := WithName(st.anames, name)) }

  lemma WithArrayOk(st: St, name: Name)
    requires StOk(st) && forall k: nat :: k < |st.anames.starts| ==> NameOf(st.anames, k) != name
    ensures StOk(WithArray(st, name)) && Extends(st, WithArray(st, name))
  {
    hide ExtWf, Tidy;
    WithNameOk(st.anames, name);
    TidySame(st, WithArray(st, name));
    forall k: nat | k < |st.constNode| ensures MemoOk(WithArray(st, name), k) { assert MemoOk(st, k); }
  }

  /** The levels, outermost store first, and the array id mean the tree. */
  ghost predicate ChainMeans(st: St, aid: nat, levels: seq<nat>, a: TArray)
    decreases a
  {
    match a
    case TBase(name) => levels == [] && aid < |st.anames.starts| && NameOf(st.anames, aid) == name
    case TStore(arr, index, value) =>
      |levels| >= 2 && Means(st, levels[0], index) && TreeWidth(index) == 32 && Means(st, levels[1], value) &&
      TreeWidth(value) == 8 && ChainMeans(st, aid, levels[2..], arr)
  }

  lemma {:induction false} ChainKept(st: St, st': St, aid: nat, levels: seq<nat>, a: TArray)
    requires StOk(st) && Extends(st, st') && ChainMeans(st, aid, levels, a)
    ensures ChainMeans(st', aid, levels, a)
    decreases a
  {
    hide StOk, Extends, Means, NameOf;
    match a {
      case TBase(name) => ArrayNameKept(st, st', aid);
      case TStore(arr, index, value) =>
        MeansKept(st, st', levels[0], index);
        MeansKept(st, st', levels[1], value);
        ChainKept(st, st', aid, levels[2..], arr);
    }
  }

  lemma ArrayNameKept(st: St, st': St, aid: nat)
    requires StOk(st) && Extends(st, st') && aid < |st.anames.starts|
    ensures aid < |st'.anames.starts| && NameOf(st'.anames, aid) == NameOf(st.anames, aid)
  {
    NameKept(st.anames, st'.anames, aid);
  }

  lemma {:induction false} ChainBase(st: St, aid: nat, levels: seq<nat>, a: TArray)
    requires ChainMeans(st, aid, levels, a)
    ensures aid < |st.anames.starts|
    decreases a
  {
    if a.TStore? { ChainBase(st, aid, levels[2..], a.arr); }
  }

  /** The first level and the rest, in the side table. */
  lemma LevelsAt(side: seq<nat>, off: nat, levels: seq<nat>)
    requires |levels| >= 2 && off + |levels| <= |side| && side[off..off + |levels|] == levels
    ensures side[off] == levels[0] && side[off + 1] == levels[1]
    ensures side[off + 2..off + 2 + |levels[2..]|] == levels[2..]
  {
    assert side[off] == side[off..off + |levels|][0] && side[off + 1] == side[off..off + |levels|][1];
    assert side[off + 2..off + 2 + |levels[2..]|] == side[off..off + |levels|][2..];
  }

  /** Levels in the side table from off on, as the check of node lists reads
      them. */
  lemma {:induction false} ChainWfAt(st: St, side: seq<nat>, off: nat, aid: nat, levels: seq<nat>, a: TArray)
    requires ChainMeans(st, aid, levels, a) && off + |levels| <= |side| && side[off..off + |levels|] == levels
    ensures |levels| % 2 == 0 && ChainWf(ExtWidths(st.nodes, |st.nodes|), side, off, |levels| / 2)
    decreases a
  {
    if a.TStore? {
      LevelsAt(side, off, levels);
      ChainWfAt(st, side, off + 2, aid, levels[2..], a.arr);
      var ws := ExtWidths(st.nodes, |st.nodes|);
      assert LevelWf(ws, side, off);
      forall l | 0 <= l < |levels| / 2 ensures LevelWf(ws, side, off + 2 * l) {
        if l > 0 { assert LevelWf(ws, side, off + 2 + 2 * (l - 1)); }
      }
    }
  }

  lemma ChainBaseValue(st: St, aid: nat, levels: seq<nat>, a: TArray, I: Interp, mdl: Model, v: Bv)
    requires a.TBase? && ChainMeans(st, aid, levels, a) && Matches(st, I, mdl)
    ensures ArrayAt(mdl, aid, v) == ArrayNamed(I, a.name, v)
  {
  }

  /** Walking the levels reads the array tree. */
  lemma {:induction false} ChainValue(st: St, side: seq<nat>, off: nat, aid: nat, levels: seq<nat>, a: TArray, I: Interp,
                                      mdl: Model, v: Bv)
    requires ChainMeans(st, aid, levels, a) && Matches(st, I, mdl)
    requires off + |levels| <= |side| && side[off..off + |levels|] == levels
    ensures ReadChain(side, ExtVals(Q(st), mdl, |st.nodes|), v, off, |levels| / 2, ArrayAt(mdl, aid, v)) == ReadAt(a, I, v)
    decreases a
  {
    hide Means, ExtVals, Matches, At, TreeVal, TreeWidth, ArrayAt, ArrayNamed, NameOf;
    if a.TBase? {
      ChainBaseValue(st, aid, levels, a, I, mdl, v);
    } else {
      LevelsAt(side, off, levels);
      ChainValue(st, side, off + 2, aid, levels[2..], a.arr, I, mdl, v);
      MeansAt(st, I, mdl, levels[0], a.index);
      MeansAt(st, I, mdl, levels[1], a.value);
    }
  }

  lemma MeansWidth(st: St, j: nat, t: TBv)
    requires Means(st, j, t)
    ensures j < |st.nodes| && ExtWidths(st.nodes, |st.nodes|)[j] == TreeWidth(t)
  {
    ExtWidthsPrefix(st.nodes, j + 1, |st.nodes|);
    assert ExtWidths(st.nodes, |st.nodes|)[j] == ExtWidths(st.nodes, |st.nodes|)[..j + 1][j];
  }

  /** A well-formed node appended after its side entries keeps the state. */
  lemma Grown(st: St, entries: seq<nat>, node: ExtNode)
    requires StOk(st) && ExtNodeWf(ExtWidths(st.nodes, |st.nodes|), |st.bits|, st.side + entries, node) && IdsOk(st, node)
    requires ExtNodeWidth(ExtWidths(st.nodes, |st.nodes|), node) <= MAX_WIDTH
    ensures var st' := st.(side := st.side + entries, nodes := st.nodes + [node]);
            && StOk(st') && Extends(st, st')
            && StWidth(st', |st.nodes|) == ExtNodeWidth(ExtWidths(st.nodes, |st.nodes|), node)
  {
    hide ExtWf, ExtNodeWf, ExtNodeWidth, Tidy, NameOf;
    var st' := st.(side := st.side + entries, nodes := st.nodes + [node]);
    WfGrow(st, st', node);
    TidyGrow(st, st', node);
    forall k: nat | k < |st'.constNode| ensures MemoOk(st', k) { assert MemoOk(st, k); }
  }

  function WithSelect(st: St, aid: nat, j: nat, levels: seq<nat>): St
  {
    st.(side := st.side + levels, nodes := st.nodes + [Select(aid, j, |st.side|, |levels| / 2)])
  }

  lemma WithSelectOk(st: St, aid: nat, j: nat, levels: seq<nat>, arr: TArray, index: TBv)
    requires StOk(st) && ChainMeans(st, aid, levels, arr) && Means(st, j, index) && TreeWidth(index) == 32
    ensures StOk(WithSelect(st, aid, j, levels)) && Extends(st, WithSelect(st, aid, j, levels))
    ensures StWidth(WithSelect(st, aid, j, levels), |st.nodes|) == 8
  {
    hide StOk, Extends, StWidth, ChainMeans, Matches, ChainWf, TreeVal, TreeWidth, ExtVal;
    var st' := WithSelect(st, aid, j, levels);
    assert st'.side[|st.side|..|st.side| + |levels|] == levels;
    ChainWfAt(st, st'.side, |st.side|, aid, levels, arr);
    ChainBase(st, aid, levels, arr);
    MeansWidth(st, j, index);
    Grown(st, levels, Select(aid, j, |st.side|, |levels| / 2));
  }

  lemma SelectMeans(st: St, aid: nat, j: nat, levels: seq<nat>, arr: TArray, index: TBv)
    requires StOk(st) && ChainMeans(st, aid, levels, arr) && Means(st, j, index) && TreeWidth(index) == 32
    ensures StOk(WithSelect(st, aid, j, levels)) && Extends(st, WithSelect(st, aid, j, levels))
    ensures Means(WithSelect(st, aid, j, levels), |st.nodes|, TSelect(arr, index))
  {
    hide StOk, ChainMeans, Matches, ExtVal, TreeVal, StWidth;
    var st' := WithSelect(st, aid, j, levels);
    WithSelectOk(st, aid, j, levels, arr, index);
    forall I: Interp, mdl: Model | Matches(st', I, mdl)
      ensures ExtVal(Q(st'), mdl, |st.nodes|) == TreeVal(TSelect(arr, index), I)
    {
      SelectValue(st, aid, j, levels, arr, index, I, mdl);
    }
  }

  lemma SelectValue(st: St, aid: nat, j: nat, levels: seq<nat>, arr: TArray, index: TBv, I: Interp, mdl: Model)
    requires StOk(st) && ChainMeans(st, aid, levels, arr) && Means(st, j, index)
    requires Extends(st, WithSelect(st, aid, j, levels)) && Matches(WithSelect(st, aid, j, levels), I, mdl)
    ensures ExtVal(Q(WithSelect(st, aid, j, levels)), mdl, |st.nodes|) == TreeVal(TSelect(arr, index), I)
  {
    hide ExtWf, ChainMeans, Matches, ReadChain, VarsOk, MemosOk, Tidy, StWidth, Means, Extends;
    var st' := WithSelect(st, aid, j, levels);
    assert st'.side[|st.side|..|st.side| + |levels|] == levels;
    MatchesEarlier(st, st', I, mdl);
    ValsKept(st, st', mdl, |st.nodes|);
    MeansAt(st, I, mdl, j, index);
    ChainValue(st, st'.side, |st.side|, aid, levels, arr, I, mdl, TreeVal(index, I));
  }

  // ---------- calls ----------

  function WithFunc(st: St, name: Name, w: nat): St
  {
    st.(fnames := WithName(st.fnames, name), funcWidth := st.funcWidth + [w])
  }

  lemma WithFuncOk(st: St, name: Name, w: nat)
    requires StOk(st) && forall k: nat :: k < |st.fnames.starts| ==> NameOf(st.fnames, k) != name
    ensures StOk(WithFunc(st, name, w)) && Extends(st, WithFunc(st, name, w))
  {
    hide ExtWf, Tidy;
    WithNameOk(st.fnames, name);
    TidySame(st, WithFunc(st, name, w));
    forall k: nat | k < |st.constNode| ensures MemoOk(WithFunc(st, name, w), k) { assert MemoOk(st, k); }
  }

  /** The nodes mean the arguments, in order. */
  ghost predicate ArgsMean(st: St, ids: seq<nat>, args: TArgs)
    decreases args
  {
    match args
    case TNil => ids == []
    case TCons(head, tail) => |ids| > 0 && Means(st, ids[0], head) && ArgsMean(st, ids[1..], tail)
  }

  lemma {:induction false} ArgsKept(st: St, st': St, ids: seq<nat>, args: TArgs)
    requires StOk(st) && Extends(st, st') && ArgsMean(st, ids, args)
    ensures ArgsMean(st', ids, args)
    decreases args
  {
    hide StOk, Extends, Means;
    if args.TCons? {
      MeansKept(st, st', ids[0], args.head);
      ArgsKept(st, st', ids[1..], args.tail);
    }
  }

  lemma {:induction false} ArgsInList(st: St, ids: seq<nat>, args: TArgs)
    requires ArgsMean(st, ids, args)
    ensures forall l :: 0 <= l < |ids| ==> ids[l] < |st.nodes|
    decreases args
  {
    if args.TCons? {
      ArgsInList(st, ids[1..], args.tail);
      forall l | 0 <= l < |ids| ensures ids[l] < |st.nodes| {
        if l > 0 { assert ids[l] == ids[1..][l - 1]; }
      }
    }
  }

  /** Argument values from the side table, first to last. */
  lemma {:induction false} ArgValsFirst(side: seq<nat>, vs: seq<Bv>, off: nat, n: nat)
    requires n > 0
    ensures ArgVals(side, vs, off, n) == [At(vs, SideAt(side, off))] + ArgVals(side, vs, off + 1, n - 1)
    decreases n
  {
    if n > 1 { ArgValsFirst(side, vs, off, n - 1); }
  }

  lemma {:induction false} ArgsValue(st: St, side: seq<nat>, off: nat, ids: seq<nat>, args: TArgs, I: Interp, mdl: Model)
    requires ArgsMean(st, ids, args) && Matches(st, I, mdl)
    requires off + |ids| <= |side| && side[off..off + |ids|] == ids
    ensures ArgVals(side, ExtVals(Q(st), mdl, |st.nodes|), off, |ids|) == ArgsVal(args, I)
    decreases args
  {
    hide Means, ExtVals;
    if args.TCons? {
      assert side[off] == side[off..off + |ids|][0];
      assert side[off + 1..off + 1 + |ids[1..]|] == side[off..off + |ids|][1..];
      ArgsValue(st, side, off + 1, ids[1..], args.tail, I, mdl);
      MeansAt(st, I, mdl, ids[0], args.head);
      ArgValsFirst(side, ExtVals(Q(st), mdl, |st.nodes|), off, |ids|);
    }
  }

  function WithCall(st: St, fid: nat, w: nat, ids: seq<nat>): St
  {
    st.(side := st.side + ids, nodes := st.nodes + [Call(fid, w, |st.side|, |ids|)])
  }

  lemma WithCallOk(st: St, fid: nat, w: nat, ids: seq<nat>, args: TArgs)
    requires StOk(st) && ArgsMean(st, ids, args) && WidthOk(w) && fid < |st.funcWidth| && st.funcWidth[fid] == w
    ensures StOk(WithCall(st, fid, w, ids)) && Extends(st, WithCall(st, fid, w, ids))
    ensures StWidth(WithCall(st, fid, w, ids), |st.nodes|) == w
  {
    hide StOk, Extends, StWidth, ArgsMean, Matches;
    var st' := WithCall(st, fid, w, ids);
    assert st'.side[|st.side|..|st.side| + |ids|] == ids;
    ArgsInList(st, ids, args);
    Grown(st, ids, Call(fid, w, |st.side|, |ids|));
  }

  lemma CallMeans(st: St, fid: nat, name: Name, w: nat, ids: seq<nat>, args: TArgs)
    requires StOk(st) && ArgsMean(st, ids, args) && WidthOk(w)
    requires fid < |st.funcWidth| && st.funcWidth[fid] == w && NameOf(st.fnames, fid) == name
    ensures StOk(WithCall(st, fid, w, ids)) && Extends(st, WithCall(st, fid, w, ids))
    ensures Means(WithCall(st, fid, w, ids), |st.nodes|, TCall(name, w, args))
  {
    hide StOk, ArgsMean, Matches, ExtVal, TreeVal, StWidth, NameOf;
    var st' := WithCall(st, fid, w, ids);
    WithCallOk(st, fid, w, ids, args);
    forall I: Interp, mdl: Model | Matches(st', I, mdl)
      ensures ExtVal(Q(st'), mdl, |st.nodes|) == TreeVal(TCall(name, w, args), I)
    {
      CallValue(st, fid, name, w, ids, args, I, mdl);
    }
  }

  lemma CallValue(st: St, fid: nat, name: Name, w: nat, ids: seq<nat>, args: TArgs, I: Interp, mdl: Model)
    requires StOk(st) && ArgsMean(st, ids, args)
    requires fid < |st.funcWidth| && st.funcWidth[fid] == w && NameOf(st.fnames, fid) == name
    requires Extends(st, WithCall(st, fid, w, ids)) && Matches(WithCall(st, fid, w, ids), I, mdl)
    ensures ExtVal(Q(WithCall(st, fid, w, ids)), mdl, |st.nodes|) == TreeVal(TCall(name, w, args), I)
  {
    hide ExtWf, ArgsMean, ArgVals, VarsOk, MemosOk, Tidy, StWidth, Extends, NameOf, Matches, FunAt, FunNamed;
    var st' := WithCall(st, fid, w, ids);
    assert st'.side[|st.side|..|st.side| + |ids|] == ids;
    MatchesEarlier(st, st', I, mdl);
    ValsKept(st, st', mdl, |st.nodes|);
    ArgsValue(st, st'.side, |st.side|, ids, args, I, mdl);
    MatchesFun(st, I, mdl, fid, ArgsVal(args, I));
  }

  lemma MatchesFun(st: St, I: Interp, mdl: Model, g: nat, args: seq<Bv>)
    requires Matches(st, I, mdl) && g < |st.funcWidth|
    ensures FunAt(mdl, g, st.funcWidth[g], args) == FunNamed(I, NameOf(st.fnames, g), st.funcWidth[g], args)
  {
  }
}
