/** What a flattening has built so far: node list, tables, and what they mean
    by name. */
module FlatState {
  import opened Wrappers
  import opened Bits
  import opened BvOps
  import opened Dag
  import opened Sliver
  import opened SliverSound
  import opened Tree

  // ---------- name tables ----------

  /** Entry k is the name arena[starts[k]..starts[k] + lens[k]]. */
  datatype NameTable = NameTable(arena: Name, starts: seq<nat>, lens: seq<nat>)

  function NameOf(tab: NameTable, k: nat): Name
  {
    if k < |tab.starts| && k < |tab.lens| && tab.starts[k] + tab.lens[k] <= |tab.arena|
    then tab.arena[tab.starts[k]..tab.starts[k] + tab.lens[k]] else []
  }

  /** Every entry is inside the arena, and no name is listed twice. */
  ghost predicate TableOk(tab: NameTable)
  {
    && |tab.starts| == |tab.lens|
    && (forall k: nat :: k < |tab.starts| ==> tab.starts[k] + tab.lens[k] <= |tab.arena|)
    && (forall j: nat, k: nat :: j < k < |tab.starts| ==> NameOf(tab, j) != NameOf(tab, k))
  }

  ghost predicate TableExtends(tab: NameTable, tab': NameTable)
  {
    tab.arena <= tab'.arena && tab.starts <= tab'.starts && tab.lens <= tab'.lens
  }

  lemma NameKept(tab: NameTable, tab': NameTable, k: nat)
    requires TableOk(tab) && TableExtends(tab, tab') && k < |tab.starts|
    ensures k < |tab'.starts| && NameOf(tab', k) == NameOf(tab, k)
  {
    assert tab'.arena[..|tab.arena|] == tab.arena;
    assert tab'.arena[tab.starts[k]..tab.starts[k] + tab.lens[k]] ==
           tab'.arena[..|tab.arena|][tab.starts[k]..tab.starts[k] + tab.lens[k]];
  }

  function WithName(tab: NameTable, name: Name): NameTable
  {
    NameTable(tab.arena + name, tab.starts + [|tab.arena|], tab.lens + [|name|])
  }

  /** A new name keeps the table; it is the last entry. */
  lemma WithNameOk(tab: NameTable, name: Name)
    requires TableOk(tab) && forall k: nat :: k < |tab.starts| ==> NameOf(tab, k) != name
    ensures TableOk(WithName(tab, name)) && TableExtends(tab, WithName(tab, name))
    ensures NameOf(WithName(tab, name), |tab.starts|) == name
    ensures forall k: nat :: k < |tab.starts| ==> NameOf(WithName(tab, name), k) == NameOf(tab, k)
  {
    var tab' := WithName(tab, name);
    assert tab'.arena[|tab.arena|..|tab.arena| + |name|] == name;
    forall k: nat | k < |tab.starts| ensures NameOf(tab', k) == NameOf(tab, k) { NameKept(tab, tab', k); }
  }

  method NameIs(tab: NameTable, k: nat, name: Name) returns (r: bool)
    requires TableOk(tab) && k < |tab.starts|
    ensures r <==> NameOf(tab, k) == name
  {
    var start, len := tab.starts[k], tab.lens[k];
    if len != |name| || start > |tab.arena| || len > |tab.arena| - start { return false; }
    for j := 0 to len
      invariant tab.arena[start..start + j] == name[..j]
    {
      assert tab.arena[start..start + j + 1] == tab.arena[start..start + j] + [tab.arena[start + j]];
      if tab.arena[start + j] != name[j] {
        assert NameOf(tab, k)[j] != name[j];
        return false;
      }
    }
    return true;
  }

  /** The entry of a name. */
  method TableFind(tab: NameTable, name: Name) returns (found: Option<nat>)
    requires TableOk(tab)
    ensures found.Some? ==> found.value < |tab.starts| && NameOf(tab, found.value) == name
    ensures found.None? ==> forall k: nat :: k < |tab.starts| ==> NameOf(tab, k) != name
  {
    found := None;
    for k := 0 to |tab.starts|
      invariant found.Some? ==> found.value < k && NameOf(tab, found.value) == name
      invariant found.None? ==> forall j: nat :: j < k ==> NameOf(tab, j) != name
    {
      if found.None? {
        var same := NameIs(tab, k, name);
        if same { found := Some(k); }
      }
    }
  }

  method PushName(tab: NameTable, name: Name) returns (tab': NameTable)
    ensures tab' == WithName(tab, name)
  {
    var arena := tab.arena;
    for j := 0 to |name|
      invariant arena == tab.arena + name[..j]
    {
      arena := arena + [name[j]];
    }
    assert name[..|name|] == name;
    return NameTable(arena, tab.starts + [|tab.arena|], tab.lens + [|name|]);
  }

  // ---------- the state ----------

  datatype St = St(
    nodes: seq<ExtNode>, bits: seq<bool>, side: seq<nat>,
    names: NameTable, varNode: seq<nat>, varWidth: seq<nat>,
    constValue: seq<nat>, constWidth: seq<nat>, constNode: seq<nat>,
    anames: NameTable, fnames: NameTable, funcWidth: seq<nat>)

  /** The extended query of a state, for its values. */
  function Q(st: St): Input { Input(st.nodes, st.bits, st.side, [], [], [], [], [], [], [], []) }

  /** Every named variable is a variable node of its width, no two names on
      one node. */
  ghost predicate VarsOk(st: St)
  {
    && TableOk(st.names) && |st.varNode| == |st.varWidth| == |st.names.starts|
    && (forall k: nat :: k < |st.varNode| ==>
          st.varNode[k] < |st.nodes| && st.nodes[st.varNode[k]] == Core(Var(st.varWidth[k])))
    && (forall j: nat, k: nat :: j < k < |st.varNode| ==> st.varNode[j] != st.varNode[k])
  }

  /** Memo entry k's node is the constant whose bits the table holds. */
  ghost predicate MemoOk(st: St, k: nat)
    requires k < |st.constNode| == |st.constWidth| == |st.constValue|
  {
    && st.constNode[k] < |st.nodes| && st.nodes[st.constNode[k]].Core? && st.nodes[st.constNode[k]].nd.Const?
    && st.nodes[st.constNode[k]].nd.w == st.constWidth[k]
    && BitsAt(st.bits, st.nodes[st.constNode[k]].nd.s, st.constWidth[k]) == FromInt(st.constValue[k], st.constWidth[k])
  }

  ghost predicate MemosOk(st: St)
  {
    |st.constNode| == |st.constWidth| == |st.constValue| && forall k: nat :: k < |st.constNode| ==> MemoOk(st, k)
  }

  /** A read names a tabled array, a call a tabled function at its width. */
  ghost predicate IdsOk(st: St, node: ExtNode)
  {
    match node
    case Core(_) => true
    case Select(aid, _, _, _) => aid < |st.anames.starts|
    case Call(fid, w, _, _) => fid < |st.funcWidth| && st.funcWidth[fid] == w
  }

  /** No node is wider than a tree's, and every id is in its table. */
  ghost predicate Tidy(st: St)
  {
    && (forall i: nat :: i < |st.nodes| ==> IdsOk(st, st.nodes[i]))
    && (forall i: nat :: i < |st.nodes| ==> StWidth(st, i) <= MAX_WIDTH)
  }

  ghost predicate StOk(st: St)
  {
    && ExtWf(st.nodes, |st.bits|, st.side) && VarsOk(st) && MemosOk(st) && Tidy(st)
    && TableOk(st.anames) && TableOk(st.fnames) && |st.funcWidth| == |st.fnames.starts|
  }

  /** Nothing built is ever changed. */
  ghost predicate Extends(st: St, st': St)
  {
    && st.nodes <= st'.nodes && st.bits <= st'.bits && st.side <= st'.side
    && TableExtends(st.names, st'.names) && st.varNode <= st'.varNode && st.varWidth <= st'.varWidth
    && TableExtends(st.anames, st'.anames) && TableExtends(st.fnames, st'.fnames) && st.funcWidth <= st'.funcWidth
  }

  lemma ExtendsTrans(a: St, b: St, c: St)
    requires Extends(a, b) && Extends(b, c)
    ensures Extends(a, c)
  {
  }

  // ---------- values are kept ----------

  lemma {:induction false} WidthsKept(e: seq<ExtNode>, e': seq<ExtNode>, i: nat)
    requires e <= e' && i <= |e|
    ensures ExtWidths(e', i) == ExtWidths(e, i)
  {
    if i > 0 {
      WidthsKept(e, e', i - 1);
      assert e'[i - 1] == e[i - 1];
    }
  }

  lemma NodeWfKept(ws: seq<nat>, nbits: nat, nbits': nat, side: seq<nat>, side': seq<nat>, node: ExtNode)
    requires ExtNodeWf(ws, nbits, side, node) && nbits <= nbits' && side <= side'
    ensures ExtNodeWf(ws, nbits', side', node)
  {
    if node.Select? {
      forall l | 0 <= l < node.n ensures LevelWf(ws, side', node.s + 2 * l) {
        assert LevelWf(ws, side, node.s + 2 * l);
      }
    }
    if node.Call? {
      forall off | node.s <= off < node.s + node.n ensures ArgWf(ws, side', off) { assert ArgWf(ws, side, off); }
    }
  }

  /** Appending a well-formed node, with more bits and side entries, keeps the
      list well-formed. */
  lemma WfGrow(st: St, st': St, node: ExtNode)
    requires ExtWf(st.nodes, |st.bits|, st.side) && st'.nodes == st.nodes + [node]
    requires st.bits <= st'.bits && st.side <= st'.side
    requires ExtNodeWf(ExtWidths(st.nodes, |st.nodes|), |st'.bits|, st'.side, node)
    ensures ExtWf(st'.nodes, |st'.bits|, st'.side)
    ensures ExtWidths(st'.nodes, |st'.nodes|) ==
              ExtWidths(st.nodes, |st.nodes|) + [ExtNodeWidth(ExtWidths(st.nodes, |st.nodes|), node)]
  {
    forall i | 0 <= i < |st'.nodes| ensures ExtWfAt(st'.nodes, |st'.bits|, st'.side, i) {
      WidthsKept(st.nodes, st'.nodes, i);
      if i < |st.nodes| {
        assert ExtWfAt(st.nodes, |st.bits|, st.side, i);
        NodeWfKept(ExtWidths(st.nodes, i), |st.bits|, |st'.bits|, st.side, st'.side, st.nodes[i]);
      }
    }
    WidthsKept(st.nodes, st'.nodes, |st.nodes|);
  }

  /** Appending a node of a tree's width, its ids in the tables. */
  lemma TidyGrow(st: St, st': St, node: ExtNode)
    requires Tidy(st) && st'.nodes == st.nodes + [node] && IdsOk(st', node)
    requires ExtNodeWidth(ExtWidths(st.nodes, |st.nodes|), node) <= MAX_WIDTH
    requires |st.anames.starts| <= |st'.anames.starts| && st.funcWidth <= st'.funcWidth
    ensures Tidy(st')
  {
    WidthsKept(st.nodes, st'.nodes, |st.nodes|);
    forall i: nat | i < |st'.nodes| ensures IdsOk(st', st'.nodes[i]) && StWidth(st', i) <= MAX_WIDTH {
      if i < |st.nodes| {
        assert IdsOk(st, st.nodes[i]);
        assert StWidth(st, i) <= MAX_WIDTH;
      }
    }
  }

  /** Growing a table of names keeps every id in it. */
  lemma TidySame(st: St, st': St)
    requires Tidy(st) && st'.nodes == st.nodes
    requires |st.anames.starts| <= |st'.anames.starts| && st.funcWidth <= st'.funcWidth
    ensures Tidy(st')
  {
    forall i: nat | i < |st'.nodes| ensures IdsOk(st', st'.nodes[i]) && StWidth(st', i) <= MAX_WIDTH {
      assert IdsOk(st, st.nodes[i]);
      assert StWidth(st, i) <= MAX_WIDTH;
    }
  }

  lemma {:induction false} ReadChainKept(side: seq<nat>, side': seq<nat>, vs: seq<Bv>, v: Bv, off: nat, k: nat, base: Bv)
    requires side <= side' && (k > 0 ==> off + 2 * k <= |side|)
    ensures ReadChain(side', vs, v, off, k, base) == ReadChain(side, vs, v, off, k, base)
    decreases k
  {
    if k > 0 { ReadChainKept(side, side', vs, v, off + 2, k - 1, base); }
  }

  lemma {:induction false} ArgValsKept(ws: seq<nat>, side: seq<nat>, side': seq<nat>, vs: seq<Bv>, s: nat, n: nat)
    requires ArgsWf(ws, side, s, n) && side <= side'
    ensures ArgVals(side', vs, s, n) == ArgVals(side, vs, s, n)
  {
    if n > 0 {
      ArgValsKept(ws, side, side', vs, s, n - 1);
      assert ArgWf(ws, side, s + n - 1);
    }
  }

  lemma NodeValKept(ws: seq<nat>, bits: seq<bool>, bits': seq<bool>, side: seq<nat>, side': seq<nat>, node: ExtNode,
                    vs: seq<Bv>, own: Bv, mdl: Model)
    requires ExtNodeWf(ws, |bits|, side, node) && bits <= bits' && side <= side'
    ensures ExtNodeVal(node, bits', side', vs, own, mdl) == ExtNodeVal(node, bits, side, vs, own, mdl)
  {
    match node {
      case Core(nd) =>
        if nd.Const? { assert bits'[nd.s..nd.s + nd.w] == bits[nd.s..nd.s + nd.w]; }
      case Select(aid, j, s, n) =>
        if n > 0 { assert LevelWf(ws, side, s + 2 * (n - 1)); }
        ReadChainKept(side, side', vs, At(vs, j), s, n, ArrayAt(mdl, aid, At(vs, j)));
      case Call(fid, w, s, n) =>
        ArgValsKept(ws, side, side', vs, s, n);
    }
  }

  lemma {:induction false} ValsKept(st: St, st': St, mdl: Model, n: nat)
    requires ExtWf(st.nodes, |st.bits|, st.side) && n <= |st.nodes|
    requires st.nodes <= st'.nodes && st.bits <= st'.bits && st.side <= st'.side
    ensures ExtVals(Q(st'), mdl, n) == ExtVals(Q(st), mdl, n)
  {
    hide ExtWf, ExtNodeVal, ExtNodeWf;
    if n > 0 {
      ValsKept(st, st', mdl, n - 1);
      assert ExtWfAt(st.nodes, |st.bits|, st.side, n - 1) by { WfHere(st, n - 1); }
      NodeValKept(ExtWidths(st.nodes, n - 1), st.bits, st'.bits, st.side, st'.side, st.nodes[n - 1],
                  ExtVals(Q(st), mdl, n - 1), At(mdl.env, n - 1), mdl);
      assert st'.nodes[n - 1] == st.nodes[n - 1];
    }
  }

  lemma WfHere(st: St, i: nat)
    requires ExtWf(st.nodes, |st.bits|, st.side) && i < |st.nodes|
    ensures ExtWfAt(st.nodes, |st.bits|, st.side, i)
  {
  }

  // ---------- meaning, by name ----------

  /** The interpretation of the names and the model of the tables agree. */
  ghost predicate Matches(st: St, I: Interp, mdl: Model)
  {
    && (forall k: nat :: k < |st.varNode| && k < |st.varWidth| ==> VarMatches(st, I, mdl, k))
    && (forall a: nat, v :: a < |st.anames.starts| ==> ArrayAt(mdl, a, v) == ArrayNamed(I, NameOf(st.anames, a), v))
    && (forall g: nat, args :: g < |st.funcWidth| ==>
          FunAt(mdl, g, st.funcWidth[g], args) == FunNamed(I, NameOf(st.fnames, g), st.funcWidth[g], args))
  }

  ghost predicate VarMatches(st: St, I: Interp, mdl: Model, k: nat)
    requires k < |st.varNode| && k < |st.varWidth|
  {
    At(mdl.env, st.varNode[k]) == VarNamed(I, NameOf(st.names, k), st.varWidth[k])
  }

  lemma MatchesEarlier(st: St, st': St, I: Interp, mdl: Model)
    requires StOk(st) && Extends(st, st') && Matches(st', I, mdl)
    ensures Matches(st, I, mdl)
  {
    forall k: nat | k < |st.varNode| ensures VarMatches(st, I, mdl, k) {
      NameKept(st.names, st'.names, k);
      assert VarMatches(st', I, mdl, k);
    }
    forall a: nat, v | a < |st.anames.starts| ensures ArrayAt(mdl, a, v) == ArrayNamed(I, NameOf(st.anames, a), v) {
      NameKept(st.anames, st'.anames, a);
    }
    forall g: nat, args | g < |st.funcWidth|
      ensures FunAt(mdl, g, st.funcWidth[g], args) == FunNamed(I, NameOf(st.fnames, g), st.funcWidth[g], args)
    {
      NameKept(st.fnames, st'.fnames, g);
      assert st'.funcWidth[g] == st.funcWidth[g];
    }
  }

  function StWidth(st: St, i: nat): nat
    requires i < |st.nodes|
  {
    ExtWidths(st.nodes, |st.nodes|)[i]
  }

  /** Node i has the width and, by name, the value of the tree. */
  ghost predicate Means(st: St, i: nat, t: TBv)
  {
    && i < |st.nodes| && StWidth(st, i) == TreeWidth(t) > 0
    && forall I: Interp, mdl: Model :: Matches(st, I, mdl) ==> ExtVal(Q(st), mdl, i) == TreeVal(t, I)
  }

  ghost predicate MeansBool(st: St, i: nat, t: TBool)
  {
    && i < |st.nodes| && StWidth(st, i) == 1
    && forall I: Interp, mdl: Model :: Matches(st, I, mdl) ==> ExtVal(Q(st), mdl, i) == [BoolVal(t, I)]
  }

  lemma ValKept(st: St, st': St, mdl: Model, i: nat)
    requires StOk(st) && Extends(st, st') && i < |st.nodes|
    ensures ExtVal(Q(st'), mdl, i) == ExtVal(Q(st), mdl, i)
    ensures StWidth(st', i) == StWidth(st, i)
  {
    ValsKept(st, st', mdl, i + 1);
    WidthsKept(st.nodes, st'.nodes, |st.nodes|);
    ExtWidthsPrefix(st'.nodes, |st.nodes|, |st'.nodes|);
    assert ExtWidths(st'.nodes, |st'.nodes|)[..|st.nodes|][i] == ExtWidths(st'.nodes, |st'.nodes|)[i];
  }

  lemma {:induction false} ExtWidthsPrefix(e: seq<ExtNode>, i: nat, n: nat)
    requires i <= n <= |e|
    ensures ExtWidths(e, n)[..i] == ExtWidths(e, i)
    decreases n
  {
    if i < n { ExtWidthsPrefix(e, i, n - 1); }
  }

  /** Meanings survive everything built later. */
  lemma MeansKept(st: St, st': St, i: nat, t: TBv)
    requires StOk(st) && Extends(st, st') && Means(st, i, t)
    ensures Means(st', i, t)
  {
    hide StOk, Extends, Matches, ExtVal, StWidth, TreeVal;
    assert |st.nodes| <= |st'.nodes| by { NodesGrow(st, st'); }
    forall I: Interp, mdl: Model | Matches(st', I, mdl) ensures ExtVal(Q(st'), mdl, i) == TreeVal(t, I) {
      MatchesEarlier(st, st', I, mdl);
      ValKept(st, st', mdl, i);
    }
    ValKept(st, st', NoModel(), i);
  }

  lemma MeansBoolKept(st: St, st': St, i: nat, t: TBool)
    requires StOk(st) && Extends(st, st') && MeansBool(st, i, t)
    ensures MeansBool(st', i, t)
  {
    hide StOk, Extends, Matches, ExtVal, StWidth, BoolVal;
    assert |st.nodes| <= |st'.nodes| by { NodesGrow(st, st'); }
    forall I: Interp, mdl: Model | Matches(st', I, mdl) ensures ExtVal(Q(st'), mdl, i) == [BoolVal(t, I)] {
      MatchesEarlier(st, st', I, mdl);
      ValKept(st, st', mdl, i);
    }
    ValKept(st, st', NoModel(), i);
  }

  ghost function NoModel(): Model { Model([], imap[], imap[]) }

  lemma NodesGrow(st: St, st': St)
    requires Extends(st, st')
    ensures |st.nodes| <= |st'.nodes|
  {
  }

  /** The value of a node under values that mean the earlier trees. */
  lemma MeansAt(st: St, I: Interp, mdl: Model, i: nat, t: TBv)
    requires Means(st, i, t) && Matches(st, I, mdl)
    ensures At(ExtVals(Q(st), mdl, |st.nodes|), i) == TreeVal(t, I)
  {
    ExtValAt(Q(st), mdl, i, |st.nodes|);
  }

  lemma MeansBoolAt(st: St, I: Interp, mdl: Model, i: nat, t: TBool)
    requires MeansBool(st, i, t) && Matches(st, I, mdl)
    ensures At(ExtVals(Q(st), mdl, |st.nodes|), i) == [BoolVal(t, I)]
  {
    ExtValAt(Q(st), mdl, i, |st.nodes|);
  }

  // ---------- one more node ----------

  function WithNode(st: St, node: ExtNode): St { st.(nodes := st.nodes + [node]) }

  /** A pushed node keeps the state, and has its value over the values so far. */
  lemma PushOk(st: St, node: ExtNode)
    requires StOk(st) && ExtNodeWf(ExtWidths(st.nodes, |st.nodes|), |st.bits|, st.side, node)
    requires IdsOk(st, node) && ExtNodeWidth(ExtWidths(st.nodes, |st.nodes|), node) <= MAX_WIDTH
    ensures StOk(WithNode(st, node)) && Extends(st, WithNode(st, node))
    ensures StWidth(WithNode(st, node), |st.nodes|) == ExtNodeWidth(ExtWidths(st.nodes, |st.nodes|), node)
    ensures forall mdl: Model :: ExtVal(Q(WithNode(st, node)), mdl, |st.nodes|) ==
              ExtNodeVal(node, st.bits, st.side, ExtVals(Q(st), mdl, |st.nodes|), At(mdl.env, |st.nodes|), mdl)
  {
    hide ExtWf, ExtNodeWf, ExtNodeVal, Tidy;
    var st' := WithNode(st, node);
    WfGrow(st, st', node);
    TidyGrow(st, st', node);
    forall k: nat | k < |st'.constNode| ensures MemoOk(st', k) { assert MemoOk(st, k); }
    forall mdl: Model
      ensures ExtVal(Q(st'), mdl, |st.nodes|) ==
              ExtNodeVal(node, st.bits, st.side, ExtVals(Q(st), mdl, |st.nodes|), At(mdl.env, |st.nodes|), mdl)
    {
      ValsKept(st, st', mdl, |st.nodes|);
    }
  }

  /** nd is the tree's operator over nodes that mean its operands. */
  ghost predicate Spells(st: St, nd: DagNode, t: TBv)
  {
    match t
    case TBin(op, a, b) => nd.Bin? && nd.op == op && Means(st, nd.a, a) && Means(st, nd.b, b)
    case TExtract(hi, lo, a) => nd.Extract? && nd.hi == hi && nd.lo == lo && Means(st, nd.a, a)
    case TConcat(a, b) => nd.Concat? && Means(st, nd.a, a) && Means(st, nd.b, b)
    case TZeroExt(extra, a) => nd.ZeroExt? && nd.extra == extra && Means(st, nd.a, a)
    case TSignExt(extra, a) => nd.SignExt? && nd.extra == extra && Means(st, nd.a, a)
    case TIte(c, a, b) => nd.Ite? && MeansBool(st, nd.c, c) && Means(st, nd.t, a) && Means(st, nd.e, b)
    case TNot(a) => nd.BvNot? && Means(st, nd.a, a)
    case TNeg(a) => nd.Neg? && Means(st, nd.a, a)
    case _ => false
  }

  ghost predicate SpellsBool(st: St, nd: DagNode, t: TBool)
  {
    match t
    case BCmp(op, a, b) => nd.Cmp? && nd.cmp == op && Means(st, nd.a, a) && Means(st, nd.b, b)
    case BNot(x) => nd.Not? && MeansBool(st, nd.a, x)
    case BAnd(x, y) => nd.BoolAnd? && MeansBool(st, nd.a, x) && MeansBool(st, nd.b, y)
    case BOr(x, y) => nd.BoolOr? && MeansBool(st, nd.a, x) && MeansBool(st, nd.b, y)
  }

  /** A node that spells a sorted tree is well-formed and has its value. */
  lemma SpellsValue(st: St, nd: DagNode, t: TBv)
    requires StOk(st) && Sorted(t) && Spells(st, nd, t)
    ensures NodeWf(ExtWidths(st.nodes, |st.nodes|), |st.bits|, nd)
    ensures NodeWidth(ExtWidths(st.nodes, |st.nodes|), nd) == TreeWidth(t)
    ensures forall I: Interp, mdl: Model, own :: Matches(st, I, mdl) ==>
              NodeVal(nd, st.bits, ExtVals(Q(st), mdl, |st.nodes|), own) == TreeVal(t, I)
  {
    hide StOk, Sorted, Spells, Matches, NodeWf, NodeWidth, TreeWidth, TreeVal, NodeVal, ExtVals, ExtWidths;
    SpellsWidth(st, nd, t);
    forall I: Interp, mdl: Model, own | Matches(st, I, mdl)
      ensures NodeVal(nd, st.bits, ExtVals(Q(st), mdl, |st.nodes|), own) == TreeVal(t, I)
    {
      SpellsValueAt(st, nd, t, I, mdl, own);
    }
  }

  lemma SpellsWidth(st: St, nd: DagNode, t: TBv)
    requires Sorted(t) && Spells(st, nd, t)
    ensures NodeWf(ExtWidths(st.nodes, |st.nodes|), |st.bits|, nd)
    ensures NodeWidth(ExtWidths(st.nodes, |st.nodes|), nd) == TreeWidth(t)
  {
    hide ExtVals, ExtWidths, TreeVal, BoolVal;
  }

  lemma SpellsValueAt(st: St, nd: DagNode, t: TBv, I: Interp, mdl: Model, own: Bv)
    requires StOk(st) && Spells(st, nd, t) && Matches(st, I, mdl)
    ensures NodeVal(nd, st.bits, ExtVals(Q(st), mdl, |st.nodes|), own) == TreeVal(t, I)
  {
    hide StOk, Matches, NodeVal, TreeVal, ExtVals;
    if t.TIte? {
      SpellsIte(st, nd, t, I, mdl, own);
    } else if t.TBin? || t.TConcat? {
      SpellsTwo(st, nd, t, I, mdl, own);
    } else if t.TNot? || t.TNeg? {
      SpellsOne(st, nd, t, I, mdl, own);
    } else {
      SpellsBits(st, nd, t, I, mdl, own);
    }
  }

  lemma SpellsTwo(st: St, nd: DagNode, t: TBv, I: Interp, mdl: Model, own: Bv)
    requires (t.TBin? || t.TConcat?) && Spells(st, nd, t) && Matches(st, I, mdl)
    ensures NodeVal(nd, st.bits, ExtVals(Q(st), mdl, |st.nodes|), own) == TreeVal(t, I)
  {
    hide Matches, Means, MeansBool, BoolVal, ExtVals, At, BinValue, BvConcat;
    MeansAt(st, I, mdl, nd.a, t.a);
    MeansAt(st, I, mdl, nd.b, t.b);
  }

  lemma SpellsOne(st: St, nd: DagNode, t: TBv, I: Interp, mdl: Model, own: Bv)
    requires (t.TNot? || t.TNeg?) && Spells(st, nd, t) && Matches(st, I, mdl)
    ensures NodeVal(nd, st.bits, ExtVals(Q(st), mdl, |st.nodes|), own) == TreeVal(t, I)
  {
    hide Matches, Means, MeansBool, BoolVal, ExtVals, At, BvNeg, Complement;
    MeansAt(st, I, mdl, nd.a, t.a);
  }

  lemma SpellsBits(st: St, nd: DagNode, t: TBv, I: Interp, mdl: Model, own: Bv)
    requires (t.TExtract? || t.TZeroExt? || t.TSignExt?) && Spells(st, nd, t) && Matches(st, I, mdl)
    ensures NodeVal(nd, st.bits, ExtVals(Q(st), mdl, |st.nodes|), own) == TreeVal(t, I)
  {
    hide Matches, Means, MeansBool, BoolVal, ExtVals, At, BvExtract, BvZeroExt, BvSignExt;
    MeansAt(st, I, mdl, nd.a, t.a);
  }

  lemma SpellsIte(st: St, nd: DagNode, t: TBv, I: Interp, mdl: Model, own: Bv)
    requires t.TIte? && Spells(st, nd, t) && Matches(st, I, mdl)
    ensures NodeVal(nd, st.bits, ExtVals(Q(st), mdl, |st.nodes|), own) == TreeVal(t, I)
  {
    hide Matches, Means, MeansBool, BoolVal, ExtVals, At;
    MeansBoolAt(st, I, mdl, nd.c, t.c);
    MeansAt(st, I, mdl, nd.t, t.a);
    MeansAt(st, I, mdl, nd.e, t.b);
  }

  lemma SpellsBoolValue(st: St, nd: DagNode, t: TBool)
    requires StOk(st) && SortedBool(t) && SpellsBool(st, nd, t)
    ensures NodeWf(ExtWidths(st.nodes, |st.nodes|), |st.bits|, nd)
    ensures NodeWidth(ExtWidths(st.nodes, |st.nodes|), nd) == 1
    ensures forall I: Interp, mdl: Model, own :: Matches(st, I, mdl) ==>
              NodeVal(nd, st.bits, ExtVals(Q(st), mdl, |st.nodes|), own) == [BoolVal(t, I)]
  {
    hide StOk, Matches, ExtVals, ExtWidths, CmpValue;
    forall I: Interp, mdl: Model, own | Matches(st, I, mdl)
      ensures NodeVal(nd, st.bits, ExtVals(Q(st), mdl, |st.nodes|), own) == [BoolVal(t, I)]
    {
      match t {
        case BCmp(_, a, b) =>
          MeansAt(st, I, mdl, nd.a, a);
          MeansAt(st, I, mdl, nd.b, b);
        case BNot(x) => MeansBoolAt(st, I, mdl, nd.a, x);
        case BAnd(x, y) =>
          MeansBoolAt(st, I, mdl, nd.a, x);
          MeansBoolAt(st, I, mdl, nd.b, y);
        case BOr(x, y) =>
          MeansBoolAt(st, I, mdl, nd.a, x);
          MeansBoolAt(st, I, mdl, nd.b, y);
      }
    }
  }

  /** Pushing the node that spells a tree: the new node means the tree. */
  lemma PushMeans(st: St, nd: DagNode, t: TBv)
    requires StOk(st) && Sorted(t) && Spells(st, nd, t)
    ensures StOk(WithNode(st, Core(nd))) && Extends(st, WithNode(st, Core(nd)))
    ensures Means(WithNode(st, Core(nd)), |st.nodes|, t)
  {
    hide StOk, Matches, Spells, Sorted, NodeVal, NodeWf, NodeWidth, TreeVal, TreeWidth, ExtVals, ExtVal, Extends, StWidth;
    var st' := WithNode(st, Core(nd));
    SpellsValue(st, nd, t);
    SortedWidth(t);
    PushOk(st, Core(nd));
    forall I: Interp, mdl: Model | Matches(st', I, mdl) ensures ExtVal(Q(st'), mdl, |st.nodes|) == TreeVal(t, I) {
      MatchesEarlier(st, st', I, mdl);
    }
  }

  lemma PushMeansBool(st: St, nd: DagNode, t: TBool)
    requires StOk(st) && SortedBool(t) && SpellsBool(st, nd, t)
    ensures StOk(WithNode(st, Core(nd))) && Extends(st, WithNode(st, Core(nd)))
    ensures MeansBool(WithNode(st, Core(nd)), |st.nodes|, t)
  {
    hide StOk, Matches, SpellsBool, SortedBool, NodeVal, NodeWf, NodeWidth, BoolVal, ExtVals, ExtVal, Extends, StWidth;
    var st' := WithNode(st, Core(nd));
    SpellsBoolValue(st, nd, t);
    PushOk(st, Core(nd));
    forall I: Interp, mdl: Model | Matches(st', I, mdl) ensures ExtVal(Q(st'), mdl, |st.nodes|) == [BoolVal(t, I)] {
      MatchesEarlier(st, st', I, mdl);
    }
  }
}
