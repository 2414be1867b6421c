/** The sliver correspondence check: a core DAG against the extended query
    (arrays and uninterpreted functions) it eliminates, along an untrusted map
    and untrusted read and call tables. */
module Sliver {
  import opened Wrappers
  import opened BvOps
  import opened Dag
  import T = TermCheck

  /** A node of the extended query. */
  datatype ExtNode =
    | Core(nd: DagNode)
    | Select(aid: nat, idx: nat, s: nat, n: nat)
    | Call(fid: nat, w: nat, s: nat, n: nat)

  datatype SliverError =
    | Ext(node: nat)
    | CoreError(core: QueryError)
    | MapLength(expected: nat, found: nat)
    | MapOutOfRange(node: nat)
    | ReadTable(entry: nat)
    | CallTable(entry: nat)
    | VarClass(node: nat)
    | ConstMismatch(node: nat)
    | NodeMismatch(node: nat)
    | ChainMismatch(node: nat)
    | CallMismatch(node: nat)
    | RootMismatch
    | CongruenceMismatch(root: nat)
    | DeadEntry(variable: nat)

  /** The extended query, the core and everything claimed to relate them:
      rtab holds (variable, array, index node) triples, ctab holds
      (variable, function, first argument, arity) quadruples into cargs. */
  datatype Input = Input(
    e: seq<ExtNode>, ebits: seq<bool>, eside: seq<nat>, eroots: seq<nat>,
    m: seq<nat>, rtab: seq<nat>, ctab: seq<nat>, cargs: seq<nat>,
    t: Dag, tbits: seq<bool>, troots: seq<nat>)

  const NONE: nat := T.NONE

  // ---------- extended well-formedness ----------

  function SideAt(eside: seq<nat>, k: nat): nat { if k < |eside| then eside[k] else 0 }

  predicate LevelWf(ws: seq<nat>, eside: seq<nat>, off: nat)
  {
    && off + 1 < |eside|
    && eside[off] < |ws| && ws[eside[off]] == 32
    && eside[off + 1] < |ws| && ws[eside[off + 1]] == 8
  }

  predicate ChainWf(ws: seq<nat>, eside: seq<nat>, s: nat, n: nat)
  {
    forall l :: 0 <= l < n ==> LevelWf(ws, eside, s + 2 * l)
  }

  predicate ArgsWf(ws: seq<nat>, eside: seq<nat>, s: nat, n: nat)
  {
    forall off :: s <= off < s + n ==> ArgWf(ws, eside, off)
  }

  predicate ArgWf(ws: seq<nat>, eside: seq<nat>, off: nat) { off < |eside| && eside[off] < |ws| }

  predicate ExtNodeWf(ws: seq<nat>, nbits: nat, eside: seq<nat>, node: ExtNode)
  {
    match node
    case Core(nd) => NodeWf(ws, nbits, nd)
    case Select(_, j, s, n) => j < |ws| && ws[j] == 32 && ChainWf(ws, eside, s, n)
    case Call(_, w, s, n) => w > 0 && ArgsWf(ws, eside, s, n)
  }

  function ExtNodeWidth(ws: seq<nat>, node: ExtNode): nat
  {
    match node
    case Core(nd) => NodeWidth(ws, nd)
    case Select(_, _, _, _) => 8
    case Call(_, w, _, _) => w
  }

  function ExtWidths(e: seq<ExtNode>, n: nat): (ws: seq<nat>)
    requires n <= |e|
    ensures |ws| == n
  {
    if n == 0 then [] else ExtWidths(e, n - 1) + [ExtNodeWidth(ExtWidths(e, n - 1), e[n - 1])]
  }

  predicate ExtWfAt(e: seq<ExtNode>, nbits: nat, eside: seq<nat>, i: nat)
    requires i < |e|
  {
    ExtNodeWf(ExtWidths(e, i), nbits, eside, e[i])
  }

  predicate ExtWf(e: seq<ExtNode>, nbits: nat, eside: seq<nat>)
  {
    forall i :: 0 <= i < |e| ==> ExtWfAt(e, nbits, eside, i)
  }

  method CheckChainWf(ws: seq<nat>, eside: seq<nat>, s: nat, n: nat) returns (ok: bool)
    ensures ok == ChainWf(ws, eside, s, n)
  {
    ok := true;
    var l, off := 0, s;
    while ok && l < n
      invariant 0 <= l <= n && (ok ==> off == s + 2 * l)
      invariant ok ==> forall k :: 0 <= k < l ==> LevelWf(ws, eside, s + 2 * k)
      invariant !ok ==> !ChainWf(ws, eside, s, n)
    {
      ghost var level := LevelWf(ws, eside, s + 2 * l);
      if off >= |eside| || |eside| - off < 2 {
        ok := false;
      } else {
        var x, v := eside[off], eside[off + 1];
        if x >= |ws| || ws[x] != 32 || v >= |ws| || ws[v] != 8 { ok := false; } else { off := off + 2; }
      }
      l := l + 1;
    }
  }

  method CheckArgsWf(ws: seq<nat>, eside: seq<nat>, s: nat, n: nat) returns (ok: bool)
    ensures ok == ArgsWf(ws, eside, s, n)
  {
    ok := true;
    var l, off := 0, s;
    while ok && l < n
      invariant 0 <= l <= n && (ok ==> off == s + l)
      invariant ok ==> forall o :: s <= o < s + l ==> ArgWf(ws, eside, o)
      invariant !ok ==> !ArgsWf(ws, eside, s, n)
    {
      ghost var arg := ArgWf(ws, eside, s + l);
      if off >= |eside| || eside[off] >= |ws| { ok := false; } else { off := off + 1; }
      l := l + 1;
    }
  }

  /** Every extended node against the widths before it. */
  method CheckExtWf(e: seq<ExtNode>, nbits: nat, eside: seq<nat>) returns (r: Result<seq<nat>, SliverError>)
    ensures r.Ok? <==> ExtWf(e, nbits, eside)
    ensures r.Ok? ==> r.value == ExtWidths(e, |e|)
    ensures r.Err? ==> exists i :: 0 <= i < |e| && !ExtWfAt(e, nbits, eside, i) && r.error == Ext(i) &&
                                   forall k :: 0 <= k < i ==> ExtWfAt(e, nbits, eside, k)
  {
    var ws := [];
    for i := 0 to |e|
      invariant ws == ExtWidths(e, i)
      invariant forall k :: 0 <= k < i ==> ExtWfAt(e, nbits, eside, k)
    {
      var ok;
      match e[i] {
        case Core(nd) => ok := NodeWf(ws, nbits, nd);
        case Select(_, j, s, n) =>
          ok := CheckChainWf(ws, eside, s, n);
          ok := j < |ws| && ws[j] == 32 && ok;
        case Call(_, w, s, n) =>
          ok := CheckArgsWf(ws, eside, s, n);
          ok := w > 0 && ok;
      }
      assert ok == ExtWfAt(e, nbits, eside, i);
      if !ok { return Err(Ext(i)); }
      ws := ws + [ExtNodeWidth(ws, e[i])];
    }
    return Ok(ws);
  }

  // ---------- the tables ----------

  function Reads(x: Input): nat { |x.rtab| / 3 }

  function RVar(x: Input, p: nat): nat
    requires p < Reads(x)
  { x.rtab[3 * p] }

  function RArray(x: Input, p: nat): nat
    requires p < Reads(x)
  { x.rtab[3 * p + 1] }

  function RIndex(x: Input, p: nat): nat
    requires p < Reads(x)
  { x.rtab[3 * p + 2] }

  /** Entry p of the read table, against the entries before it. */
  predicate ReadEntryOk(x: Input, p: nat)
    requires p < Reads(x)
  {
    && RVar(x, p) < |x.t| && x.t[RVar(x, p)] == Var(8)
    && RIndex(x, p) < |x.t| && Widths(x.t, |x.t|)[RIndex(x, p)] == 32
    && forall q :: 0 <= q < p ==> RVar(x, q) != RVar(x, p) && !(RArray(x, q) == RArray(x, p) && RIndex(x, q) == RIndex(x, p))
  }

  predicate ReadsOk(x: Input) { |x.rtab| % 3 == 0 && forall p :: 0 <= p < Reads(x) ==> ReadEntryOk(x, p) }

  predicate IsRead(x: Input, d: nat) { exists p :: 0 <= p < Reads(x) && RVar(x, p) == d }

  function Calls(x: Input): nat { |x.ctab| / 4 }

  function CVar(x: Input, p: nat): nat
    requires p < Calls(x)
  { x.ctab[4 * p] }

  function CFunc(x: Input, p: nat): nat
    requires p < Calls(x)
  { x.ctab[4 * p + 1] }

  function CFirst(x: Input, p: nat): nat
    requires p < Calls(x)
  { x.ctab[4 * p + 2] }

  function CArity(x: Input, p: nat): nat
    requires p < Calls(x)
  { x.ctab[4 * p + 3] }

  predicate ArgsInRange(x: Input, p: nat)
    requires p < Calls(x)
  {
    CFirst(x, p) + CArity(x, p) <= |x.cargs| &&
    forall l :: CFirst(x, p) <= l < CFirst(x, p) + CArity(x, p) ==> x.cargs[l] < |x.t|
  }

  /** The argument nodes of entry p. */
  function CArgs(x: Input, p: nat): (args: seq<nat>)
    requires p < Calls(x) && ArgsInRange(x, p)
    ensures |args| == CArity(x, p) && forall l :: 0 <= l < |args| ==> args[l] < |x.t|
  {
    x.cargs[CFirst(x, p)..CFirst(x, p) + CArity(x, p)]
  }

  predicate SameCall(x: Input, p: nat, q: nat)
    requires p < Calls(x) && q < Calls(x) && ArgsInRange(x, p) && ArgsInRange(x, q)
  {
    CFunc(x, p) == CFunc(x, q) && CArgs(x, p) == CArgs(x, q)
  }

  predicate CallEntryOk(x: Input, p: nat)
    requires p < Calls(x)
  {
    && CVar(x, p) < |x.t| && x.t[CVar(x, p)].Var? && !IsRead(x, CVar(x, p)) && ArgsInRange(x, p)
    && forall q :: 0 <= q < p ==> CVar(x, q) != CVar(x, p) && (ArgsInRange(x, q) ==> !SameCall(x, q, p))
  }

  predicate CallsOk(x: Input) { |x.ctab| % 4 == 0 && forall p :: 0 <= p < Calls(x) ==> CallEntryOk(x, p) }

  predicate IsCall(x: Input, d: nat) { exists p :: 0 <= p < Calls(x) && CVar(x, p) == d }

  // ---------- one extended node ----------

  /** Offset and width of a constant extended node. */
  function ExtConst(e: seq<ExtNode>, k: nat): Option<(nat, nat)>
  {
    if k < |e| && e[k].Core? && e[k].nd.Const? then Some((e[k].nd.s, e[k].nd.w)) else None
  }

  /** Two constant extended nodes with the same bits. */
  predicate SameConst(x: Input, a: (nat, nat), b: (nat, nat))
  {
    a.1 == b.1 && T.BitsEq(x.ebits, a.0, x.ebits, b.0, a.1)
  }

  datatype WalkEnd = Broken | Resolved | Base(cur: nat)

  /** One symbolic level: cur is ite(index = j, value, rest). */
  predicate IteLevel(x: Input, j: nat, off: nat, cur: nat)
  {
    && cur < |x.t| && x.t[cur].Ite? && x.t[cur].t == T.MapAt(x.m, SideAt(x.eside, off + 1))
    && x.t[cur].c < |x.t| && x.t[x.t[cur].c] == Cmp(Eq, T.MapAt(x.m, SideAt(x.eside, off)), T.MapAt(x.m, j))
  }

  /** Where the read-over-write walk of a select ends, starting at core node
      cur with k levels left: broken, resolved to a stored value, or at the
      base array's read variable. */
  function Walk(x: Input, j: nat, off: nat, k: nat, cur: nat): WalkEnd
    decreases k
  {
    if k == 0 then Base(cur) else
    var xc, jc := ExtConst(x.e, SideAt(x.eside, off)), ExtConst(x.e, j);
    if xc.Some? && jc.Some? then
      if SameConst(x, xc.value, jc.value) then
        if cur == T.MapAt(x.m, SideAt(x.eside, off + 1)) then Resolved else Broken
      else Walk(x, j, off + 2, k - 1, cur)
    else if IteLevel(x, j, off, cur) then Walk(x, j, off + 2, k - 1, x.t[cur].e)
    else Broken
  }

  predicate Mapped(x: Input, i: nat) { i < |x.m| && x.m[i] < |x.t| }

  /** Where the walk of select i ends. */
  function EndOf(x: Input, i: nat): WalkEnd
    requires i < |x.e| == |x.m| && x.e[i].Select?
  {
    Walk(x, x.e[i].idx, x.e[i].s, x.e[i].n, x.m[i])
  }

  /** Read entry p is registered for variable d at (aid, core index xj). */
  predicate ReadFor(x: Input, p: nat, d: nat, aid: nat, xj: nat)
  {
    p < Reads(x) && RVar(x, p) == d && RArray(x, p) == aid && RIndex(x, p) == xj
  }

  predicate SelectOk(x: Input, i: nat)
    requires i < |x.e| == |x.m| && x.e[i].Select?
  {
    match EndOf(x, i)
    case Broken => false
    case Resolved => true
    case Base(cur) => exists p :: 0 <= p < Reads(x) && ReadFor(x, p, cur, x.e[i].aid, T.MapAt(x.m, x.e[i].idx))
  }

  function ArgImage(x: Input, off: nat): nat { T.MapAt(x.m, SideAt(x.eside, off)) }

  /** The images of the n arguments listed from off on. */
  function ArgImages(x: Input, off: nat, n: nat): (images: seq<nat>)
    ensures |images| == n
    ensures forall l :: 0 <= l < n ==> images[l] == ArgImage(x, off + l)
  {
    if n == 0 then [] else ArgImages(x, off, n - 1) + [ArgImage(x, off + n - 1)]
  }

  /** Call entry p is registered for call i. */
  predicate CallFor(x: Input, p: nat, i: nat)
    requires i < |x.e| == |x.m| && x.e[i].Call?
  {
    && p < Calls(x) && ArgsInRange(x, p) && CVar(x, p) == x.m[i]
    && CFunc(x, p) == x.e[i].fid && CArgs(x, p) == ArgImages(x, x.e[i].s, x.e[i].n)
  }

  predicate CallOk(x: Input, i: nat)
    requires i < |x.e| == |x.m| && x.e[i].Call? && Mapped(x, i)
  {
    x.t[x.m[i]] == Var(x.e[i].w) && exists p :: 0 <= p < Calls(x) && CallFor(x, p, i)
  }

  /** Extended variable k is mapped to d. */
  predicate VarImage(x: Input, k: nat, d: nat)
    requires |x.e| == |x.m|
  {
    k < |x.e| && x.e[k].Core? && x.e[k].nd.Var? && x.m[k] == d
  }

  predicate CoreOk(x: Input, i: nat)
    requires i < |x.e| == |x.m| && x.e[i].Core? && Mapped(x, i)
  {
    var nd, d := x.e[i].nd, x.t[x.m[i]];
    if nd.Var? then
      d == nd && !IsRead(x, x.m[i]) && !IsCall(x, x.m[i]) && forall k :: 0 <= k < i ==> !VarImage(x, k, x.m[i])
    else if nd.Const? then d.Const? && nd.w == d.w && T.BitsEq(x.ebits, nd.s, x.tbits, d.s, nd.w)
    else T.MapNode(x.m, nd) == d
  }

  predicate StepOk(x: Input, i: nat)
    requires i < |x.e| == |x.m|
  {
    x.m[i] == NONE ||
    (x.m[i] < |x.t| &&
     match x.e[i]
     case Core(_) => CoreOk(x, i)
     case Select(_, _, _, _) => SelectOk(x, i)
     case Call(_, _, _, _) => CallOk(x, i))
  }

  /** Extended node i reaches table variable d. */
  predicate Reaches(x: Input, i: nat, d: nat)
    requires |x.e| == |x.m|
  {
    i < |x.e| && Mapped(x, i) &&
    match x.e[i]
    case Core(_) => false
    case Select(_, _, _, _) => EndOf(x, i) == Base(d)
    case Call(_, _, _, _) => x.m[i] == d
  }

  predicate Live(x: Input, d: nat)
    requires |x.e| == |x.m|
  {
    exists i :: 0 <= i < |x.e| && Reaches(x, i, d)
  }

  // ---------- the roots ----------

  predicate ExtRootsCorr(x: Input)
  {
    |x.eroots| <= |x.troots| &&
    forall k :: 0 <= k < |x.eroots| ==> T.MapAt(x.m, x.eroots[k]) == x.troots[k] != NONE
  }

  /** Root r is or(not(ante), vp = vq). */
  predicate Implication(x: Input, r: nat, ante: nat, vp: nat, vq: nat)
  {
    && r < |x.t| && x.t[r].BoolOr? && x.t[r].b < |x.t| && x.t[x.t[r].b] == Cmp(Eq, vp, vq)
    && x.t[r].a < |x.t| && x.t[x.t[r].a] == Not(ante)
  }

  /** Both nodes are constants, with unequal bits. */
  predicate ConstPairUnequal(x: Input, a: nat, b: nat)
  {
    a < |x.t| && b < |x.t| && x.t[a].Const? && x.t[b].Const? &&
    !(x.t[a].w == x.t[b].w && T.BitsEq(x.tbits, x.t[a].s, x.tbits, x.t[b].s, x.t[a].w))
  }

  predicate ReadPair(x: Input, p: nat, q: nat)
    requires p < Reads(x) && q < Reads(x)
  {
    RArray(x, p) == RArray(x, q) && !ConstPairUnequal(x, RIndex(x, p), RIndex(x, q))
  }

  /** Root r is the congruence clause of read entries p and q. */
  predicate ReadRootOk(x: Input, p: nat, q: nat, r: nat)
  {
    p < Reads(x) && q < Reads(x) &&
    exists ante :: 0 <= ante < |x.t| && Implication(x, r, ante, RVar(x, p), RVar(x, q)) &&
                   x.t[ante] == Cmp(Eq, RIndex(x, p), RIndex(x, q))
  }

  predicate CallPair(x: Input, p: nat, q: nat)
    requires p < Calls(x) && q < Calls(x)
  {
    CFunc(x, p) == CFunc(x, q) && CArity(x, p) == CArity(x, q)
  }

  /** a is the conjunction of the k argument equalities, the last outermost. */
  predicate AnteOk(x: Input, sp: nat, sq: nat, k: nat, a: nat)
    requires k >= 1 && sp + k <= |x.cargs| && sq + k <= |x.cargs|
    decreases k
  {
    a < |x.t| &&
    if k == 1 then x.t[a] == Cmp(Eq, x.cargs[sp], x.cargs[sq])
    else
      x.t[a].BoolAnd? && x.t[a].b < |x.t| && x.t[x.t[a].b] == Cmp(Eq, x.cargs[sp + k - 1], x.cargs[sq + k - 1]) &&
      AnteOk(x, sp, sq, k - 1, x.t[a].a)
  }

  /** Root r is the congruence clause of call entries p and q. */
  predicate CallRootOk(x: Input, p: nat, q: nat, r: nat)
  {
    p < Calls(x) && q < Calls(x) && ArgsInRange(x, p) && ArgsInRange(x, q) && CArity(x, p) == CArity(x, q) &&
    if CArity(x, p) == 0 then r < |x.t| && x.t[r] == Cmp(Eq, CVar(x, p), CVar(x, q))
    else exists ante :: 0 <= ante < |x.t| && Implication(x, r, ante, CVar(x, p), CVar(x, q)) &&
                        AnteOk(x, CFirst(x, p), CFirst(x, q), CArity(x, p), ante)
  }

  /** A pair of table entries that owes a congruence root. */
  datatype Owed = OwedRead(p: nat, q: nat) | OwedCall(p: nat, q: nat)

  predicate Owes(x: Input, o: Owed)
  {
    o.p < o.q &&
    match o
    case OwedRead(p, q) => q < Reads(x) && ReadPair(x, p, q)
    case OwedCall(p, q) => q < Calls(x) && CallPair(x, p, q)
  }

  /** The pairs of entry p with the entries from q on. */
  function ReadRow(x: Input, p: nat, q: nat): (os: seq<Owed>)
    requires p < q
    ensures forall k :: 0 <= k < |os| ==> Owes(x, os[k])
    decreases Reads(x) - q
  {
    if q >= Reads(x) then [] else (if ReadPair(x, p, q) then [OwedRead(p, q)] else []) + ReadRow(x, p, q + 1)
  }

  function ReadPairs(x: Input, p: nat): (os: seq<Owed>)
    ensures forall k :: 0 <= k < |os| ==> Owes(x, os[k])
    decreases Reads(x) - p
  {
    if p >= Reads(x) then [] else ReadRow(x, p, p + 1) + ReadPairs(x, p + 1)
  }

  function CallRow(x: Input, p: nat, q: nat): (os: seq<Owed>)
    requires p < q
    ensures forall k :: 0 <= k < |os| ==> Owes(x, os[k])
    decreases Calls(x) - q
  {
    if q >= Calls(x) then [] else (if CallPair(x, p, q) then [OwedCall(p, q)] else []) + CallRow(x, p, q + 1)
  }

  function CallPairs(x: Input, p: nat): (os: seq<Owed>)
    ensures forall k :: 0 <= k < |os| ==> Owes(x, os[k])
    decreases Calls(x) - p
  {
    if p >= Calls(x) then [] else CallRow(x, p, p + 1) + CallPairs(x, p + 1)
  }

  /** Every congruence root the tables owe, in table order, reads first. */
  function AllOwed(x: Input): (os: seq<Owed>)
    ensures forall k :: 0 <= k < |os| ==> Owes(x, os[k])
  {
    ReadPairs(x, 0) + CallPairs(x, 0)
  }

  predicate RootOk(x: Input, o: Owed, r: nat)
  {
    match o
    case OwedRead(p, q) => ReadRootOk(x, p, q, r)
    case OwedCall(p, q) => CallRootOk(x, p, q, r)
  }

  /** The core roots from idx on start with the owed ones, in order. */
  predicate RootsAt(x: Input, os: seq<Owed>, idx: nat)
  {
    idx + |os| <= |x.troots| && forall k :: 0 <= k < |os| ==> RootOk(x, os[k], x.troots[idx + k])
  }

  predicate Congruent(x: Input)
  {
    RootsAt(x, AllOwed(x), |x.eroots|) && |x.troots| == |x.eroots| + |AllOwed(x)|
  }

  lemma RootsAtSplit(x: Input, os: seq<Owed>, more: seq<Owed>, idx: nat)
    ensures RootsAt(x, os + more, idx) <==> RootsAt(x, os, idx) && RootsAt(x, more, idx + |os|)
  {
    if RootsAt(x, os + more, idx) {
      forall k | 0 <= k < |os| ensures RootOk(x, os[k], x.troots[idx + k]) { assert (os + more)[k] == os[k]; }
      forall k | 0 <= k < |more| ensures RootOk(x, more[k], x.troots[idx + |os| + k]) {
        assert (os + more)[|os| + k] == more[k];
      }
    }
  }

  /** Every pair that owes a root is listed. */
  lemma OwedListed(x: Input, o: Owed)
    requires Owes(x, o)
    ensures o in AllOwed(x)
  {
    match o {
      case OwedRead(p, q) => ReadListed(x, 0, p, q);
      case OwedCall(p, q) => CallListed(x, 0, p, q);
    }
  }

  lemma {:induction false} ReadListed(x: Input, from: nat, p: nat, q: nat)
    requires from <= p && Owes(x, OwedRead(p, q))
    ensures OwedRead(p, q) in ReadPairs(x, from)
    decreases p - from
  {
    hide ReadRow, ReadPair;
    assert ReadPairs(x, from) == ReadRow(x, from, from + 1) + ReadPairs(x, from + 1);
    if from < p { ReadListed(x, from + 1, p, q); } else { ReadInRow(x, p, p + 1, q); }
  }

  lemma {:induction false} ReadInRow(x: Input, p: nat, from: nat, q: nat)
    requires p < from <= q && Owes(x, OwedRead(p, q))
    ensures OwedRead(p, q) in ReadRow(x, p, from)
    decreases q - from
  {
    if from < q { ReadInRow(x, p, from + 1, q); }
  }

  lemma {:induction false} CallListed(x: Input, from: nat, p: nat, q: nat)
    requires from <= p && Owes(x, OwedCall(p, q))
    ensures OwedCall(p, q) in CallPairs(x, from)
    decreases p - from
  {
    hide CallRow, CallPair;
    assert CallPairs(x, from) == CallRow(x, from, from + 1) + CallPairs(x, from + 1);
    if from < p { CallListed(x, from + 1, p, q); } else { CallInRow(x, p, p + 1, q); }
  }

  lemma {:induction false} CallInRow(x: Input, p: nat, from: nat, q: nat)
    requires p < from <= q && Owes(x, OwedCall(p, q))
    ensures OwedCall(p, q) in CallRow(x, p, from)
    decreases q - from
  {
    if from < q { CallInRow(x, p, from + 1, q); }
  }

  // ---------- acceptance ----------

  predicate Accepted(x: Input)
  {
    && ExtWf(x.e, |x.ebits|, x.eside) && DagWf(x.t, |x.tbits|) && |x.m| == |x.e|
    && ReadsOk(x) && CallsOk(x)
    && (forall i :: 0 <= i < |x.e| ==> StepOk(x, i))
    && (forall p :: 0 <= p < Reads(x) ==> Live(x, RVar(x, p)))
    && (forall p :: 0 <= p < Calls(x) ==> Live(x, CVar(x, p)))
    && ExtRootsCorr(x) && Congruent(x)
  }
}
