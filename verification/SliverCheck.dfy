/** The sliver check as it runs: one pass that classifies core variables in
    place, then the root enumeration; proved to accept exactly the
    declarative correspondence. */
module SliverCheck {
  import opened Wrappers
  import opened BvOps
  import opened Dag
  import opened Sliver
  import T = TermCheck

  /** What a core variable is to the extended query. */
  datatype Class = Unclassified | QueryVar | ReadVar | CallVar | LiveRead | LiveCall

  // ---------- the tables ----------

  /** Offset o is a read entry, before entry k, of variable d. */
  ghost predicate ReadReg(x: Input, k: nat, o: nat, d: nat)
  {
    exists p: nat :: p < k && p < Reads(x) && o == 3 * p && RVar(x, p) == d
  }

  ghost predicate CallReg(x: Input, k: nat, o: nat, d: nat)
  {
    exists p: nat :: p < k && p < Calls(x) && o == 4 * p && CVar(x, p) == d
  }

  ghost predicate ReadBefore(x: Input, k: nat, d: nat) { exists p: nat :: p < k && p < Reads(x) && RVar(x, p) == d }

  ghost predicate CallBefore(x: Input, k: nat, d: nat) { exists p: nat :: p < k && p < Calls(x) && CVar(x, p) == d }

  /** The marks after the first kr read and kc call entries. */
  ghost predicate TableMarks(x: Input, cls: seq<Class>, ent: seq<nat>, kr: nat, kc: nat)
  {
    && |cls| == |ent| == |x.t|
    && forall d :: 0 <= d < |x.t| ==>
         match cls[d]
         case Unclassified => !ReadBefore(x, kr, d) && !CallBefore(x, kc, d)
         case ReadVar => ReadReg(x, kr, ent[d], d)
         case CallVar => CallReg(x, kc, ent[d], d)
         case _ => false
  }

  method ReadDup(x: Input, k: nat, aid: nat, idx: nat) returns (found: bool)
    requires k <= Reads(x)
    ensures found <==> exists q :: 0 <= q < k && RArray(x, q) == aid && RIndex(x, q) == idx
  {
    found := false;
    var q, off := 0, 0;
    while !found && off < 3 * k
      invariant 0 <= q <= k && off == 3 * q
      invariant found ==> exists r :: 0 <= r < q && RArray(x, r) == aid && RIndex(x, r) == idx
      invariant !found ==> forall r :: 0 <= r < q ==> !(RArray(x, r) == aid && RIndex(x, r) == idx)
    {
      assert x.rtab[off + 1] == RArray(x, q);
      if x.rtab[off + 1] == aid && x.rtab[off + 2] == idx { found := true; }
      q, off := q + 1, off + 3;
    }
  }

  /** Entry k is the first bad one, or the table ends inside it. */
  ghost predicate FirstBadRead(x: Input, k: nat)
  {
    && (forall p :: 0 <= p < k && p < Reads(x) ==> ReadEntryOk(x, p))
    && if k < Reads(x) then !ReadEntryOk(x, k) else k == Reads(x) && |x.rtab| % 3 != 0
  }

  ghost predicate FirstBadCall(x: Input, k: nat)
  {
    && (forall p :: 0 <= p < k && p < Calls(x) ==> CallEntryOk(x, p))
    && if k < Calls(x) then !CallEntryOk(x, k) else k == Calls(x) && |x.ctab| % 4 != 0
  }

  /** Validate the read table and classify its variables. */
  method ReadEntries(x: Input, ws: seq<nat>, cls: array<Class>, ent: array<nat>) returns (r: Result<Unit, SliverError>)
    requires ws == Widths(x.t, |x.t|) && TableMarks(x, cls[..], ent[..], 0, 0)
    requires forall d :: 0 <= d < |x.t| ==> cls[d] == Unclassified
    modifies cls, ent
    ensures r.Ok? <==> ReadsOk(x)
    ensures r.Ok? ==> TableMarks(x, cls[..], ent[..], Reads(x), 0)
    ensures r.Err? ==> exists k: nat :: r.error == ReadTable(k) && FirstBadRead(x, k)
  {
    var k, off := 0, 0;
    while off < |x.rtab|
      invariant 0 <= k <= Reads(x) && off == 3 * k
      invariant forall p :: 0 <= p < k ==> ReadEntryOk(x, p)
      invariant TableMarks(x, cls[..], ent[..], k, 0)
      invariant forall d :: 0 <= d < |x.t| ==> !cls[d].CallVar?
    {
      if |x.rtab| - off < 3 { return Err(ReadTable(k)); }
      var v, aid, idx := x.rtab[off], x.rtab[off + 1], x.rtab[off + 2];
      assert v == RVar(x, k) && aid == RArray(x, k) && idx == RIndex(x, k);
      ghost var entryOk := ReadEntryOk(x, k);
      var dup := ReadDup(x, k, aid, idx);
      if v >= |x.t| || x.t[v] != Var(8) || cls[v] != Unclassified || idx >= |x.t| || ws[idx] != 32 || dup {
        ReadRefused(x, cls[..], ent[..], k);
        return Err(ReadTable(k));
      }
      ReadMarked(x, cls[..], ent[..], k);
      cls[v] := ReadVar;
      ent[v] := off;
      k, off := k + 1, off + 3;
    }
    return Ok(Unit);
  }

  lemma ReadRefused(x: Input, cls: seq<Class>, ent: seq<nat>, k: nat)
    requires k < Reads(x) && TableMarks(x, cls, ent, k, 0)
    ensures RVar(x, k) < |x.t| && cls[RVar(x, k)] == ReadVar ==> !ReadEntryOk(x, k)
  {
    var v := RVar(x, k);
    if v < |x.t| && cls[v].ReadVar? { assert ReadReg(x, k, ent[v], v); }
  }

  lemma ReadMarked(x: Input, cls: seq<Class>, ent: seq<nat>, k: nat)
    requires k < Reads(x) && TableMarks(x, cls, ent, k, 0) && RVar(x, k) < |x.t|
    requires forall d :: 0 <= d < |x.t| ==> !cls[d].CallVar?
    ensures cls[RVar(x, k)] == Unclassified ==> forall q :: 0 <= q < k ==> RVar(x, q) != RVar(x, k)
    ensures TableMarks(x, cls[RVar(x, k) := ReadVar], ent[RVar(x, k) := 3 * k], k + 1, 0)
  {
    var v := RVar(x, k);
    var cls', ent' := cls[v := ReadVar], ent[v := 3 * k];
    forall d: nat | d < |x.t|
      ensures cls'[d].ReadVar? ==> ReadReg(x, k + 1, ent'[d], d)
      ensures cls'[d].Unclassified? ==> !ReadBefore(x, k + 1, d) && !CallBefore(x, 0, d)
    {
      if d != v && cls[d].ReadVar? { assert ReadReg(x, k, ent[d], d); }
      if d != v && cls[d].Unclassified? { assert !ReadBefore(x, k, d); }
    }
  }

  method CheckArgsInRange(x: Input, s: nat, k: nat) returns (ok: bool)
    ensures ok <==> s + k <= |x.cargs| && forall l :: s <= l < s + k ==> x.cargs[l] < |x.t|
  {
    if s > |x.cargs| || k > |x.cargs| - s { return false; }
    ok := true;
    var l := 0;
    while ok && l < k
      invariant 0 <= l <= k
      invariant ok ==> forall o :: s <= o < s + l ==> x.cargs[o] < |x.t|
      invariant !ok ==> exists o :: s <= o < s + k && x.cargs[o] >= |x.t|
    {
      if x.cargs[s + l] >= |x.t| { ok := false; }
      l := l + 1;
    }
  }

  method ArgsEq(cargs: seq<nat>, s1: nat, s2: nat, k: nat) returns (ok: bool)
    requires s1 + k <= |cargs| && s2 + k <= |cargs|
    ensures ok <==> cargs[s1..s1 + k] == cargs[s2..s2 + k]
  {
    ok := true;
    var l := 0;
    while ok && l < k
      invariant 0 <= l <= k
      invariant ok ==> cargs[s1..s1 + l] == cargs[s2..s2 + l]
      invariant !ok ==> cargs[s1..s1 + k] != cargs[s2..s2 + k]
    {
      assert cargs[s1..s1 + l + 1] == cargs[s1..s1 + l] + [cargs[s1 + l]];
      assert cargs[s2..s2 + l + 1] == cargs[s2..s2 + l] + [cargs[s2 + l]];
      if cargs[s1 + l] != cargs[s2 + l] {
        assert cargs[s1..s1 + k][l] != cargs[s2..s2 + k][l];
        ok := false;
      }
      l := l + 1;
    }
  }

  method CallDup(x: Input, k: nat) returns (found: bool)
    requires k < Calls(x) && ArgsInRange(x, k) && forall q :: 0 <= q < k ==> ArgsInRange(x, q)
    ensures found <==> exists q :: 0 <= q < k && SameCall(x, q, k)
  {
    var fid, s, arity := CFunc(x, k), CFirst(x, k), CArity(x, k);
    found := false;
    var q, off := 0, 0;
    while !found && off < 4 * k
      invariant 0 <= q <= k && off == 4 * q
      invariant found ==> exists r :: 0 <= r < q && SameCall(x, r, k)
      invariant !found ==> forall r :: 0 <= r < q ==> !SameCall(x, r, k)
    {
      assert x.ctab[off + 1] == CFunc(x, q) && x.ctab[off + 2] == CFirst(x, q) && x.ctab[off + 3] == CArity(x, q);
      assert ArgsInRange(x, q);
      if x.ctab[off + 1] == fid && x.ctab[off + 3] == arity {
        var same := ArgsEq(x.cargs, x.ctab[off + 2], s, arity);
        if same {
          assert SameCall(x, q, k);
          found := true;
        }
      }
      q, off := q + 1, off + 4;
    }
  }

  /** Validate the call table and classify its variables. */
  method CallEntries(x: Input, cls: array<Class>, ent: array<nat>) returns (r: Result<Unit, SliverError>)
    requires ReadsOk(x) && TableMarks(x, cls[..], ent[..], Reads(x), 0)
    modifies cls, ent
    ensures r.Ok? <==> CallsOk(x)
    ensures r.Ok? ==> TableMarks(x, cls[..], ent[..], Reads(x), Calls(x))
    ensures r.Err? ==> exists k: nat :: r.error == CallTable(k) && FirstBadCall(x, k)
  {
    var k, off := 0, 0;
    while off < |x.ctab|
      invariant 0 <= k <= Calls(x) && off == 4 * k
      invariant forall p :: 0 <= p < k ==> CallEntryOk(x, p)
      invariant TableMarks(x, cls[..], ent[..], Reads(x), k)
    {
      if |x.ctab| - off < 4 { return Err(CallTable(k)); }
      var v, s, arity := x.ctab[off], x.ctab[off + 2], x.ctab[off + 3];
      assert v == CVar(x, k) && s == CFirst(x, k) && arity == CArity(x, k);
      ghost var entryOk := CallEntryOk(x, k);
      var inRange := CheckArgsInRange(x, s, arity);
      assert inRange == ArgsInRange(x, k);
      CallClassified(x, cls[..], ent[..], k);
      if v >= |x.t| || !x.t[v].Var? || cls[v] != Unclassified || !inRange { return Err(CallTable(k)); }
      forall q | 0 <= q < k ensures ArgsInRange(x, q) { assert CallEntryOk(x, q); }
      var dup := CallDup(x, k);
      if dup { return Err(CallTable(k)); }
      cls[v] := CallVar;
      ent[v] := off;
      k, off := k + 1, off + 4;
    }
    return Ok(Unit);
  }

  /** The variable of entry k is unclassified exactly when no earlier entry
      has it. */
  lemma CallClassified(x: Input, cls: seq<Class>, ent: seq<nat>, k: nat)
    requires k < Calls(x) && TableMarks(x, cls, ent, Reads(x), k)
    ensures CVar(x, k) < |x.t| ==>
              (cls[CVar(x, k)] == Unclassified <==>
                !IsRead(x, CVar(x, k)) && forall q :: 0 <= q < k ==> CVar(x, q) != CVar(x, k))
    ensures CVar(x, k) < |x.t| && cls[CVar(x, k)] == Unclassified ==>
              TableMarks(x, cls[CVar(x, k) := CallVar], ent[CVar(x, k) := 4 * k], Reads(x), k + 1)
  {
    var v := CVar(x, k);
    if v < |x.t| {
      if cls[v].ReadVar? { assert ReadReg(x, Reads(x), ent[v], v); }
      if cls[v].CallVar? { assert CallReg(x, k, ent[v], v); }
      if cls[v].Unclassified? {
        assert !ReadBefore(x, Reads(x), v) && !CallBefore(x, k, v);
        var cls', ent' := cls[v := CallVar], ent[v := 4 * k];
        forall d: nat | d < |x.t|
          ensures cls'[d].ReadVar? ==> ReadReg(x, Reads(x), ent'[d], d)
          ensures cls'[d].CallVar? ==> CallReg(x, k + 1, ent'[d], d)
          ensures cls'[d].Unclassified? ==> !ReadBefore(x, Reads(x), d) && !CallBefore(x, k + 1, d)
        {
          if d != v && cls[d].ReadVar? { assert ReadReg(x, Reads(x), ent[d], d); }
          if d != v && cls[d].CallVar? { assert CallReg(x, k, ent[d], d); }
          if d != v && cls[d].Unclassified? { assert !ReadBefore(x, Reads(x), d) && !CallBefore(x, k, d); }
        }
      }
    }
  }

  // ---------- one extended node ----------

  ghost predicate Ready(x: Input)
  {
    ExtWf(x.e, |x.ebits|, x.eside) && DagWf(x.t, |x.tbits|) && |x.m| == |x.e| && |x.t| <= USIZE_MAX && ReadsOk(x) && CallsOk(x)
  }

  ghost predicate ReachedBefore(x: Input, i: nat, d: nat)
    requires |x.e| == |x.m|
  {
    exists k: nat :: k < i && Reaches(x, k, d)
  }

  ghost predicate TakenBefore(x: Input, i: nat, d: nat)
    requires |x.e| == |x.m|
  {
    exists k: nat :: k < i && VarImage(x, k, d)
  }

  /** One core variable's class and entry after the first i extended nodes. */
  ghost predicate MarkOk(x: Input, c: Class, o: nat, i: nat, d: nat)
    requires |x.e| == |x.m|
  {
    match c
    case Unclassified => !IsRead(x, d) && !IsCall(x, d) && !TakenBefore(x, i, d)
    case QueryVar => !IsRead(x, d) && !IsCall(x, d) && TakenBefore(x, i, d)
    case ReadVar => ReadReg(x, Reads(x), o, d) && !ReachedBefore(x, i, d)
    case LiveRead => ReadReg(x, Reads(x), o, d) && ReachedBefore(x, i, d)
    case CallVar => CallReg(x, Calls(x), o, d) && !ReachedBefore(x, i, d)
    case LiveCall => CallReg(x, Calls(x), o, d) && ReachedBefore(x, i, d)
  }

  ghost predicate Marks(x: Input, cls: seq<Class>, ent: seq<nat>, i: nat)
    requires |x.e| == |x.m|
  {
    |cls| == |ent| == |x.t| && forall d: nat :: d < |x.t| ==> MarkOk(x, cls[d], ent[d], i, d)
  }

  lemma TablesMark(x: Input, cls: seq<Class>, ent: seq<nat>)
    requires |x.e| == |x.m| && TableMarks(x, cls, ent, Reads(x), Calls(x))
    ensures Marks(x, cls, ent, 0)
  {
    forall d: nat | d < |x.t| && cls[d].Unclassified? ensures !IsRead(x, d) && !IsCall(x, d) {
      assert !ReadBefore(x, Reads(x), d) && !CallBefore(x, Calls(x), d);
    }
  }

  /** What a mark says of the tables. */
  lemma MarkMeans(x: Input, c: Class, o: nat, i: nat, d: nat)
    requires Ready(x) && MarkOk(x, c, o, i, d)
    ensures IsRead(x, d) <==> c.ReadVar? || c.LiveRead?
    ensures IsCall(x, d) <==> c.CallVar? || c.LiveCall?
    ensures IsRead(x, d) ==> o % 3 == 0 && o / 3 < Reads(x) && RVar(x, o / 3) == d
    ensures IsCall(x, d) ==> o % 4 == 0 && o / 4 < Calls(x) && CVar(x, o / 4) == d
  {
    hide RVar, CVar, Reads, Calls, DagWf, ExtWf, ReadsOk, CallEntryOk, TakenBefore, ReachedBefore;
    if c.ReadVar? || c.LiveRead? {
      var p: nat :| p < Reads(x) && o == 3 * p && RVar(x, p) == d;
      assert o / 3 == p;
      NotACall(x, d);
    }
    if c.CallVar? || c.LiveCall? {
      var p: nat :| p < Calls(x) && o == 4 * p && CVar(x, p) == d;
      assert o / 4 == p;
      NotARead(x, p);
    }
  }

  lemma NotACall(x: Input, d: nat)
    requires CallsOk(x) && IsRead(x, d)
    ensures !IsCall(x, d)
  {
    forall q | 0 <= q < Calls(x) ensures CVar(x, q) != d { assert CallEntryOk(x, q); }
  }

  lemma NotARead(x: Input, p: nat)
    requires CallsOk(x) && p < Calls(x)
    ensures !IsRead(x, CVar(x, p))
  {
    assert CallEntryOk(x, p);
  }

  /** A select whose walk ends at a read variable marks it reached. */
  lemma ReadReached(x: Input, cls: seq<Class>, ent: seq<nat>, i: nat, d: nat)
    requires Ready(x) && Marks(x, cls, ent, i) && i < |x.e| && x.e[i].Select? && Mapped(x, i)
    requires EndOf(x, i) == Base(d) && d < |x.t| && IsRead(x, d)
    ensures Marks(x, cls[d := LiveRead], ent, i + 1)
  {
    hide EndOf, ExtWf, DagWf, ReadsOk, CallsOk, IsRead, IsCall, ReadReg;
    ghost var mark := MarkOk(x, cls[d], ent[d], i, d);
    MarkMeans(x, cls[d], ent[d], i, d);
    assert Reaches(x, i, d);
    MarksTouch(x, cls, ent, i, d, LiveRead);
  }

  lemma ReadUnique(x: Input, p: nat, q: nat)
    requires ReadsOk(x) && p < Reads(x) && q < Reads(x) && RVar(x, p) == RVar(x, q)
    ensures p == q
  {
    assert ReadEntryOk(x, p) && ReadEntryOk(x, q);
  }

  lemma CallUnique(x: Input, p: nat, q: nat)
    requires CallsOk(x) && p < Calls(x) && q < Calls(x) && CVar(x, p) == CVar(x, q)
    ensures p == q
  {
    assert CallEntryOk(x, p) && CallEntryOk(x, q);
  }

  /** Node i reaches nothing and takes nothing: the marks stand. */
  lemma MarksStand(x: Input, cls: seq<Class>, ent: seq<nat>, i: nat)
    requires |x.e| == |x.m| && Marks(x, cls, ent, i)
    requires forall d: nat :: d < |x.t| ==> !Reaches(x, i, d) && !VarImage(x, i, d)
    ensures Marks(x, cls, ent, i + 1)
  {
    forall d: nat | d < |x.t| ensures MarkOk(x, cls[d], ent[d], i + 1, d) {
      assert ReachedBefore(x, i + 1, d) <==> ReachedBefore(x, i, d);
      assert TakenBefore(x, i + 1, d) <==> TakenBefore(x, i, d);
      assert MarkOk(x, cls[d], ent[d], i, d);
    }
  }

  /** Node i touches core variable v alone. */
  lemma MarksTouch(x: Input, cls: seq<Class>, ent: seq<nat>, i: nat, v: nat, c: Class)
    requires |x.e| == |x.m| && Marks(x, cls, ent, i) && v < |x.t| && MarkOk(x, c, ent[v], i + 1, v)
    requires forall d: nat :: d < |x.t| && d != v ==> !Reaches(x, i, d) && !VarImage(x, i, d)
    ensures Marks(x, cls[v := c], ent, i + 1)
  {
    forall d: nat | d < |x.t| && d != v ensures MarkOk(x, cls[d], ent[d], i + 1, d) {
      assert ReachedBefore(x, i + 1, d) <==> ReachedBefore(x, i, d);
      assert TakenBefore(x, i + 1, d) <==> TakenBefore(x, i, d);
      assert MarkOk(x, cls[d], ent[d], i, d);
    }
  }

  /** A closed node against its image; a variable claims it. */
  method CoreCorr(x: Input, cls: array<Class>, ghost ent: seq<nat>, i: nat) returns (ok: bool)
    requires Ready(x) && i < |x.e| && x.e[i].Core? && Mapped(x, i) && Marks(x, cls[..], ent, i)
    modifies cls
    ensures ok <==> CoreOk(x, i)
    ensures ok ==> Marks(x, cls[..], ent, i + 1)
  {
    var mi := x.m[i];
    var nd, d := x.e[i].nd, x.t[mi];
    if nd.Var? {
      ghost var mark := MarkOk(x, cls[mi], ent[mi], i, mi);
      MarkMeans(x, cls[mi], ent[mi], i, mi);
      if !d.Var? || nd.w != d.w || cls[mi] != Unclassified { return false; }
      assert VarImage(x, i, mi);
      MarksTouch(x, cls[..], ent, i, mi, QueryVar);
      cls[mi] := QueryVar;
      return true;
    }
    MarksStand(x, cls[..], ent, i);
    if nd.Const? {
      if !d.Const? || nd.w != d.w { return false; }
      ok := T.CheckBitsEq(x.ebits, nd.s, x.tbits, d.s, nd.w);
      return;
    }
    return T.MapNode(x.m, nd) == d;
  }

  /** Is cur the read variable registered for (aid, xj)? */
  method BaseReadOk(x: Input, cls: array<Class>, ent: array<nat>, ghost i: nat, aid: nat, xj: nat, cur: nat)
    returns (ok: bool)
    requires Ready(x) && Marks(x, cls[..], ent[..], i)
    ensures ok <==> exists p :: 0 <= p < Reads(x) && ReadFor(x, p, cur, aid, xj)
    ensures ok ==> cur < |x.t| && IsRead(x, cur)
  {
    if cur >= |x.t| {
      forall p | 0 <= p < Reads(x) ensures RVar(x, p) < |x.t| { assert ReadEntryOk(x, p); }
      return false;
    }
    ghost var mark := MarkOk(x, cls[cur], ent[cur], i, cur);
    MarkMeans(x, cls[cur], ent[cur], i, cur);
    if !cls[cur].ReadVar? && !cls[cur].LiveRead? { return false; }
    var o := ent[cur];
    ghost var p := o / 3;
    assert x.rtab[o + 1] == RArray(x, p) && x.rtab[o + 2] == RIndex(x, p);
    ok := o < |x.rtab| && |x.rtab| - o >= 3 && x.rtab[o + 1] == aid && x.rtab[o + 2] == xj;
    assert ok ==> ReadFor(x, p, cur, aid, xj);
    forall q | 0 <= q < Reads(x) && ReadFor(x, q, cur, aid, xj) ensures ok { ReadUnique(x, p, q); }
  }

  /** One level of the walk. */
  lemma WalkLevel(x: Input, j: nat, off: nat, k: nat, cur: nat)
    requires k > 0 && off + 1 < |x.eside|
    ensures var xc, jc := ExtConst(x.e, x.eside[off]), ExtConst(x.e, j);
            var image := T.MapAt(x.m, x.eside[off + 1]);
            Walk(x, j, off, k, cur) ==
              if xc.Some? && jc.Some? then
                if !SameConst(x, xc.value, jc.value) then Walk(x, j, off + 2, k - 1, cur)
                else if cur == image then Resolved else Broken
              else if IteLevel(x, j, off, cur) then Walk(x, j, off + 2, k - 1, x.t[cur].e) else Broken
  {
    hide ExtConst, SameConst, IteLevel;
  }

  lemma WalkEnds(x: Input, j: nat, off: nat, cur: nat)
    ensures Walk(x, j, off, 0, cur) == Base(cur)
  {
  }

  /** Walk the levels of select i, then mark the base read reached. */
  method ChainWalk(x: Input, cls: array<Class>, ent: array<nat>, i: nat) returns (ok: bool)
    requires Ready(x) && i < |x.e| && x.e[i].Select? && Mapped(x, i) && Marks(x, cls[..], ent[..], i)
    modifies cls
    ensures ok <==> SelectOk(x, i)
    ensures ok ==> Marks(x, cls[..], ent[..], i + 1)
  {
    hide Walk, MarkOk, ExtConst, ReadsOk, CallsOk, DagWf, IsRead;
    var aid, j, s, k := x.e[i].aid, x.e[i].idx, x.e[i].s, x.e[i].n;
    assert ExtWfAt(x.e, |x.ebits|, x.eside, i);
    var cur: nat := x.m[i];
    var l, off, done := 0, s, false;
    ok := true;
    while ok && !done && l < k
      invariant 0 <= l <= k && off == s + 2 * l && cls[..] == old(cls[..])
      invariant ok && !done ==> EndOf(x, i) == Walk(x, j, off, k - l, cur)
      invariant ok && done ==> EndOf(x, i) == Resolved
      invariant !ok ==> EndOf(x, i) == Broken
    {
      assert LevelWf(ExtWidths(x.e, i), x.eside, s + 2 * l);
      WalkLevel(x, j, off, k - l, cur);
      var lx, lv := x.eside[off], x.eside[off + 1];
      var xc, jc := ExtConst(x.e, lx), ExtConst(x.e, j);
      if xc.Some? && jc.Some? {
        var same := T.CheckBitsEq(x.ebits, xc.value.0, x.ebits, jc.value.0, xc.value.1);
        if xc.value.1 == jc.value.1 && same {
          ok := cur == T.MapAt(x.m, lv);
          done := true;
        }
      } else if cur < |x.t| {
        var d := x.t[cur];
        if d.Ite? && d.t == T.MapAt(x.m, lv) && d.c < |x.t| && x.t[d.c] == Cmp(Eq, T.MapAt(x.m, lx), T.MapAt(x.m, j)) {
          cur := d.e;
        } else {
          ok := false;
        }
      } else {
        ok := false;
      }
      off := off + 2;
      l := l + 1;
    }
    if ok && !done {
      WalkEnds(x, j, off, cur);
      ok := BaseReadOk(x, cls, ent, i, aid, T.MapAt(x.m, j), cur);
      if ok {
        ReadReached(x, cls[..], ent[..], i, cur);
        cls[cur] := LiveRead;
      }
    } else if ok {
      MarksStand(x, cls[..], ent[..], i);
    }
  }

  method ArgsMatch(x: Input, s: nat, cs: nat, k: nat) returns (ok: bool)
    requires (k > 0 ==> s + k <= |x.eside|) && cs + k <= |x.cargs|
    ensures ok <==> x.cargs[cs..cs + k] == ArgImages(x, s, k)
  {
    ok := true;
    var l := 0;
    while ok && l < k
      invariant 0 <= l <= k
      invariant ok ==> x.cargs[cs..cs + l] == ArgImages(x, s, l)
      invariant !ok ==> x.cargs[cs..cs + k] != ArgImages(x, s, k)
    {
      assert x.cargs[cs..cs + l + 1] == x.cargs[cs..cs + l] + [x.cargs[cs + l]];
      if T.MapAt(x.m, x.eside[s + l]) != x.cargs[cs + l] {
        assert ArgImages(x, s, k)[l] == ArgImage(x, s + l);
        assert x.cargs[cs..cs + k][l] == x.cargs[cs + l];
        ok := false;
      }
      l := l + 1;
    }
  }

  /** The call's image is the result variable registered for it. */
  method CallCorr(x: Input, cls: array<Class>, ent: array<nat>, i: nat) returns (ok: bool)
    requires Ready(x) && i < |x.e| && x.e[i].Call? && Mapped(x, i) && Marks(x, cls[..], ent[..], i)
    modifies cls
    ensures ok <==> CallOk(x, i)
    ensures ok ==> Marks(x, cls[..], ent[..], i + 1)
  {
    var fid, w, s, k, mi := x.e[i].fid, x.e[i].w, x.e[i].s, x.e[i].n, x.m[i];
    ghost var mark := MarkOk(x, cls[mi], ent[mi], i, mi);
    MarkMeans(x, cls[mi], ent[mi], i, mi);
    if (!cls[mi].CallVar? && !cls[mi].LiveCall?) || x.t[mi] != Var(w) { return false; }
    var o := ent[mi];
    if o >= |x.ctab| || |x.ctab| - o < 4 { return false; }
    ghost var p := o / 4;
    assert x.ctab[o + 1] == CFunc(x, p) && x.ctab[o + 2] == CFirst(x, p) && x.ctab[o + 3] == CArity(x, p);
    assert CallEntryOk(x, p);
    assert ExtWfAt(x.e, |x.ebits|, x.eside, i);
    if k > 0 { assert ArgWf(ExtWidths(x.e, i), x.eside, s + k - 1); }
    forall q | 0 <= q < Calls(x) && CallFor(x, q, i) ensures q == p { CallUnique(x, p, q); }
    if x.ctab[o + 1] != fid || x.ctab[o + 3] != k { return false; }
    ok := ArgsMatch(x, s, x.ctab[o + 2], k);
    assert ok <==> CallFor(x, p, i);
    if ok {
      assert Reaches(x, i, mi);
      MarksTouch(x, cls[..], ent[..], i, mi, LiveCall);
      cls[mi] := LiveCall;
    }
  }

  function Complaint(x: Input, i: nat): SliverError
    requires i < |x.e| == |x.m|
  {
    if x.m[i] >= |x.t| then MapOutOfRange(i) else
    match x.e[i]
    case Core(nd) => if nd.Var? then VarClass(i) else if nd.Const? then ConstMismatch(i) else NodeMismatch(i)
    case Select(_, _, _, _) => ChainMismatch(i)
    case Call(_, _, _, _) => CallMismatch(i)
  }

  /** One extended node of the main loop. */
  method ExtStep(x: Input, cls: array<Class>, ent: array<nat>, i: nat) returns (r: Result<Unit, SliverError>)
    requires Ready(x) && i < |x.e| && Marks(x, cls[..], ent[..], i)
    modifies cls
    ensures r == if StepOk(x, i) then Ok(Unit) else Err(Complaint(x, i))
    ensures r.Ok? ==> Marks(x, cls[..], ent[..], i + 1)
  {
    var mi := x.m[i];
    if mi == NONE {
      MarksStand(x, cls[..], ent[..], i);
      return Ok(Unit);
    }
    if mi >= |x.t| { return Err(MapOutOfRange(i)); }
    var ok;
    match x.e[i] {
      case Core(nd) => ok := CoreCorr(x, cls, ent[..], i);
      case Select(_, _, _, _) => ok := ChainWalk(x, cls, ent, i);
      case Call(_, _, _, _) => ok := CallCorr(x, cls, ent, i);
    }
    return if ok then Ok(Unit) else Err(Complaint(x, i));
  }

  /** Every table variable before d is reached. */
  ghost predicate LiveBefore(x: Input, d: nat)
    requires |x.e| == |x.m|
  {
    forall c: nat :: c < d && c < |x.t| && (IsRead(x, c) || IsCall(x, c)) ==> Sliver.Live(x, c)
  }

  /** The first variable of a table entry that nothing reached. */
  method DeadEntry(x: Input, cls: array<Class>, ghost ent: seq<nat>) returns (found: nat)
    requires Ready(x) && Marks(x, cls[..], ent, |x.e|)
    ensures found <= |x.t| && LiveBefore(x, found)
    ensures found < |x.t| ==> (IsRead(x, found) || IsCall(x, found)) && !Sliver.Live(x, found)
  {
    found := |x.t|;
    var i := 0;
    while found == |x.t| && i < |x.t|
      invariant 0 <= i <= |x.t| && found <= |x.t|
      invariant found < |x.t| ==> LiveBefore(x, found) && (IsRead(x, found) || IsCall(x, found)) && !Sliver.Live(x, found)
      invariant found == |x.t| ==> LiveBefore(x, i)
    {
      ghost var mark := MarkOk(x, cls[i], ent[i], |x.e|, i);
      MarkMeans(x, cls[i], ent[i], |x.e|, i);
      assert ReachedBefore(x, |x.e|, i) <==> Sliver.Live(x, i);
      if cls[i].ReadVar? || cls[i].CallVar? { found := i; }
      i := i + 1;
    }
  }

  // ---------- the roots ----------

  method CheckExtRootsCorr(x: Input) returns (ok: bool)
    ensures ok == ExtRootsCorr(x)
  {
    if |x.eroots| > |x.troots| { return false; }
    ok := true;
    var k := 0;
    while ok && k < |x.eroots|
      invariant 0 <= k <= |x.eroots|
      invariant ok ==> forall j :: 0 <= j < k ==> T.MapAt(x.m, x.eroots[j]) == x.troots[j] != NONE
      invariant !ok ==> !ExtRootsCorr(x)
    {
      var image := T.MapAt(x.m, x.eroots[k]);
      if image == NONE || image != x.troots[k] { ok := false; }
      k := k + 1;
    }
  }

  /** The antecedent of a root spelled or(not(ante), vp = vq). */
  function ImplicationShape(x: Input, root: nat, vp: nat, vq: nat): (ante: Option<nat>)
    ensures forall a: nat :: Implication(x, root, a, vp, vq) <==> ante == Some(a)
  {
    if root >= |x.t| || !x.t[root].BoolOr? then None else
    var nn, c := x.t[root].a, x.t[root].b;
    if c >= |x.t| || x.t[c] != Cmp(Eq, vp, vq) || nn >= |x.t| || !x.t[nn].Not? then None else Some(x.t[nn].a)
  }

  method CheckConstPair(x: Input, a: nat, b: nat) returns (r: bool)
    ensures r == ConstPairUnequal(x, a, b)
  {
    if a >= |x.t| || b >= |x.t| { return false; }
    var da, db := x.t[a], x.t[b];
    if !da.Const? || !db.Const? { return false; }
    var same := T.CheckBitsEq(x.tbits, da.s, x.tbits, db.s, da.w);
    return !(da.w == db.w && same);
  }

  /** The rows and totals checked so far: roots idx0 .. idx are the owed ones
      of done; a failure stops at the first one that is not. */
  ghost predicate Progress(x: Input, all: seq<Owed>, done: seq<Owed>, rest: seq<Owed>, idx0: nat, idx: nat, ok: bool)
  {
    && all == done + rest && idx == idx0 + |done| && RootsAt(x, done, idx0)
    && (!ok ==> rest != [] && (idx >= |x.troots| || !RootOk(x, rest[0], x.troots[idx])))
  }

  lemma NoProgress(x: Input, all: seq<Owed>, idx0: nat)
    requires idx0 <= |x.troots|
    ensures Progress(x, all, [], all, idx0, idx0, true)
  {
  }

  lemma ProgressStep(x: Input, all: seq<Owed>, done: seq<Owed>, rest: seq<Owed>, idx0: nat, idx: nat)
    requires Progress(x, all, done, rest, idx0, idx, true) && rest != []
    requires idx < |x.troots| && RootOk(x, rest[0], x.troots[idx])
    ensures Progress(x, all, done + [rest[0]], rest[1..], idx0, idx + 1, true)
  {
    RootsAtSplit(x, done, [rest[0]], idx0);
    assert all == (done + [rest[0]]) + rest[1..];
  }

  /** The congruence roots of read entry p against every later entry. */
  method ArrayCongFor(x: Input, p: nat, idx0: nat) returns (ok: bool, idx: nat, ghost done: seq<Owed>, ghost rest: seq<Owed>)
    requires p < Reads(x) && idx0 <= |x.troots|
    ensures Progress(x, ReadRow(x, p, p + 1), done, rest, idx0, idx, ok) && (ok ==> rest == [])
  {
    var aid, vp, xp := x.rtab[3 * p + 1], x.rtab[3 * p], x.rtab[3 * p + 2];
    idx, ok, done, rest := idx0, true, [], ReadRow(x, p, p + 1);
    var q, oq := p + 1, 3 * p + 3;
    while ok && q < Reads(x)
      invariant p < q <= Reads(x) && oq == 3 * q
      invariant Progress(x, ReadRow(x, p, p + 1), done, rest, idx0, idx, ok)
      invariant ok ==> rest == ReadRow(x, p, q)
    {
      var xq := x.rtab[oq + 2];
      assert x.rtab[oq] == RVar(x, q) && x.rtab[oq + 1] == RArray(x, q) && xq == RIndex(x, q);
      var skip := CheckConstPair(x, xp, xq);
      if x.rtab[oq + 1] == aid && !skip {
        assert rest == [OwedRead(p, q)] + ReadRow(x, p, q + 1);
        if idx >= |x.troots| {
          ok := false;
        } else {
          var a := ImplicationShape(x, x.troots[idx], vp, x.rtab[oq]);
          if a.None? || a.value >= |x.t| || x.t[a.value] != Cmp(Eq, xp, xq) {
            ok := false;
          } else {
            assert Implication(x, x.troots[idx], a.value, RVar(x, p), RVar(x, q));
            ProgressStep(x, ReadRow(x, p, p + 1), done, rest, idx0, idx);
            done, rest := done + [rest[0]], rest[1..];
            idx := idx + 1;
          }
        }
      }
      q, oq := q + 1, oq + 3;
    }
  }

  /** Every array congruence root, in table order. */
  method ArrayCong(x: Input, idx0: nat) returns (ok: bool, idx: nat, ghost done: seq<Owed>, ghost rest: seq<Owed>)
    requires idx0 <= |x.troots|
    ensures Progress(x, ReadPairs(x, 0), done, rest, idx0, idx, ok) && (ok ==> rest == [])
  {
    idx, ok, done, rest := idx0, true, [], ReadPairs(x, 0);
    var p := 0;
    while ok && p < Reads(x)
      invariant 0 <= p <= Reads(x) && idx0 <= idx <= |x.troots|
      invariant Progress(x, ReadPairs(x, 0), done, rest, idx0, idx, ok)
      invariant ok ==> rest == ReadPairs(x, p)
    {
      ghost var row, tail;
      ok, idx, row, tail := ArrayCongFor(x, p, idx);
      ProgressRow(x, ReadPairs(x, 0), done, ReadRow(x, p, p + 1), ReadPairs(x, p + 1), row, tail, idx0, idx, ok);
      done, rest := done + row, tail + ReadPairs(x, p + 1);
      p := p + 1;
    }
  }

  /** A checked row extends the progress of the rows before it. */
  lemma ProgressRow(x: Input, all: seq<Owed>, done: seq<Owed>, first: seq<Owed>, later: seq<Owed>, row: seq<Owed>,
                    tail: seq<Owed>, idx0: nat, idx: nat, ok: bool)
    requires Progress(x, all, done, first + later, idx0, idx0 + |done|, true)
    requires Progress(x, first, row, tail, idx0 + |done|, idx, ok)
    ensures Progress(x, all, done + row, tail + later, idx0, idx, ok)
    ensures idx <= |x.troots|
  {
    RootsAtSplit(x, done, row, idx0);
    assert all == (done + row) + (tail + later);
  }

  /** The antecedent over k >= 1 arguments, unwound from the last equality. */
  method CheckAnte(x: Input, sp: nat, sq: nat, k: nat, a: nat) returns (ok: bool)
    requires k >= 1 && sp + k <= |x.cargs| && sq + k <= |x.cargs|
    ensures ok == AnteOk(x, sp, sq, k, a)
  {
    var cur: nat := a;
    var l := k;
    ok := true;
    while ok && l > 1
      invariant 1 <= l <= k
      invariant ok ==> AnteOk(x, sp, sq, k, a) == AnteOk(x, sp, sq, l, cur)
      invariant !ok ==> !AnteOk(x, sp, sq, k, a)
    {
      l := l - 1;
      if cur >= |x.t| {
        ok := false;
      } else {
        var d := x.t[cur];
        if !d.BoolAnd? || d.b >= |x.t| || x.t[d.b] != Cmp(Eq, x.cargs[sp + l], x.cargs[sq + l]) {
          ok := false;
        } else {
          cur := d.a;
        }
      }
    }
    return ok && cur < |x.t| && x.t[cur] == Cmp(Eq, x.cargs[sp], x.cargs[sq]);
  }

  /** One call pair's root. */
  method CheckCallRoot(x: Input, p: nat, q: nat, r: nat) returns (ok: bool)
    requires CallsOk(x) && p < Calls(x) && q < Calls(x) && CallPair(x, p, q)
    ensures ok == CallRootOk(x, p, q, r)
  {
    assert CallEntryOk(x, p) && CallEntryOk(x, q);
    if CArity(x, p) == 0 { return r < |x.t| && x.t[r] == Cmp(Eq, CVar(x, p), CVar(x, q)); }
    var a := ImplicationShape(x, r, CVar(x, p), CVar(x, q));
    if a.None? { return false; }
    assert Implication(x, r, a.value, CVar(x, p), CVar(x, q));
    ok := CheckAnte(x, CFirst(x, p), CFirst(x, q), CArity(x, p), a.value);
  }

  /** The congruence roots of call entry p against every later entry of its
      function with its arity. */
  method UfCongFor(x: Input, p: nat, idx0: nat) returns (ok: bool, idx: nat, ghost done: seq<Owed>, ghost rest: seq<Owed>)
    requires CallsOk(x) && p < Calls(x) && idx0 <= |x.troots|
    ensures Progress(x, CallRow(x, p, p + 1), done, rest, idx0, idx, ok) && (ok ==> rest == [])
  {
    hide RootsAt, CallRootOk, CallsOk;
    var fid, k := x.ctab[4 * p + 1], x.ctab[4 * p + 3];
    idx, ok, done, rest := idx0, true, [], CallRow(x, p, p + 1);
    NoProgress(x, rest, idx0);
    var q, oq := p + 1, 4 * p + 4;
    while ok && q < Calls(x)
      invariant p < q <= Calls(x) && oq == 4 * q
      invariant Progress(x, CallRow(x, p, p + 1), done, rest, idx0, idx, ok)
      invariant ok ==> rest == CallRow(x, p, q)
    {
      assert x.ctab[oq + 1] == CFunc(x, q) && x.ctab[oq + 3] == CArity(x, q);
      if x.ctab[oq + 1] == fid && x.ctab[oq + 3] == k {
        assert rest == [OwedCall(p, q)] + CallRow(x, p, q + 1);
        if idx >= |x.troots| {
          ok := false;
        } else {
          ok := CheckCallRoot(x, p, q, x.troots[idx]);
          if ok {
            ProgressStep(x, CallRow(x, p, p + 1), done, rest, idx0, idx);
            done, rest := done + [rest[0]], rest[1..];
            idx := idx + 1;
          }
        }
      }
      q, oq := q + 1, oq + 4;
    }
  }

  /** Every call congruence root, in table order. */
  method UfCong(x: Input, idx0: nat) returns (ok: bool, idx: nat, ghost done: seq<Owed>, ghost rest: seq<Owed>)
    requires CallsOk(x) && idx0 <= |x.troots|
    ensures Progress(x, CallPairs(x, 0), done, rest, idx0, idx, ok) && (ok ==> rest == [])
  {
    idx, ok, done, rest := idx0, true, [], CallPairs(x, 0);
    var p := 0;
    while ok && p < Calls(x)
      invariant 0 <= p <= Calls(x) && idx0 <= idx <= |x.troots|
      invariant Progress(x, CallPairs(x, 0), done, rest, idx0, idx, ok)
      invariant ok ==> rest == CallPairs(x, p)
    {
      ghost var row, tail;
      ok, idx, row, tail := UfCongFor(x, p, idx);
      ProgressRow(x, CallPairs(x, 0), done, CallRow(x, p, p + 1), CallPairs(x, p + 1), row, tail, idx0, idx, ok);
      done, rest := done + row, tail + CallPairs(x, p + 1);
      p := p + 1;
    }
  }

  // ---------- the entry point ----------

  /** The first owed root that the core's roots do not have in its place. */
  ghost predicate RootBlame(x: Input, root: nat)
  {
    |x.eroots| <= root < |x.eroots| + |AllOwed(x)| && RootsAt(x, AllOwed(x)[..root - |x.eroots|], |x.eroots|) &&
    (root >= |x.troots| || !RootOk(x, AllOwed(x)[root - |x.eroots|], x.troots[root]))
  }

  /** Every node and every table entry passes. */
  ghost predicate NodesOk(x: Input)
  {
    Ready(x) && (forall i :: 0 <= i < |x.e| ==> StepOk(x, i)) && LiveBefore(x, |x.t|)
  }

  /** What a rejection says: everything checked before holds, and what is
      named is the first thing that does not. */
  ghost predicate Blames(x: Input, error: SliverError)
  {
    match error
    case Ext(i) =>
      i < |x.e| && !ExtWfAt(x.e, |x.ebits|, x.eside, i) && forall k :: 0 <= k < i ==> ExtWfAt(x.e, |x.ebits|, x.eside, k)
    case CoreError(core) =>
      && ExtWf(x.e, |x.ebits|, x.eside) && core.NodeNotWellFormed? && core.node < |x.t| && !WfAt(x.t, |x.tbits|, core.node)
      && forall k :: 0 <= k < core.node ==> WfAt(x.t, |x.tbits|, k)
    case MapLength(n, found) =>
      ExtWf(x.e, |x.ebits|, x.eside) && DagWf(x.t, |x.tbits|) && n == |x.e| && found == |x.m| && n != found
    case ReadTable(k) =>
      ExtWf(x.e, |x.ebits|, x.eside) && DagWf(x.t, |x.tbits|) && |x.e| == |x.m| && FirstBadRead(x, k)
    case CallTable(k) =>
      ExtWf(x.e, |x.ebits|, x.eside) && DagWf(x.t, |x.tbits|) && |x.e| == |x.m| && ReadsOk(x) && FirstBadCall(x, k)
    case DeadEntry(d) =>
      && Ready(x) && (forall i :: 0 <= i < |x.e| ==> StepOk(x, i))
      && d < |x.t| && (IsRead(x, d) || IsCall(x, d)) && !Sliver.Live(x, d) && LiveBefore(x, d)
    case RootMismatch =>
      && NodesOk(x)
      && (ExtRootsCorr(x) ==> RootsAt(x, AllOwed(x), |x.eroots|) && |x.troots| > |x.eroots| + |AllOwed(x)|)
    case CongruenceMismatch(root) => NodesOk(x) && ExtRootsCorr(x) && RootBlame(x, root)
    case _ =>
      && Ready(x)
      && exists i :: FirstBadStep(x, i) && error == Complaint(x, i)
  }

  ghost predicate FirstBadStep(x: Input, i: nat)
    requires |x.e| == |x.m|
  {
    i < |x.e| && !StepOk(x, i) && forall k :: 0 <= k < i ==> StepOk(x, k)
  }

  /** The main loop. */
  method CheckNodes(x: Input, cls: array<Class>, ent: array<nat>) returns (r: Result<Unit, SliverError>)
    requires Ready(x) && Marks(x, cls[..], ent[..], 0)
    modifies cls
    ensures r.Ok? <==> forall i :: 0 <= i < |x.e| ==> StepOk(x, i)
    ensures r.Ok? ==> Marks(x, cls[..], ent[..], |x.e|)
    ensures r.Err? ==> exists i :: FirstBadStep(x, i) && r.error == Complaint(x, i)
  {
    for i := 0 to |x.e|
      invariant Marks(x, cls[..], ent[..], i)
      invariant forall k :: 0 <= k < i ==> StepOk(x, k)
    {
      var step := ExtStep(x, cls, ent, i);
      if step.Err? {
        assert FirstBadStep(x, i);
        return step;
      }
    }
    return Ok(Unit);
  }

  /** The read part of the owed roots: all in place, or the first that is
      not. */
  lemma ReadsPart(x: Input, done: seq<Owed>, rest: seq<Owed>, idx: nat, ok: bool)
    requires Progress(x, ReadPairs(x, 0), done, rest, |x.eroots|, idx, ok) && (ok ==> rest == [])
    ensures ok ==> RootsAt(x, ReadPairs(x, 0), |x.eroots|) && idx == |x.eroots| + |ReadPairs(x, 0)| && idx <= |x.troots|
    ensures !ok ==> RootBlame(x, idx)
  {
    hide RootOk, RootBlame, ReadPairs, CallPairs;
    if !ok {
      RootsAtSplit(x, [], ReadPairs(x, 0), |x.eroots|);
      assert AllOwed(x) == [] + ReadPairs(x, 0) + CallPairs(x, 0);
      FirstUnmatched(x, ReadPairs(x, 0), CallPairs(x, 0), [], done, rest, |x.eroots|, idx);
    } else {
      assert done == ReadPairs(x, 0);
    }
  }

  /** The call part, after the read part. */
  lemma CallsPart(x: Input, done: seq<Owed>, rest: seq<Owed>, idx0: nat, idx: nat, ok: bool)
    requires RootsAt(x, ReadPairs(x, 0), |x.eroots|) && idx0 == |x.eroots| + |ReadPairs(x, 0)|
    requires Progress(x, CallPairs(x, 0), done, rest, idx0, idx, ok) && (ok ==> rest == [])
    ensures ok ==> RootsAt(x, AllOwed(x), |x.eroots|) && idx == |x.eroots| + |AllOwed(x)| && idx <= |x.troots|
    ensures !ok ==> RootBlame(x, idx)
  {
    hide RootOk, RootBlame, ReadPairs, CallPairs;
    if !ok {
      assert AllOwed(x) == ReadPairs(x, 0) + CallPairs(x, 0) + [];
      FirstUnmatched(x, CallPairs(x, 0), [], ReadPairs(x, 0), done, rest, idx0, idx);
    } else {
      assert done == CallPairs(x, 0);
      RootsAtSplit(x, ReadPairs(x, 0), CallPairs(x, 0), |x.eroots|);
    }
  }

  /** The roots: images, then exactly the owed congruence roots. */
  method CheckRoots(x: Input) returns (r: Result<Unit, SliverError>)
    requires NodesOk(x)
    ensures r.Ok? ==> ExtRootsCorr(x) && Congruent(x)
    ensures r.Err? ==> Blames(x, r.error)
  {
    hide NodesOk, Ready, Progress, RootsAt, RootBlame, AllOwed, ReadPairs, CallPairs;
    var rootsOk := CheckExtRootsCorr(x);
    if !rootsOk { return Err(RootMismatch); }
    var okA, idxA, doneA, restA := ArrayCong(x, |x.eroots|);
    ReadsPart(x, doneA, restA, idxA, okA);
    if !okA { return Err(CongruenceMismatch(idxA)); }
    assert CallsOk(x) by { NodesTables(x); }
    var okU, idxU, doneU, restU := UfCong(x, idxA);
    CallsPart(x, doneU, restU, idxA, idxU, okU);
    if !okU { return Err(CongruenceMismatch(idxU)); }
    if idxU != |x.troots| { return Err(RootMismatch); }
    return Ok(Unit);
  }

  lemma NodesTables(x: Input)
    requires NodesOk(x)
    ensures CallsOk(x)
  {
  }

  /** Where the progress of one part of the owed roots stops is where the
      owed roots stop. */
  lemma FirstUnmatched(x: Input, part: seq<Owed>, later: seq<Owed>, before: seq<Owed>, done: seq<Owed>, rest: seq<Owed>,
                       idx0: nat, idx: nat)
    requires AllOwed(x) == before + part + later && RootsAt(x, before, |x.eroots|) && idx0 == |x.eroots| + |before|
    requires Progress(x, part, done, rest, idx0, idx, false)
    ensures RootBlame(x, idx)
  {
    hide RootOk;
    RootsAtSplit(x, before, done, |x.eroots|);
    var all := AllOwed(x);
    assert all == before + done + rest + later;
    assert all[..idx - |x.eroots|] == before + done;
    assert all[idx - |x.eroots|] == rest[0];
  }

  /** What is blamed is not accepted. */
  lemma BlamedRefused(x: Input, error: SliverError)
    requires Blames(x, error)
    ensures !Accepted(x)
  {
    hide ExtWfAt, WfAt, ReadEntryOk, CallEntryOk, StepOk, ExtRootsCorr, Live, RootOk;
    if error.CongruenceMismatch? { RootBlamed(x, error.root); }
  }

  lemma RootBlamed(x: Input, root: nat)
    requires RootBlame(x, root)
    ensures !Congruent(x)
  {
    hide RootOk, AllOwed;
  }

  lemma Passed(x: Input)
    requires NodesOk(x) && ExtRootsCorr(x) && Congruent(x)
    ensures Accepted(x)
  {
    hide ExtWf, DagWf, StepOk, ExtRootsCorr, Congruent, Live;
    EntriesInCore(x);
  }

  /** Both node lists and the map's length; the core widths. */
  method CheckForms(x: Input) returns (r: Result<seq<nat>, SliverError>)
    ensures r.Ok? ==> ExtWf(x.e, |x.ebits|, x.eside) && DagWf(x.t, |x.tbits|) && |x.m| == |x.e|
    ensures r.Ok? ==> r.value == Widths(x.t, |x.t|)
    ensures r.Err? ==> Blames(x, r.error)
  {
    hide ExtWfAt, WfAt, Widths;
    var wf0 := CheckExtWf(x.e, |x.ebits|, x.eside);
    if wf0.Err? { return Err(wf0.error); }
    var wf1 := CheckWf(x.t, |x.tbits|);
    if wf1.Err? { return Err(CoreError(wf1.error)); }
    if |x.m| != |x.e| { return Err(MapLength(|x.e|, |x.m|)); }
    return Ok(wf1.value);
  }

  method CheckStages(x: Input) returns (r: Result<Unit, SliverError>)
    requires |x.t| <= USIZE_MAX
    ensures r.Ok? ==> NodesOk(x) && ExtRootsCorr(x) && Congruent(x)
    ensures r.Err? ==> Blames(x, r.error)
  {
    hide ExtWf, ExtWfAt, DagWf, WfAt, ReadsOk, CallsOk, FirstBadRead, FirstBadCall, StepOk, Live, Widths, LiveBefore;
    hide TableMarks, Marks, IsRead, IsCall, ExtRootsCorr, Congruent, RootBlame, RootsAt, AllOwed;
    var forms := CheckForms(x);
    if forms.Err? { return Err(forms.error); }
    var cls, ent := new Class[|x.t|](_ => Unclassified), new nat[|x.t|](_ => 0);
    NoMarks(x, cls[..], ent[..]);
    var readTable := ReadEntries(x, forms.value, cls, ent);
    if readTable.Err? { return readTable; }
    var callTable := CallEntries(x, cls, ent);
    if callTable.Err? { return callTable; }
    TablesMark(x, cls[..], ent[..]);
    var nodes := CheckNodes(x, cls, ent);
    if nodes.Err? { return nodes; }
    var dead := DeadEntry(x, cls, ent[..]);
    if dead < |x.t| { return Err(SliverError.DeadEntry(dead)); }
    r := CheckRoots(x);
  }

  lemma NoMarks(x: Input, cls: seq<Class>, ent: seq<nat>)
    requires |cls| == |ent| == |x.t| && forall d :: 0 <= d < |cls| ==> cls[d] == Unclassified
    ensures TableMarks(x, cls, ent, 0, 0)
  {
  }

  /** THE SLIVER CHECK: it accepts exactly the declarative correspondence, and
      every rejection names the first thing that is wrong. */
  method CheckSliverLowering(x: Input) returns (r: Result<Unit, SliverError>)
    requires |x.t| <= USIZE_MAX
    ensures r.Ok? <==> Accepted(x)
    ensures r.Err? ==> Blames(x, r.error)
  {
    hide Accepted, ExtWf, DagWf, ReadsOk, CallsOk, FirstBadRead, FirstBadCall, StepOk, ExtRootsCorr, Congruent, Live, Widths;
    r := CheckStages(x);
    if r.Err? {
      BlamedRefused(x, r.error);
    } else {
      Passed(x);
    }
  }

  lemma EntriesInCore(x: Input)
    requires ReadsOk(x) && CallsOk(x)
    ensures forall p :: 0 <= p < Reads(x) ==> RVar(x, p) < |x.t| && IsRead(x, RVar(x, p))
    ensures forall p :: 0 <= p < Calls(x) ==> CVar(x, p) < |x.t| && IsCall(x, CVar(x, p))
  {
    forall p | 0 <= p < Reads(x) ensures RVar(x, p) < |x.t| { assert ReadEntryOk(x, p); }
    forall p | 0 <= p < Calls(x) ensures CVar(x, p) < |x.t| { assert CallEntryOk(x, p); }
  }
}
