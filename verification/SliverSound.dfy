/** What an accepted sliver correspondence means: extended models and core
    models are carried to each other, in both directions. */
module SliverSound {
  import opened Wrappers
  import opened Bits
  import opened BvOps
  import opened Dag
  import opened Sliver
  import TS = TermSound
  import T = TermCheck

  // ---------- extended semantics ----------

  /** An interpretation: words for the variables, bytes for every array at
      every index value, a word for every function at every width and tuple
      of argument values.  What is not listed reads as zero. */
  datatype Model = Model(env: Env, arrays: imap<(nat, Bv), Bv>, funs: imap<(nat, nat, seq<Bv>), Bv>)

  ghost function ArrayAt(mdl: Model, aid: nat, v: Bv): (z: Bv)
    ensures |z| == 8
  {
    if (aid, v) in mdl.arrays then Sized(mdl.arrays[(aid, v)], 8) else Fill(false, 8)
  }

  ghost function FunAt(mdl: Model, fid: nat, w: nat, args: seq<Bv>): (z: Bv)
    ensures |z| == w
  {
    if (fid, w, args) in mdl.funs then Sized(mdl.funs[(fid, w, args)], w) else Fill(false, w)
  }

  /** Reading a store chain at v: the outermost store to v, else the base. */
  ghost function ReadChain(eside: seq<nat>, vs: seq<Bv>, v: Bv, off: nat, k: nat, base: Bv): Bv
    decreases k
  {
    if k == 0 then base
    else if At(vs, SideAt(eside, off)) == v then At(vs, SideAt(eside, off + 1))
    else ReadChain(eside, vs, v, off + 2, k - 1, base)
  }

  function ArgVals(eside: seq<nat>, vs: seq<Bv>, off: nat, n: nat): (args: seq<Bv>)
    ensures |args| == n && forall l :: 0 <= l < n ==> args[l] == At(vs, SideAt(eside, off + l))
  {
    if n == 0 then [] else ArgVals(eside, vs, off, n - 1) + [At(vs, SideAt(eside, off + n - 1))]
  }

  ghost function ExtNodeVal(node: ExtNode, ebits: seq<bool>, eside: seq<nat>, vs: seq<Bv>, own: Bv, mdl: Model): Bv
  {
    match node
    case Core(nd) => NodeVal(nd, ebits, vs, own)
    case Select(aid, j, s, n) => ReadChain(eside, vs, At(vs, j), s, n, ArrayAt(mdl, aid, At(vs, j)))
    case Call(fid, w, s, n) => FunAt(mdl, fid, w, ArgVals(eside, vs, s, n))
  }

  /** The values of the first n extended nodes. */
  ghost function ExtVals(x: Input, mdl: Model, n: nat): (vs: seq<Bv>)
    requires n <= |x.e|
    ensures |vs| == n
  {
    if n == 0 then [] else
    var vs := ExtVals(x, mdl, n - 1);
    vs + [ExtNodeVal(x.e[n - 1], x.ebits, x.eside, vs, At(mdl.env, n - 1), mdl)]
  }

  ghost function ExtVal(x: Input, mdl: Model, i: nat): Bv
    requires i < |x.e|
  {
    ExtVals(x, mdl, i + 1)[i]
  }

  lemma {:induction false} ExtValsPrefix(x: Input, mdl: Model, i: nat, n: nat)
    requires i <= n <= |x.e|
    ensures ExtVals(x, mdl, n)[..i] == ExtVals(x, mdl, i)
    decreases n
  {
    if i < n { ExtValsPrefix(x, mdl, i, n - 1); }
  }

  lemma ExtValAt(x: Input, mdl: Model, a: nat, n: nat)
    requires a < n <= |x.e|
    ensures At(ExtVals(x, mdl, n), a) == ExtVal(x, mdl, a)
  {
    ExtValsPrefix(x, mdl, a + 1, n);
    assert ExtVals(x, mdl, n)[a] == ExtVals(x, mdl, n)[..a + 1][a];
  }

  /** The interpretation gives every query variable a word of its width. */
  ghost predicate ModelOk(e: seq<ExtNode>, mdl: Model)
  {
    |mdl.env| == |e| && forall i :: 0 <= i < |e| && e[i].Core? && e[i].nd.Var? ==> |mdl.env[i]| == e[i].nd.w
  }

  ghost predicate ExtRootsTrue(x: Input, mdl: Model)
    requires forall k :: 0 <= k < |x.eroots| ==> x.eroots[k] < |x.e|
  {
    forall k :: 0 <= k < |x.eroots| ==> Truth(ExtVal(x, mdl, x.eroots[k]))
  }

  ghost predicate ExtSat(x: Input)
    requires forall k :: 0 <= k < |x.eroots| ==> x.eroots[k] < |x.e|
  {
    exists mdl: Model :: ModelOk(x.e, mdl) && ExtRootsTrue(x, mdl)
  }

  // ---------- one node ----------

  ghost predicate Equal(x: Input, mdl: Model, env: Env, i: nat)
  {
    i < |x.e| == |x.m| && (Mapped(x, i) ==> ExtVal(x, mdl, i) == DagVal(x.t, x.tbits, env, x.m[i]))
  }

  /** Every mapped node before i has its image's value. */
  ghost predicate EqualBefore(x: Input, mdl: Model, env: Env, i: nat)
  {
    i <= |x.e| && forall k: nat :: k < i ==> Equal(x, mdl, env, k)
  }

  /** What node i asks of the interpretation: an array's cell, or a call. */
  ghost function ReachValue(x: Input, mdl: Model, i: nat): Bv
    requires i < |x.e|
  {
    var vs := ExtVals(x, mdl, i);
    match x.e[i]
    case Core(_) => []
    case Select(aid, j, _, _) => ArrayAt(mdl, aid, At(vs, j))
    case Call(fid, w, s, n) => FunAt(mdl, fid, w, ArgVals(x.eside, vs, s, n))
  }

  /** The two assignments agree on what node i reads directly. */
  ghost predicate AgreesAt(x: Input, mdl: Model, env: Env, i: nat)
    requires i < |x.e| == |x.m|
  {
    match x.e[i]
    case Core(nd) => nd.Var? && Mapped(x, i) ==> At(mdl.env, i) == At(env, x.m[i])
    case _ => forall d: nat :: Reaches(x, i, d) ==> At(env, d) == ReachValue(x, mdl, i)
  }

  lemma EqualOperand(x: Input, mdl: Model, env: Env, i: nat, a: nat, n: nat)
    requires Accepted(x) && |x.t| <= USIZE_MAX && EqualBefore(x, mdl, env, i)
    requires a < i && T.MapAt(x.m, a) < n <= |x.t|
    ensures Mapped(x, a) && x.m[a] == T.MapAt(x.m, a)
    ensures At(ExtVals(x, mdl, i), a) == ExtVal(x, mdl, a) == At(DagVals(x.t, x.tbits, env, n), x.m[a])
    ensures ExtVal(x, mdl, a) == DagVal(x.t, x.tbits, env, x.m[a])
  {
    assert Equal(x, mdl, env, a);
    ExtValAt(x, mdl, a, i);
    DagValAt(x.t, x.tbits, env, x.m[a], n);
  }

  lemma CoreStep(x: Input, mdl: Model, env: Env, i: nat)
    requires Accepted(x) && |x.t| <= USIZE_MAX && EqualBefore(x, mdl, env, i) && i < |x.e|
    requires x.e[i].Core? && Mapped(x, i) && AgreesAt(x, mdl, env, i)
    ensures Equal(x, mdl, env, i)
  {
    var nd, mi := x.e[i].nd, x.m[i];
    assert StepOk(x, i) && ExtWfAt(x.e, |x.ebits|, x.eside, i) && WfAt(x.t, |x.tbits|, mi);
    DagValAt(x.t, x.tbits, env, mi, |x.t|);
    if !nd.Var? && !nd.Const? {
      var us, vs := ExtVals(x, mdl, i), DagVals(x.t, x.tbits, env, mi);
      forall a | a in TS.Operands(nd) ensures At(us, a) == At(vs, T.MapAt(x.m, a)) {
        TS.OperandsEarlier(ExtWidths(x.e, i), |x.ebits|, nd, a);
        TS.OperandsMapped(x.m, nd, a);
        TS.OperandsEarlier(Widths(x.t, mi), |x.tbits|, x.t[mi], T.MapAt(x.m, a));
        EqualOperand(x, mdl, env, i, a, mi);
      }
      TS.MappedValue(x.m, nd, x.tbits, x.ebits, us, vs, At(mdl.env, i), At(env, mi));
    }
  }

  /** The value of a constant extended node is its bits. */
  lemma ConstVal(x: Input, mdl: Model, a: nat, i: nat)
    requires ExtWf(x.e, |x.ebits|, x.eside) && a < i <= |x.e| && ExtConst(x.e, a).Some?
    ensures var (s, w) := ExtConst(x.e, a).value;
            s + w <= |x.ebits| && At(ExtVals(x, mdl, i), a) == x.ebits[s..s + w]
  {
    assert ExtWfAt(x.e, |x.ebits|, x.eside, a);
    ExtValAt(x, mdl, a, i);
  }

  /** Two constants compare as their values do. */
  lemma ConstLevel(x: Input, mdl: Model, a: nat, b: nat, i: nat)
    requires ExtWf(x.e, |x.ebits|, x.eside) && a < i <= |x.e| && b < i && ExtConst(x.e, a).Some? && ExtConst(x.e, b).Some?
    ensures SameConst(x, ExtConst(x.e, a).value, ExtConst(x.e, b).value) <==>
              At(ExtVals(x, mdl, i), a) == At(ExtVals(x, mdl, i), b)
  {
    hide ExtVals, ExtWf;
    ConstVal(x, mdl, a, i);
    ConstVal(x, mdl, b, i);
  }

  /** The value a walk resolves to. */
  lemma ResolvedValue(x: Input, mdl: Model, env: Env, i: nat, a: nat, cur: nat)
    requires Accepted(x) && |x.t| <= USIZE_MAX && EqualBefore(x, mdl, env, i) && i <= |x.e|
    requires a < i && cur < |x.t| && cur == T.MapAt(x.m, a)
    ensures At(ExtVals(x, mdl, i), a) == DagVal(x.t, x.tbits, env, cur)
  {
    EqualOperand(x, mdl, env, i, a, |x.t|);
  }

  /** One symbolic level of the walk, in values. */
  lemma IteValue(x: Input, mdl: Model, env: Env, i: nat, j: nat, off: nat, cur: nat)
    requires Accepted(x) && |x.t| <= USIZE_MAX && EqualBefore(x, mdl, env, i) && j < i
    requires LevelWf(ExtWidths(x.e, i), x.eside, off) && IteLevel(x, j, off, cur)
    ensures var us := ExtVals(x, mdl, i);
            cur < |x.t| && x.t[cur].Ite? && x.t[cur].e < cur &&
            DagVal(x.t, x.tbits, env, cur) ==
              if At(us, x.eside[off]) == At(us, j) then At(us, x.eside[off + 1]) else DagVal(x.t, x.tbits, env, x.t[cur].e)
  {
    hide ExtWf, ReadsOk, CallsOk, Congruent, ExtRootsCorr, StepOk, ExtVals, DagVals, DagVal, Widths, ExtWidths, EqualBefore;
    var c, rest := x.t[cur].c, x.t[cur].e;
    assert WfAt(x.t, |x.tbits|, cur) && WfAt(x.t, |x.tbits|, c);
    DagValAt(x.t, x.tbits, env, cur, |x.t|);
    DagValAt(x.t, x.tbits, env, c, cur);
    DagValAt(x.t, x.tbits, env, rest, cur);
    EqualOperand(x, mdl, env, i, x.eside[off + 1], cur);
    EqualOperand(x, mdl, env, i, x.eside[off], c);
    EqualOperand(x, mdl, env, i, j, c);
  }

  /** THE CHAIN WALK IS READ-OVER-WRITE: a walk that is not broken ends with
      the value the store chain reads. */
  lemma {:induction false} WalkValue(x: Input, mdl: Model, env: Env, i: nat, j: nat, off: nat, k: nat, cur: nat, base: Bv)
    requires Accepted(x) && |x.t| <= USIZE_MAX && EqualBefore(x, mdl, env, i) && i <= |x.e| && j < i && cur < |x.t|
    requires forall l :: 0 <= l < k ==> LevelWf(ExtWidths(x.e, i), x.eside, off + 2 * l)
    requires Walk(x, j, off, k, cur) != Broken
    requires forall d: nat :: Walk(x, j, off, k, cur) == Base(d) ==> d < |x.t| && x.t[d].Var? && At(env, d) == base
    ensures ReadChain(x.eside, ExtVals(x, mdl, i), At(ExtVals(x, mdl, i), j), off, k, base) == DagVal(x.t, x.tbits, env, cur)
    decreases k
  {
    hide EqualBefore, SameConst, ExtConst, IteLevel, ExtVals, ExtWidths, DagWf, ExtWf, ReadsOk, CallsOk, Congruent;
    if k == 0 {
      DagValAt(x.t, x.tbits, env, cur, |x.t|);
    } else {
      assert LevelWf(ExtWidths(x.e, i), x.eside, off + 2 * 0);
      forall l | 0 <= l < k - 1 ensures LevelWf(ExtWidths(x.e, i), x.eside, off + 2 + 2 * l) {
        assert LevelWf(ExtWidths(x.e, i), x.eside, off + 2 * (l + 1));
      }
      var lx, lv := x.eside[off], x.eside[off + 1];
      var xc, jc := ExtConst(x.e, lx), ExtConst(x.e, j);
      if xc.Some? && jc.Some? {
        ConstLevel(x, mdl, lx, j, i);
        if SameConst(x, xc.value, jc.value) {
          ResolvedValue(x, mdl, env, i, lv, cur);
        } else {
          WalkValue(x, mdl, env, i, j, off + 2, k - 1, cur, base);
        }
      } else {
        IteValue(x, mdl, env, i, j, off, cur);
        WalkValue(x, mdl, env, i, j, off + 2, k - 1, x.t[cur].e, base);
      }
    }
  }

  lemma SelectStep(x: Input, mdl: Model, env: Env, i: nat)
    requires Accepted(x) && |x.t| <= USIZE_MAX && EqualBefore(x, mdl, env, i) && i < |x.e|
    requires x.e[i].Select? && Mapped(x, i) && AgreesAt(x, mdl, env, i)
    ensures Equal(x, mdl, env, i)
  {
    assert StepOk(x, i) && ExtWfAt(x.e, |x.ebits|, x.eside, i);
    var j := x.e[i].idx;
    var base := ReachValue(x, mdl, i);
    forall d: nat | EndOf(x, i) == Base(d) ensures d < |x.t| && x.t[d].Var? && At(env, d) == base {
      assert Reaches(x, i, d);
      var p :| 0 <= p < Reads(x) && ReadFor(x, p, d, x.e[i].aid, T.MapAt(x.m, j));
      assert ReadEntryOk(x, p);
    }
    WalkValue(x, mdl, env, i, j, x.e[i].s, x.e[i].n, x.m[i], base);
  }

  lemma CallStep(x: Input, mdl: Model, env: Env, i: nat)
    requires Accepted(x) && |x.t| <= USIZE_MAX && EqualBefore(x, mdl, env, i) && i < |x.e|
    requires x.e[i].Call? && Mapped(x, i) && AgreesAt(x, mdl, env, i)
    ensures Equal(x, mdl, env, i)
  {
    assert StepOk(x, i) && Reaches(x, i, x.m[i]);
    DagValAt(x.t, x.tbits, env, x.m[i], |x.t|);
  }

  lemma NodeStep(x: Input, mdl: Model, env: Env, i: nat)
    requires Accepted(x) && |x.t| <= USIZE_MAX && EqualBefore(x, mdl, env, i) && i < |x.e| && AgreesAt(x, mdl, env, i)
    ensures EqualBefore(x, mdl, env, i + 1)
  {
    hide ExtWf, DagWf, ReadsOk, CallsOk, Congruent, ExtRootsCorr, StepOk, Live, AgreesAt, ExtVal, DagVal;
    if Mapped(x, i) {
      match x.e[i] {
        case Core(_) => CoreStep(x, mdl, env, i);
        case Select(_, _, _, _) => SelectStep(x, mdl, env, i);
        case Call(_, _, _, _) => CallStep(x, mdl, env, i);
      }
    }
    assert Equal(x, mdl, env, i);
  }

  // ---------- entries, in values ----------

  /** The index value of read entry p. */
  ghost function IndexVal(x: Input, env: Env, p: nat): Bv
    requires p < Reads(x)
  {
    if RIndex(x, p) < |x.t| then DagVal(x.t, x.tbits, env, RIndex(x, p)) else []
  }

  ghost function NodeVals(x: Input, env: Env, nodes: seq<nat>): (vs: seq<Bv>)
    ensures |vs| == |nodes|
    ensures forall l :: 0 <= l < |nodes| ==> vs[l] == At(DagVals(x.t, x.tbits, env, |x.t|), nodes[l])
  {
    if nodes == [] then []
    else NodeVals(x, env, nodes[..|nodes| - 1]) + [At(DagVals(x.t, x.tbits, env, |x.t|), nodes[|nodes| - 1])]
  }

  /** The argument values of call entry p. */
  ghost function CallVals(x: Input, env: Env, p: nat): seq<Bv>
    requires p < Calls(x)
  {
    if ArgsInRange(x, p) then NodeVals(x, env, CArgs(x, p)) else []
  }

  /** One argument's image carries its value. */
  lemma ArgValueAt(x: Input, mdl: Model, env: Env, i: nat, p: nat, l: nat)
    requires Accepted(x) && |x.t| <= USIZE_MAX && EqualBefore(x, mdl, env, i) && i < |x.e|
    requires x.e[i].Call? && CallFor(x, p, i) && l < x.e[i].n
    ensures At(ExtVals(x, mdl, i), SideAt(x.eside, x.e[i].s + l)) == At(DagVals(x.t, x.tbits, env, |x.t|), CArgs(x, p)[l])
  {
    hide DagWf, ReadsOk, CallsOk, Congruent, ExtRootsCorr, StepOk, ExtVals, DagVals, EqualBefore;
    assert ExtWfAt(x.e, |x.ebits|, x.eside, i);
    var s, n := x.e[i].s, x.e[i].n;
    assert ArgWf(ExtWidths(x.e, i), x.eside, s + l);
    assert CArgs(x, p)[l] == ArgImages(x, s, n)[l] == ArgImage(x, s + l);
    EqualOperand(x, mdl, env, i, x.eside[s + l], |x.t|);
    DagValAt(x.t, x.tbits, env, CArgs(x, p)[l], |x.t|);
  }

  /** The equal images of a call's arguments carry the argument values. */
  lemma ArgValues(x: Input, mdl: Model, env: Env, i: nat, p: nat)
    requires Accepted(x) && |x.t| <= USIZE_MAX && EqualBefore(x, mdl, env, i) && i < |x.e|
    requires x.e[i].Call? && CallFor(x, p, i)
    ensures ArgVals(x.eside, ExtVals(x, mdl, i), x.e[i].s, x.e[i].n) == CallVals(x, env, p)
  {
    hide Accepted, ExtVals, DagVals, EqualBefore;
    forall l | 0 <= l < x.e[i].n
      ensures At(ExtVals(x, mdl, i), SideAt(x.eside, x.e[i].s + l)) == At(DagVals(x.t, x.tbits, env, |x.t|), CArgs(x, p)[l])
    {
      ArgValueAt(x, mdl, env, i, p, l);
    }
  }

  /** A select that reaches d asks for the cell d is registered for. */
  lemma ReadReach(x: Input, mdl: Model, env: Env, i: nat, d: nat) returns (p: nat)
    requires Accepted(x) && |x.t| <= USIZE_MAX && EqualBefore(x, mdl, env, i) && i < |x.e|
    requires x.e[i].Select? && Reaches(x, i, d)
    ensures p < Reads(x) && RVar(x, p) == d && ReachValue(x, mdl, i) == ArrayAt(mdl, RArray(x, p), IndexVal(x, env, p))
  {
    assert StepOk(x, i) && ExtWfAt(x.e, |x.ebits|, x.eside, i);
    var j := x.e[i].idx;
    p :| 0 <= p < Reads(x) && ReadFor(x, p, d, x.e[i].aid, T.MapAt(x.m, j));
    assert ReadEntryOk(x, p);
    EqualOperand(x, mdl, env, i, j, |x.t|);
  }

  /** A call that reaches d asks for the value d is registered for. */
  lemma CallReach(x: Input, mdl: Model, env: Env, i: nat, d: nat) returns (p: nat)
    requires Accepted(x) && |x.t| <= USIZE_MAX && EqualBefore(x, mdl, env, i) && i < |x.e|
    requires x.e[i].Call? && Reaches(x, i, d)
    ensures p < Calls(x) && CVar(x, p) == d < |x.t| && x.t[d].Var?
    ensures ReachValue(x, mdl, i) == FunAt(mdl, CFunc(x, p), x.t[d].w, CallVals(x, env, p))
  {
    assert StepOk(x, i);
    p :| 0 <= p < Calls(x) && CallFor(x, p, i);
    ArgValues(x, mdl, env, i, p);
  }

  // ---------- roots, in values ----------

  /** The roots of both queries name nodes. */
  lemma RootsInRange(x: Input)
    requires Accepted(x)
    ensures forall k :: 0 <= k < |x.eroots| ==> x.eroots[k] < |x.e| && Mapped(x, x.eroots[k]) && x.m[x.eroots[k]] == x.troots[k]
    ensures forall k :: 0 <= k < |x.troots| ==> x.troots[k] < |x.t|
  {
    forall k | 0 <= k < |x.eroots|
      ensures x.eroots[k] < |x.e| && Mapped(x, x.eroots[k]) && x.m[x.eroots[k]] == x.troots[k]
    {
      assert T.MapAt(x.m, x.eroots[k]) == x.troots[k] != NONE;
      assert StepOk(x, x.eroots[k]);
    }
    forall k | |x.eroots| <= k < |x.troots| ensures x.troots[k] < |x.t| {
      var o := AllOwed(x)[k - |x.eroots|];
      assert RootOk(x, o, x.troots[|x.eroots| + (k - |x.eroots|)]);
    }
  }

  /** The clause or(not(ante), vp = vq) says: ante implies vp = vq. */
  lemma ClauseMeaning(x: Input, env: Env, r: nat, ante: nat, vp: nat, vq: nat)
    requires DagWf(x.t, |x.tbits|) && Implication(x, r, ante, vp, vq)
    ensures r < |x.t| && ante < |x.t| && vp < |x.t| && vq < |x.t|
    ensures Truth(DagVal(x.t, x.tbits, env, r)) <==>
              (Truth(DagVal(x.t, x.tbits, env, ante)) ==> DagVal(x.t, x.tbits, env, vp) == DagVal(x.t, x.tbits, env, vq))
  {
    hide DagVals, DagVal, Widths;
    var na, eq := x.t[r].a, x.t[r].b;
    assert WfAt(x.t, |x.tbits|, r) && WfAt(x.t, |x.tbits|, na);
    EqMeaning(x, env, eq, vp, vq);
    DagValAt(x.t, x.tbits, env, r, |x.t|);
    DagValAt(x.t, x.tbits, env, na, r);
    DagValAt(x.t, x.tbits, env, eq, r);
    DagValAt(x.t, x.tbits, env, ante, na);
  }

  lemma EqMeaning(x: Input, env: Env, r: nat, a: nat, b: nat)
    requires DagWf(x.t, |x.tbits|) && r < |x.t| && x.t[r] == Cmp(Eq, a, b)
    ensures a < r && b < r
    ensures Truth(DagVal(x.t, x.tbits, env, r)) <==> DagVal(x.t, x.tbits, env, a) == DagVal(x.t, x.tbits, env, b)
  {
    assert WfAt(x.t, |x.tbits|, r);
    DagValAt(x.t, x.tbits, env, r, |x.t|);
    DagValAt(x.t, x.tbits, env, a, r);
    DagValAt(x.t, x.tbits, env, b, r);
  }

  lemma NodeValsLast(x: Input, env: Env, s: nat, k: nat)
    requires k >= 1 && s + k <= |x.cargs| && x.cargs[s + k - 1] < |x.t|
    ensures NodeVals(x, env, x.cargs[s..s + k]) ==
              NodeVals(x, env, x.cargs[s..s + k - 1]) + [DagVal(x.t, x.tbits, env, x.cargs[s + k - 1])]
  {
    var nodes := x.cargs[s..s + k];
    assert nodes[..k - 1] == x.cargs[s..s + k - 1];
    DagValAt(x.t, x.tbits, env, nodes[k - 1], |x.t|);
  }

  /** One conjunct of the antecedent. */
  lemma AnteLast(x: Input, env: Env, a: nat, vp: nat, vq: nat)
    requires DagWf(x.t, |x.tbits|) && a < |x.t| && x.t[a].BoolAnd? && x.t[a].b < |x.t| && x.t[x.t[a].b] == Cmp(Eq, vp, vq)
    ensures x.t[a].a < a && vp < |x.t| && vq < |x.t|
    ensures Truth(DagVal(x.t, x.tbits, env, a)) <==>
              Truth(DagVal(x.t, x.tbits, env, x.t[a].a)) && DagVal(x.t, x.tbits, env, vp) == DagVal(x.t, x.tbits, env, vq)
  {
    assert WfAt(x.t, |x.tbits|, a);
    EqMeaning(x, env, x.t[a].b, vp, vq);
    DagValAt(x.t, x.tbits, env, a, |x.t|);
    DagValAt(x.t, x.tbits, env, x.t[a].a, a);
    DagValAt(x.t, x.tbits, env, x.t[a].b, a);
  }

  /** The antecedent says the argument values are equal. */
  lemma {:induction false} AnteMeaning(x: Input, env: Env, sp: nat, sq: nat, k: nat, a: nat)
    requires DagWf(x.t, |x.tbits|) && k >= 1 && sp + k <= |x.cargs| && sq + k <= |x.cargs| && AnteOk(x, sp, sq, k, a)
    ensures Truth(DagVal(x.t, x.tbits, env, a)) <==>
              NodeVals(x, env, x.cargs[sp..sp + k]) == NodeVals(x, env, x.cargs[sq..sq + k])
    decreases k
  {
    hide DagWf, DagVal, Truth, NodeVals;
    var vp, vq := x.cargs[sp + k - 1], x.cargs[sq + k - 1];
    if k == 1 {
      EqMeaning(x, env, a, vp, vq);
      assert x.cargs[sp..sp] == [] == x.cargs[sq..sq];
    } else {
      AnteLast(x, env, a, vp, vq);
      AnteMeaning(x, env, sp, sq, k - 1, x.t[a].a);
    }
    NodeValsLast(x, env, sp, k);
    NodeValsLast(x, env, sq, k);
    SnocEqual(NodeVals(x, env, x.cargs[sp..sp + k - 1]), NodeVals(x, env, x.cargs[sq..sq + k - 1]),
              DagVal(x.t, x.tbits, env, vp), DagVal(x.t, x.tbits, env, vq));
  }

  lemma SnocEqual(a: seq<Bv>, b: seq<Bv>, u: Bv, v: Bv)
    requires |a| == |b|
    ensures a + [u] == b + [v] <==> a == b && u == v
  {
    if a + [u] == b + [v] {
      assert a == (a + [u])[..|a|] && b == (b + [v])[..|a|];
      assert u == (a + [u])[|a|] && v == (b + [v])[|a|];
    }
  }

  /** The two entries an owed root is about ask for one cell, or one call. */
  ghost predicate SameKey(x: Input, env: Env, o: Owed)
    requires Owes(x, o)
  {
    match o
    case OwedRead(p, q) => IndexVal(x, env, p) == IndexVal(x, env, q)
    case OwedCall(p, q) => CallVals(x, env, p) == CallVals(x, env, q)
  }

  ghost predicate SameValue(x: Input, env: Env, o: Owed)
    requires Owes(x, o)
  {
    match o
    case OwedRead(p, q) => At(env, RVar(x, p)) == At(env, RVar(x, q))
    case OwedCall(p, q) => At(env, CVar(x, p)) == At(env, CVar(x, q))
  }

  /** An owed root is congruence: one cell, one value. */
  lemma RootMeaning(x: Input, env: Env, o: Owed, r: nat)
    requires Accepted(x) && Owes(x, o) && RootOk(x, o, r)
    ensures r < |x.t| && (Truth(DagVal(x.t, x.tbits, env, r)) <==> (SameKey(x, env, o) ==> SameValue(x, env, o)))
  {
    match o {
      case OwedRead(p, q) =>
        assert ReadEntryOk(x, p) && ReadEntryOk(x, q);
        var ante: nat :| ante < |x.t| && Implication(x, r, ante, RVar(x, p), RVar(x, q)) &&
                         x.t[ante] == Cmp(Eq, RIndex(x, p), RIndex(x, q));
        ClauseMeaning(x, env, r, ante, RVar(x, p), RVar(x, q));
        EqMeaning(x, env, ante, RIndex(x, p), RIndex(x, q));
        DagValAt(x.t, x.tbits, env, RVar(x, p), |x.t|);
        DagValAt(x.t, x.tbits, env, RVar(x, q), |x.t|);
      case OwedCall(p, q) =>
        assert CallEntryOk(x, p) && CallEntryOk(x, q);
        CallRootMeaning(x, env, p, q, r);
    }
  }

  lemma VarValue(x: Input, env: Env, v: nat)
    requires v < |x.t| && x.t[v].Var?
    ensures DagVal(x.t, x.tbits, env, v) == At(env, v)
  {
    DagValAt(x.t, x.tbits, env, v, |x.t|);
  }

  lemma CallRootMeaning(x: Input, env: Env, p: nat, q: nat, r: nat)
    requires DagWf(x.t, |x.tbits|) && CallRootOk(x, p, q, r) && CallEntryOk(x, p) && CallEntryOk(x, q)
    ensures r < |x.t|
    ensures Truth(DagVal(x.t, x.tbits, env, r)) <==>
              (CallVals(x, env, p) == CallVals(x, env, q) ==> At(env, CVar(x, p)) == At(env, CVar(x, q)))
  {
    hide DagWf, NodeVals, AnteOk, Implication, Truth, DagVal;
    VarValue(x, env, CVar(x, p));
    VarValue(x, env, CVar(x, q));
    if CArity(x, p) == 0 {
      EqMeaning(x, env, r, CVar(x, p), CVar(x, q));
      assert CallVals(x, env, p) == [] == CallVals(x, env, q);
    } else {
      var ante: nat :| ante < |x.t| && Implication(x, r, ante, CVar(x, p), CVar(x, q)) &&
                       AnteOk(x, CFirst(x, p), CFirst(x, q), CArity(x, p), ante);
      ClauseMeaning(x, env, r, ante, CVar(x, p), CVar(x, q));
      AnteMeaning(x, env, CFirst(x, p), CFirst(x, q), CArity(x, p), ante);
    }
  }

  // ---------- pushing an extended model forward ----------

  /** The first extended node from i on that reaches d. */
  ghost function FirstReacher(x: Input, d: nat, i: nat): (r: nat)
    requires |x.e| == |x.m| && i <= |x.e|
    ensures i <= r <= |x.e| && (r < |x.e| ==> Reaches(x, r, d))
    ensures forall k: nat :: i <= k < r ==> !Reaches(x, k, d)
    decreases |x.e| - i
  {
    if i == |x.e| || Reaches(x, i, d) then i else FirstReacher(x, d, i + 1)
  }

  ghost predicate Taken(x: Input, d: nat)
    requires |x.e| == |x.m|
  {
    exists k: nat :: VarImage(x, k, d)
  }

  ghost function Taker(x: Input, d: nat): (k: nat)
    requires |x.e| == |x.m| && Taken(x, d)
    ensures VarImage(x, k, d)
  {
    var k: nat :| VarImage(x, k, d); k
  }

  /** The value a core variable gets: its query variable's, or what the first
      node that reaches it asks of the interpretation. */
  ghost function PushedAt(x: Input, mdl: Model, d: nat): Bv
    requires |x.e| == |x.m|
  {
    if Taken(x, d) then At(mdl.env, Taker(x, d)) else
      var i := FirstReacher(x, d, 0);
      if i < |x.e| then ReachValue(x, mdl, i) else []
  }

  ghost function Pushed(x: Input, mdl: Model): (env: Env)
    requires |x.e| == |x.m|
    ensures EnvOk(x.t, env)
  {
    seq(|x.t|, d requires 0 <= d < |x.t| => if x.t[d].Var? then Sized(PushedAt(x, mdl, d), x.t[d].w) else [])
  }

  /** A variable's image is its own. */
  lemma VarImageUnique(x: Input, i: nat, k: nat, d: nat)
    requires Accepted(x) && |x.t| <= USIZE_MAX && VarImage(x, i, d) && VarImage(x, k, d) && d < |x.t|
    ensures i == k && x.t[d] == x.e[i].nd && !IsRead(x, d) && !IsCall(x, d)
  {
    assert StepOk(x, i) && StepOk(x, k);
  }

  /** Reads and calls never share a variable, nor with the query. */
  lemma ReachClass(x: Input, i: nat, d: nat)
    requires Accepted(x) && |x.t| <= USIZE_MAX && Reaches(x, i, d)
    ensures i < |x.e| && !x.e[i].Core?
    ensures x.e[i].Select? ==> IsRead(x, d) && !IsCall(x, d)
    ensures x.e[i].Call? ==> IsCall(x, d) && !IsRead(x, d)
    ensures d < |x.t| && !Taken(x, d)
  {
    assert StepOk(x, i);
    if x.e[i].Select? {
      var p :| 0 <= p < Reads(x) && ReadFor(x, p, d, x.e[i].aid, T.MapAt(x.m, x.e[i].idx));
      assert ReadEntryOk(x, p);
      forall q | 0 <= q < Calls(x) ensures CVar(x, q) != d { assert CallEntryOk(x, q); }
    } else {
      var p :| 0 <= p < Calls(x) && CallFor(x, p, i);
      assert CallEntryOk(x, p);
    }
    forall k: nat | VarImage(x, k, d) ensures false { VarImageUnique(x, k, k, d); }
  }

  /** Two nodes reaching one variable ask the same thing. */
  lemma ReachTogether(x: Input, mdl: Model, env: Env, i: nat, k: nat, d: nat)
    requires Accepted(x) && |x.t| <= USIZE_MAX && EqualBefore(x, mdl, env, i) && k <= i < |x.e|
    requires Reaches(x, i, d) && Reaches(x, k, d)
    ensures ReachValue(x, mdl, i) == ReachValue(x, mdl, k)
    ensures d < |x.t| && x.t[d].Var? && |ReachValue(x, mdl, i)| == x.t[d].w
  {
    hide ExtWf, DagWf, Congruent, ExtRootsCorr, StepOk, Reaches, ReachValue, IndexVal, CallVals, Taken;
    ReachClass(x, i, d);
    ReachClass(x, k, d);
    if x.e[i].Select? {
      var p := ReadReach(x, mdl, env, i, d);
      var q := ReadReach(x, mdl, env, k, d);
      assert ReadEntryOk(x, p) && ReadEntryOk(x, q);
    } else {
      var p := CallReach(x, mdl, env, i, d);
      var q := CallReach(x, mdl, env, k, d);
      assert CallEntryOk(x, p) && CallEntryOk(x, q);
    }
  }

  lemma PushedAgrees(x: Input, mdl: Model, i: nat)
    requires Accepted(x) && |x.t| <= USIZE_MAX && ModelOk(x.e, mdl) && i < |x.e|
    requires EqualBefore(x, mdl, Pushed(x, mdl), i)
    ensures AgreesAt(x, mdl, Pushed(x, mdl), i)
  {
    hide ExtWf, DagWf, ReadsOk, CallsOk, Congruent, ExtRootsCorr, StepOk, Reaches, ReachValue, EqualBefore, FirstReacher;
    var env := Pushed(x, mdl);
    if x.e[i].Core? {
      if x.e[i].nd.Var? && Mapped(x, i) {
        var d := x.m[i];
        assert VarImage(x, i, d);
        VarImageUnique(x, i, Taker(x, d), d);
      }
    } else {
      forall d: nat | Reaches(x, i, d) ensures At(env, d) == ReachValue(x, mdl, i) {
        ReachClass(x, i, d);
        ReachTogether(x, mdl, env, i, FirstReacher(x, d, 0), d);
      }
    }
  }

  lemma {:induction false} PushedEqual(x: Input, mdl: Model, i: nat)
    requires Accepted(x) && |x.t| <= USIZE_MAX && ModelOk(x.e, mdl) && i <= |x.e|
    ensures EqualBefore(x, mdl, Pushed(x, mdl), i)
  {
    hide ExtWf, DagWf, ReadsOk, CallsOk, Congruent, ExtRootsCorr, StepOk, Pushed, AgreesAt, Equal;
    if i > 0 {
      PushedEqual(x, mdl, i - 1);
      PushedAgrees(x, mdl, i - 1);
      NodeStep(x, mdl, Pushed(x, mdl), i - 1);
    }
  }

  /** A read variable holds the cell its entry is registered for: the entry is
      reached, so it is not left unconstrained. */
  lemma PushedRead(x: Input, mdl: Model, p: nat)
    requires Accepted(x) && |x.t| <= USIZE_MAX && ModelOk(x.e, mdl) && p < Reads(x)
    ensures var env := Pushed(x, mdl);
            At(env, RVar(x, p)) == ArrayAt(mdl, RArray(x, p), IndexVal(x, env, p))
  {
    hide ExtWf, DagWf, Congruent, ExtRootsCorr, StepOk, Pushed, IndexVal, ReachValue;
    var d, env := RVar(x, p), Pushed(x, mdl);
    PushedEqual(x, mdl, |x.e|);
    assert Live(x, d);
    var i: nat :| i < |x.e| && Reaches(x, i, d);
    ReachClass(x, i, d);
    assert IsRead(x, d);
    EqualEarlier(x, mdl, env, i, |x.e|);
    var q := ReadReach(x, mdl, env, i, d);
    assert ReadEntryOk(x, p) && ReadEntryOk(x, q);
    PushedAgrees(x, mdl, i);
  }

  lemma EqualEarlier(x: Input, mdl: Model, env: Env, i: nat, n: nat)
    requires EqualBefore(x, mdl, env, n) && i <= n
    ensures EqualBefore(x, mdl, env, i)
  {
  }

  lemma PushedCall(x: Input, mdl: Model, p: nat)
    requires Accepted(x) && |x.t| <= USIZE_MAX && ModelOk(x.e, mdl) && p < Calls(x)
    ensures CVar(x, p) < |x.t| && x.t[CVar(x, p)].Var?
    ensures var env := Pushed(x, mdl);
            At(env, CVar(x, p)) == FunAt(mdl, CFunc(x, p), x.t[CVar(x, p)].w, CallVals(x, env, p))
  {
    hide ExtWf, DagWf, Congruent, ExtRootsCorr, StepOk, Pushed, CallVals, ReachValue;
    var d, env := CVar(x, p), Pushed(x, mdl);
    assert CallEntryOk(x, p);
    PushedEqual(x, mdl, |x.e|);
    assert Live(x, d);
    var i: nat :| i < |x.e| && Reaches(x, i, d);
    ReachClass(x, i, d);
    assert IsCall(x, d);
    EqualEarlier(x, mdl, env, i, |x.e|);
    var q := CallReach(x, mdl, env, i, d);
    assert CallEntryOk(x, q);
    PushedAgrees(x, mdl, i);
  }

  /** Every congruence root holds in a pushed-forward model. */
  lemma PushedRoot(x: Input, mdl: Model, o: Owed, r: nat)
    requires Accepted(x) && |x.t| <= USIZE_MAX && ModelOk(x.e, mdl) && Owes(x, o) && RootOk(x, o, r)
    ensures r < |x.t| && Truth(DagVal(x.t, x.tbits, Pushed(x, mdl), r))
  {
    hide ExtWf, DagWf, ReadsOk, CallsOk, Congruent, ExtRootsCorr, StepOk, Pushed, CallVals, IndexVal, CallRootOk, ReadRootOk;
    RootMeaning(x, Pushed(x, mdl), o, r);
    match o {
      case OwedRead(p, q) =>
        PushedRead(x, mdl, p);
        PushedRead(x, mdl, q);
      case OwedCall(p, q) =>
        PushedCall(x, mdl, p);
        PushedCall(x, mdl, q);
        CallPairWidth(x, p, q, r);
    }
  }

  /** PUSH FORWARD: an extended model gives a core assignment that satisfies
      every core root exactly when the model satisfies every extended root. */
  lemma PushForward(x: Input, mdl: Model)
    requires Accepted(x) && |x.t| <= USIZE_MAX && ModelOk(x.e, mdl)
    requires forall k :: 0 <= k < |x.eroots| ==> x.eroots[k] < |x.e|
    requires forall k :: 0 <= k < |x.troots| ==> x.troots[k] < |x.t|
    ensures RootsTrue(x.t, x.tbits, Pushed(x, mdl), x.troots) <==> ExtRootsTrue(x, mdl)
  {
    hide ExtWf, DagWf, ReadsOk, CallsOk, StepOk, Pushed, RootOk, Owes, AllOwed, ExtVal, DagVal;
    var env := Pushed(x, mdl);
    RootsInRange(x);
    PushedEqual(x, mdl, |x.e|);
    forall k | 0 <= k < |x.eroots|
      ensures ExtVal(x, mdl, x.eroots[k]) == DagVal(x.t, x.tbits, env, x.troots[k])
    {
      assert Equal(x, mdl, env, x.eroots[k]);
    }
    forall k | |x.eroots| <= k < |x.troots| ensures Truth(DagVal(x.t, x.tbits, env, x.troots[k])) {
      var n := k - |x.eroots|;
      var o := AllOwed(x)[n];
      assert RootOk(x, o, x.troots[|x.eroots| + n]);
      PushedRoot(x, mdl, o, x.troots[k]);
    }
  }

  /** An equality of two variables relates variables of one width. */
  lemma EqVars(x: Input, eq: nat, a: nat, b: nat)
    requires DagWf(x.t, |x.tbits|) && eq < |x.t| && x.t[eq] == Cmp(Eq, a, b)
    requires a < |x.t| && b < |x.t| && x.t[a].Var? && x.t[b].Var?
    ensures x.t[a] == x.t[b]
  {
    hide Widths;
    assert WfAt(x.t, |x.tbits|, eq);
    WidthsPrefix(x.t, eq, |x.t|);
    WidthOf(x.t, a);
    WidthOf(x.t, b);
    var ws := Widths(x.t, |x.t|);
    assert ws[..eq][a] == ws[a] && ws[..eq][b] == ws[b];
  }

  /** Call entries that owe a root have results of one width. */
  lemma CallPairWidth(x: Input, p: nat, q: nat, r: nat)
    requires Accepted(x) && CallRootOk(x, p, q, r)
    ensures CVar(x, p) < |x.t| && CVar(x, q) < |x.t| && x.t[CVar(x, p)] == x.t[CVar(x, q)]
  {
    hide ExtWf, DagWf, ReadsOk, Congruent, ExtRootsCorr, StepOk, AnteOk;
    assert CallEntryOk(x, p) && CallEntryOk(x, q);
    var eq := r;
    if CArity(x, p) > 0 {
      var ante: nat :| ante < |x.t| && Implication(x, r, ante, CVar(x, p), CVar(x, q));
      eq := x.t[r].b;
    }
    EqVars(x, eq, CVar(x, p), CVar(x, q));
  }

  // ---------- pulling a core model back ----------

  ghost predicate HitRead(x: Input, env: Env, p: nat, aid: nat, v: Bv)
  {
    p < Reads(x) && RArray(x, p) == aid && IndexVal(x, env, p) == v
  }

  ghost predicate HitCall(x: Input, env: Env, p: nat, fid: nat, w: nat, args: seq<Bv>)
  {
    && p < Calls(x) && CFunc(x, p) == fid && CVar(x, p) < |x.t| && x.t[CVar(x, p)] == Var(w)
    && CallVals(x, env, p) == args
  }

  ghost predicate AnyRead(x: Input, env: Env, key: (nat, Bv)) { exists p: nat :: HitRead(x, env, p, key.0, key.1) }

  ghost predicate AnyCall(x: Input, env: Env, key: (nat, nat, seq<Bv>))
  {
    exists p: nat :: HitCall(x, env, p, key.0, key.1, key.2)
  }

  ghost function ReadHit(x: Input, env: Env, key: (nat, Bv)): (p: nat)
    requires AnyRead(x, env, key)
    ensures HitRead(x, env, p, key.0, key.1)
  {
    var p: nat :| HitRead(x, env, p, key.0, key.1); p
  }

  ghost function CallHit(x: Input, env: Env, key: (nat, nat, seq<Bv>)): (p: nat)
    requires AnyCall(x, env, key)
    ensures HitCall(x, env, p, key.0, key.1, key.2)
  {
    var p: nat :| HitCall(x, env, p, key.0, key.1, key.2); p
  }

  /** The interpretation a core assignment denotes: each array holds, at each
      read's index value, the read variable's value; each function sends each
      call's argument values to the result variable's value. */
  ghost function Pulled(x: Input, env: Env): Model
    requires |x.e| == |x.m|
  {
    Model(
      seq(|x.e|, i requires 0 <= i < |x.e| =>
        if x.e[i].Core? && x.e[i].nd.Var? then Sized(if Mapped(x, i) then At(env, x.m[i]) else [], x.e[i].nd.w) else []),
      imap key: (nat, Bv) | AnyRead(x, env, key) :: At(env, RVar(x, ReadHit(x, env, key))),
      imap key: (nat, nat, seq<Bv>) | AnyCall(x, env, key) :: At(env, CVar(x, CallHit(x, env, key))))
  }

  /** A root at its place is a core root. */
  lemma OwedRootTrue(x: Input, env: Env, o: Owed)
    requires Accepted(x) && Owes(x, o)
    requires forall k :: 0 <= k < |x.troots| ==> x.troots[k] < |x.t|
    requires RootsTrue(x.t, x.tbits, env, x.troots)
    ensures SameKey(x, env, o) ==> SameValue(x, env, o)
  {
    OwedListed(x, o);
    var n :| 0 <= n < |AllOwed(x)| && AllOwed(x)[n] == o;
    var r := x.troots[|x.eroots| + n];
    assert RootOk(x, o, r);
    RootMeaning(x, env, o, r);
    assert Truth(DagVal(x.t, x.tbits, env, r));
  }

  /** NO CELL IS WRITTEN TWICE WITH DIFFERENT VALUES: entries of one array
      with equal index values hold one value. */
  lemma ReadsFunctional(x: Input, env: Env, p: nat, q: nat)
    requires Accepted(x) && EnvOk(x.t, env) && p < Reads(x) && q < Reads(x)
    requires forall k :: 0 <= k < |x.troots| ==> x.troots[k] < |x.t|
    requires RootsTrue(x.t, x.tbits, env, x.troots)
    requires RArray(x, p) == RArray(x, q) && IndexVal(x, env, p) == IndexVal(x, env, q)
    ensures At(env, RVar(x, p)) == At(env, RVar(x, q))
  {
    if p < q {
      ConstPairApart(x, env, p, q);
      OwedRootTrue(x, env, OwedRead(p, q));
    } else if q < p {
      ConstPairApart(x, env, q, p);
      OwedRootTrue(x, env, OwedRead(q, p));
    }
  }

  /** The pairs the enumeration skips have different index values. */
  lemma ConstPairApart(x: Input, env: Env, p: nat, q: nat)
    requires Accepted(x) && EnvOk(x.t, env) && p < Reads(x) && q < Reads(x)
    requires IndexVal(x, env, p) == IndexVal(x, env, q)
    ensures !ConstPairUnequal(x, RIndex(x, p), RIndex(x, q))
  {
    hide ExtWf, CallsOk, Congruent, ExtRootsCorr, StepOk, DagVals, Widths;
    assert ReadEntryOk(x, p) && ReadEntryOk(x, q);
    var a, b := RIndex(x, p), RIndex(x, q);
    assert WfAt(x.t, |x.tbits|, a) && WfAt(x.t, |x.tbits|, b);
    DagValAt(x.t, x.tbits, env, a, |x.t|);
    DagValAt(x.t, x.tbits, env, b, |x.t|);
  }

  /** Likewise for calls of one function on equal argument values. */
  lemma CallsFunctional(x: Input, env: Env, p: nat, q: nat)
    requires Accepted(x) && p < Calls(x) && q < Calls(x)
    requires forall k :: 0 <= k < |x.troots| ==> x.troots[k] < |x.t|
    requires RootsTrue(x.t, x.tbits, env, x.troots)
    requires CFunc(x, p) == CFunc(x, q) && CallVals(x, env, p) == CallVals(x, env, q)
    ensures At(env, CVar(x, p)) == At(env, CVar(x, q))
  {
    assert CallEntryOk(x, p) && CallEntryOk(x, q);
    assert |CallVals(x, env, p)| == CArity(x, p) && |CallVals(x, env, q)| == CArity(x, q);
    if p < q { OwedRootTrue(x, env, OwedCall(p, q)); } else if q < p { OwedRootTrue(x, env, OwedCall(q, p)); }
  }

  /** mdl holds, for every table entry, the entry variable's value at the
      entry's cell or tuple, and for every query variable its image's. */
  ghost predicate Interprets(x: Input, mdl: Model, env: Env)
    requires |x.e| == |x.m|
  {
    && ModelOk(x.e, mdl)
    && (forall i: nat :: i < |x.e| && x.e[i].Core? && x.e[i].nd.Var? && Mapped(x, i) ==> mdl.env[i] == At(env, x.m[i]))
    && (forall p: nat :: p < Reads(x) ==> CellHeld(x, mdl, env, p))
    && (forall p: nat :: p < Calls(x) ==> CallHeld(x, mdl, env, p))
  }

  ghost predicate CellHeld(x: Input, mdl: Model, env: Env, p: nat)
    requires p < Reads(x)
  {
    ArrayAt(mdl, RArray(x, p), IndexVal(x, env, p)) == At(env, RVar(x, p))
  }

  ghost predicate CallHeld(x: Input, mdl: Model, env: Env, p: nat)
    requires p < Calls(x)
  {
    CVar(x, p) < |x.t| && x.t[CVar(x, p)].Var? &&
    FunAt(mdl, CFunc(x, p), x.t[CVar(x, p)].w, CallVals(x, env, p)) == At(env, CVar(x, p))
  }

  lemma InterpretsAgrees(x: Input, mdl: Model, env: Env, i: nat)
    requires Accepted(x) && |x.t| <= USIZE_MAX && i < |x.e| && Interprets(x, mdl, env) && EqualBefore(x, mdl, env, i)
    ensures AgreesAt(x, mdl, env, i)
  {
    hide ExtWf, DagWf, ReadsOk, CallsOk, Congruent, ExtRootsCorr, StepOk, Reaches, ReachValue, IndexVal, CallVals;
    if !x.e[i].Core? {
      forall d: nat | Reaches(x, i, d) ensures At(env, d) == ReachValue(x, mdl, i) {
        if x.e[i].Select? {
          var p := ReadReach(x, mdl, env, i, d);
          assert CellHeld(x, mdl, env, p);
        } else {
          var p := CallReach(x, mdl, env, i, d);
          assert CallHeld(x, mdl, env, p);
        }
      }
    }
  }

  lemma {:induction false} InterpretsEqual(x: Input, mdl: Model, env: Env, i: nat)
    requires Accepted(x) && |x.t| <= USIZE_MAX && i <= |x.e| && Interprets(x, mdl, env)
    ensures EqualBefore(x, mdl, env, i)
  {
    hide ExtWf, DagWf, ReadsOk, CallsOk, Congruent, ExtRootsCorr, StepOk, Interprets, AgreesAt, Equal;
    if i > 0 {
      InterpretsEqual(x, mdl, env, i - 1);
      InterpretsAgrees(x, mdl, env, i - 1);
      NodeStep(x, mdl, env, i - 1);
    }
  }

  /** Every interpretation of a core model's entries satisfies the extended
      roots, whatever it holds elsewhere. */
  lemma InterpretationSatisfies(x: Input, mdl: Model, env: Env)
    requires Accepted(x) && |x.t| <= USIZE_MAX && Interprets(x, mdl, env)
    requires forall k :: 0 <= k < |x.eroots| ==> x.eroots[k] < |x.e|
    requires forall k :: 0 <= k < |x.troots| ==> x.troots[k] < |x.t|
    requires RootsTrue(x.t, x.tbits, env, x.troots)
    ensures ExtRootsTrue(x, mdl)
  {
    RootsInRange(x);
    InterpretsEqual(x, mdl, env, |x.e|);
    forall k | 0 <= k < |x.eroots| ensures Truth(ExtVal(x, mdl, x.eroots[k])) {
      assert Equal(x, mdl, env, x.eroots[k]);
      assert Truth(DagVal(x.t, x.tbits, env, x.troots[k]));
    }
  }

  /** The pulled-back arrays hold every read variable's value. */
  lemma PulledCell(x: Input, env: Env, p: nat)
    requires Accepted(x) && EnvOk(x.t, env) && p < Reads(x)
    requires forall k :: 0 <= k < |x.troots| ==> x.troots[k] < |x.t|
    requires RootsTrue(x.t, x.tbits, env, x.troots)
    ensures CellHeld(x, Pulled(x, env), env, p)
  {
    var key := (RArray(x, p), IndexVal(x, env, p));
    assert HitRead(x, env, p, key.0, key.1);
    assert AnyRead(x, env, key);
    ReadsFunctional(x, env, p, ReadHit(x, env, key));
    assert ReadEntryOk(x, p);
  }

  lemma PulledCall(x: Input, env: Env, p: nat)
    requires Accepted(x) && EnvOk(x.t, env) && p < Calls(x)
    requires forall k :: 0 <= k < |x.troots| ==> x.troots[k] < |x.t|
    requires RootsTrue(x.t, x.tbits, env, x.troots)
    ensures CallHeld(x, Pulled(x, env), env, p)
  {
    assert CallEntryOk(x, p);
    var key := (CFunc(x, p), x.t[CVar(x, p)].w, CallVals(x, env, p));
    assert HitCall(x, env, p, key.0, key.1, key.2);
    assert AnyCall(x, env, key);
    CallsFunctional(x, env, p, CallHit(x, env, key));
  }

  /** PULL BACK: a core model of every core root gives an extended model of the
      extended roots. */
  lemma PullBack(x: Input, env: Env)
    requires Accepted(x) && |x.t| <= USIZE_MAX && EnvOk(x.t, env)
    requires forall k :: 0 <= k < |x.eroots| ==> x.eroots[k] < |x.e|
    requires forall k :: 0 <= k < |x.troots| ==> x.troots[k] < |x.t|
    requires RootsTrue(x.t, x.tbits, env, x.troots)
    ensures Interprets(x, Pulled(x, env), env) && ExtRootsTrue(x, Pulled(x, env))
  {
    hide ExtWf, DagWf, ReadsOk, CallsOk, Congruent, ExtRootsCorr, RootsTrue;
    forall p: nat | p < Reads(x) ensures CellHeld(x, Pulled(x, env), env, p) { PulledCell(x, env, p); }
    forall p: nat | p < Calls(x) ensures CallHeld(x, Pulled(x, env), env, p) { PulledCall(x, env, p); }
    forall i: nat | i < |x.e| && x.e[i].Core? && x.e[i].nd.Var? && Mapped(x, i)
      ensures Pulled(x, env).env[i] == At(env, x.m[i])
    {
      assert StepOk(x, i);
    }
    InterpretationSatisfies(x, Pulled(x, env), env);
  }

  /** THE SLIVER THEOREM: an accepted lowering keeps satisfiability, under
      every array and function interpretation, in both directions. */
  lemma SliverSatIffCoreSat(x: Input)
    requires Accepted(x) && |x.t| <= USIZE_MAX
    ensures forall k :: 0 <= k < |x.eroots| ==> x.eroots[k] < |x.e|
    ensures forall k :: 0 <= k < |x.troots| ==> x.troots[k] < |x.t|
    ensures ExtSat(x) <==> DagSat(x.t, x.tbits, x.troots)
  {
    RootsInRange(x);
    if ExtSat(x) {
      var mdl: Model :| ModelOk(x.e, mdl) && ExtRootsTrue(x, mdl);
      PushForward(x, mdl);
    }
    if DagSat(x.t, x.tbits, x.troots) {
      var env: Env :| EnvOk(x.t, env) && RootsTrue(x.t, x.tbits, env, x.troots);
      PullBack(x, env);
    }
  }
}
