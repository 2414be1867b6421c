/** Two core models whose tables lose an entry: two calls whose arguments
    differ above their low 128 bits, and two arrays of one name. */
module PullbackLoss {
  import opened Bits
  import opened BvOps
  import opened Dag
  import opened Sliver
  import opened SliverSound
  import opened ModelInputs
  import opened Pullback
  import T = TermCheck

  /** g(x || z) < g(y || z) over bytes x and y and a 128-bit z: each call
      argument is 136 bits wide, no variable wider than 128. */
  const QUERY: seq<ExtNode> := [
    Core(Var(8)), Core(Var(8)), Core(Var(128)), Core(Concat(0, 2)), Core(Concat(1, 2)),
    Call(0, 8, 0, 1), Call(0, 8, 1, 1), Core(Cmp(Ult, 5, 6))]

  const CORE: Dag := [
    Var(8), Var(8), Var(128), Concat(0, 2), Concat(1, 2), Var(8), Var(8), Cmp(Ult, 5, 6),
    Cmp(Eq, 3, 4), Not(8), Cmp(Eq, 5, 6), BoolOr(9, 10)]

  const LOSS: Input := Input(QUERY, [], [3, 4], [7], [0, 1, 2, 3, 4, 5, 6, 7], [], [5, 0, 0, 1, 6, 0, 1, 1], [3, 4],
                             CORE, [], [7, 11])

  const ZERO: Bv := [false, false, false, false, false, false, false, false]
  const ONE: Bv := [true, false, false, false, false, false, false, false]

  /** x = 0, y = 1, z = 0, and the results 0 and 1. */
  function LossEnv(): (env: Env)
    ensures |env| == |CORE|
  {
    [ZERO, ONE, Fill(false, 128), [], [], ZERO, ONE, [], [], [], [], []]
  }

  const NAMES: Block := Block([("x", 8, 0), ("y", 8, 1), ("z", 128, 2)], [], ["g"])

  const CORE_VARS: VarTable := [("x", 8, 0), ("y", 8, 1), ("z", 128, 2), ("g(x)", 8, 5), ("g(y)", 8, 6)]

  const MODEL: Bindings := [("x", 0), ("y", 1), ("z", 0), ("g(x)", 0), ("g(y)", 1)]

  // ---------- lists, node by node ----------

  lemma {:induction false} WidthsAre(ns: Dag, ws: seq<nat>, n: nat)
    requires n <= |ns| == |ws| && forall k :: 0 <= k < n ==> NodeWidth(ws[..k], ns[k]) == ws[k]
    ensures Widths(ns, n) == ws[..n]
  {
    hide NodeWidth;
    if n > 0 { WidthsAre(ns, ws, n - 1); }
  }

  lemma {:induction false} ExtWidthsAre(e: seq<ExtNode>, ws: seq<nat>, n: nat)
    requires n <= |e| <= |ws| && forall k :: 0 <= k < n ==> ExtNodeWidth(ws[..k], e[k]) == ws[k]
    ensures ExtWidths(e, n) == ws[..n]
  {
    hide ExtNodeWidth;
    if n > 0 { ExtWidthsAre(e, ws, n - 1); }
  }

  lemma {:induction false} ValsAre(ns: Dag, env: Env, vs: seq<Bv>, n: nat)
    requires n <= |ns| == |vs| && forall k :: 0 <= k < n ==> NodeVal(ns[k], [], vs[..k], At(env, k)) == vs[k]
    ensures DagVals(ns, [], env, n) == vs[..n]
  {
    hide NodeVal;
    if n > 0 { ValsAre(ns, env, vs, n - 1); }
  }

  lemma {:induction false} ExtValsAre(x: Input, mdl: Model, vs: seq<Bv>, n: nat)
    requires n <= |x.e| == |vs|
    requires forall k :: 0 <= k < n ==> ExtNodeVal(x.e[k], x.ebits, x.eside, vs[..k], At(mdl.env, k), mdl) == vs[k]
    ensures ExtVals(x, mdl, n) == vs[..n]
  {
    hide ExtNodeVal;
    if n > 0 { ExtValsAre(x, mdl, vs, n - 1); }
  }

  // ---------- the check accepts ----------

  const WIDTHS: seq<nat> := [8, 8, 128, 136, 136, 8, 8, 1, 1, 1, 1, 1]

  lemma LossWidth(k: nat)
    requires k < |CORE|
    ensures NodeWidth(WIDTHS[..k], CORE[k]) == WIDTHS[k] && NodeWf(WIDTHS[..k], 0, CORE[k])
  {
  }

  lemma LossExtWidth(k: nat)
    requires k < |QUERY|
    ensures ExtNodeWidth(WIDTHS[..k], QUERY[k]) == WIDTHS[k] && ExtNodeWf(WIDTHS[..k], 0, LOSS.eside, QUERY[k])
  {
  }

  lemma LossWf()
    ensures ExtWf(LOSS.e, 0, LOSS.eside) && DagWf(LOSS.t, 0)
  {
    hide NodeWidth, ExtNodeWidth, NodeWf, ExtNodeWf;
    forall k | 0 <= k < |CORE|
      ensures NodeWidth(WIDTHS[..k], CORE[k]) == WIDTHS[k] && NodeWf(WIDTHS[..k], 0, CORE[k])
    {
      LossWidth(k);
    }
    forall k | 0 <= k < |QUERY|
      ensures ExtNodeWidth(WIDTHS[..k], QUERY[k]) == WIDTHS[k] && ExtNodeWf(WIDTHS[..k], 0, LOSS.eside, QUERY[k])
    {
      LossExtWidth(k);
    }
    forall i: nat | i < |CORE| ensures WfAt(CORE, 0, i) { WidthsAre(CORE, WIDTHS, i); }
    forall i: nat | i < |QUERY| ensures ExtWfAt(QUERY, 0, LOSS.eside, i) { ExtWidthsAre(QUERY, WIDTHS, i); }
  }

  lemma LossEntries()
    ensures Calls(LOSS) == 2 && ArgsInRange(LOSS, 0) && ArgsInRange(LOSS, 1)
    ensures CArgs(LOSS, 0) == [3] && CArgs(LOSS, 1) == [4] && CVar(LOSS, 0) == 5 && CVar(LOSS, 1) == 6
    ensures CFunc(LOSS, 0) == CFunc(LOSS, 1) == 0
  {
    assert LOSS.cargs[0..1] == [3] && LOSS.cargs[1..2] == [4];
  }

  lemma LossTables()
    ensures ReadsOk(LOSS) && CallsOk(LOSS)
    ensures Calls(LOSS) == 2 && ArgsInRange(LOSS, 0) && ArgsInRange(LOSS, 1)
    ensures CArgs(LOSS, 0) == [3] && CArgs(LOSS, 1) == [4] && CVar(LOSS, 0) == 5 && CVar(LOSS, 1) == 6
    ensures CFunc(LOSS, 0) == CFunc(LOSS, 1) == 0
  {
    hide Calls, CVar, CFunc, CArgs, ArgsInRange;
    LossEntries();
    assert !IsRead(LOSS, 5) && !IsRead(LOSS, 6);
    assert CallEntryOk(LOSS, 0);
    assert CallEntryOk(LOSS, 1);
  }

  lemma LossCore(i: nat)
    requires i < |LOSS.e| && LOSS.e[i].Core?
    ensures StepOk(LOSS, i)
  {
    hide CoreOk;
    LossCoreOk(i);
  }

  lemma LossCoreOk(i: nat)
    requires i < |LOSS.e| && LOSS.e[i].Core?
    ensures Mapped(LOSS, i) && CoreOk(LOSS, i)
  {
    hide Calls, CVar, CFunc, CArgs, ArgsInRange;
    LossEntries();
    assert !IsRead(LOSS, i) && (i < 5 ==> !IsCall(LOSS, i));
  }

  lemma LossImages(p: nat)
    requires p < 2
    ensures ArgImages(LOSS, p, 1) == [3 + p]
  {
    assert ArgImage(LOSS, p) == 3 + p;
    assert ArgImages(LOSS, p, 0) == [];
  }

  lemma LossCall(p: nat)
    requires p < 2
    ensures StepOk(LOSS, 5 + p) && Live(LOSS, 5 + p)
  {
    hide Calls, CVar, CFunc, CArgs, ArgsInRange, ArgImages;
    LossTables();
    LossImages(p);
    assert CallFor(LOSS, p, 5 + p);
    assert Reaches(LOSS, 5 + p, 5 + p);
  }

  lemma LossSteps()
    ensures forall i :: 0 <= i < |LOSS.e| ==> StepOk(LOSS, i)
    ensures Live(LOSS, 5) && Live(LOSS, 6)
  {
    hide StepOk, Live;
    LossCall(0);
    LossCall(1);
    forall i: nat | i < |LOSS.e| ensures StepOk(LOSS, i) { if LOSS.e[i].Core? { LossCore(i); } }
  }

  lemma LossRoots()
    ensures ExtRootsCorr(LOSS) && Congruent(LOSS)
  {
    LossTables();
    assert ReadPairs(LOSS, 0) == [];
    assert CallPairs(LOSS, 0) == [OwedCall(0, 1)] by {
      assert CallRow(LOSS, 0, 1) == [OwedCall(0, 1)];
      assert CallPairs(LOSS, 1) == [];
    }
    assert Implication(LOSS, 11, 8, 5, 6);
    assert AnteOk(LOSS, 0, 1, 1, 8);
    assert CallRootOk(LOSS, 0, 1, 11);
  }

  lemma LossAccepted()
    ensures Accepted(LOSS)
  {
    hide ExtWf, DagWf, ReadsOk, CallsOk, StepOk, Live, ExtRootsCorr, Congruent;
    LossWf();
    LossTables();
    LossSteps();
    LossRoots();
  }

  // ---------- the core model ----------

  lemma LossValue(k: nat)
    requires k < 5
    ensures ValueOf(CORE_VARS, MODEL, CORE_VARS[k].2) == MODEL[k].1
  {
    hide NameOfNode, Binding;
    FirstNames(CORE_VARS, k);
    FirstBinds(MODEL, k);
  }

  lemma LossValues()
    ensures ValueOf(CORE_VARS, MODEL, 0) == 0 && ValueOf(CORE_VARS, MODEL, 1) == 1 && ValueOf(CORE_VARS, MODEL, 2) == 0
    ensures ValueOf(CORE_VARS, MODEL, 5) == 0 && ValueOf(CORE_VARS, MODEL, 6) == 1
  {
    hide ValueOf;
    forall k: nat | k < 5 ensures ValueOf(CORE_VARS, MODEL, CORE_VARS[k].2) == MODEL[k].1 { LossValue(k); }
    assert MODEL[0].1 == 0 && MODEL[1].1 == 1 && MODEL[2].1 == 0 && MODEL[3].1 == 0 && MODEL[4].1 == 1;
    assert CORE_VARS[0].2 == 0 && CORE_VARS[1].2 == 1 && CORE_VARS[2].2 == 2 && CORE_VARS[3].2 == 5 && CORE_VARS[4].2 == 6;
  }

  /** The words of zero and one. */
  lemma SmallWords(w: nat)
    requires w <= 128
    ensures ModelWord(0, w) == Fill(false, w) && (w == 8 ==> ModelWord(1, w) == ONE)
  {
    hide ToNat, FromInt, Pow2;
    ToNatFill(false, w);
    FromIntToNat(Fill(false, w));
    ModelWordIs(0, w);
    ModelWordIs(1, w);
    Bytes();
  }

  /** The model by name gives the core those words. */
  lemma LossEnvOf()
    ensures ModelEnv(CORE, CORE_VARS, MODEL) == LossEnv() && EnvOk(CORE, LossEnv())
  {
    hide ModelWord, ValueOf, Fill, LossEnv;
    forall i | 0 <= i < |CORE| ensures ModelEnv(CORE, CORE_VARS, MODEL)[i] == LossEnv()[i] { LossEnvAt(i); }
  }

  lemma LossByte(i: nat)
    requires i == 0 || i == 1 || i == 5 || i == 6
    ensures LossEnv()[i] == ModelWord(ValueOf(CORE_VARS, MODEL, i), 8)
  {
    hide ModelWord, ValueOf, Fill;
    LossValues();
    SmallWords(8);
    assert Fill(false, 8) == ZERO by { Bytes(); }
  }

  lemma LossEnvAt(i: nat)
    requires i < |CORE|
    ensures LossEnv()[i] == if CORE[i].Var? then ModelWord(ValueOf(CORE_VARS, MODEL, i), CORE[i].w) else []
  {
    hide ModelWord, ValueOf, Fill;
    if i == 2 {
      LossValues();
      SmallWords(128);
    } else if CORE[i].Var? {
      LossByte(i);
    }
  }

  lemma OneIsOne()
    ensures ONE == [true] + Fill(false, 7) && ToNat(ONE) == 1
  {
    ToNatFill(false, 7);
    ToNatAppend([true], Fill(false, 7));
    assert [true][1..] == [];
  }

  lemma Bytes()
    ensures ToNat(ZERO) == 0 && ToNat(ONE) == 1 && ZERO == Fill(false, 8) && ONE == FromInt(1, 8)
    ensures ToNat(Fill(false, 128)) == 0
    ensures ToNat(Fill(false, 128) + ONE) > ToNat(Fill(false, 128) + ZERO) == 0
  {
    hide Pow2, ToNat;
    assert ZERO == Fill(false, 8);
    ToNatFill(false, 8);
    ToNatFill(false, 128);
    OneIsOne();
    FromIntToNat(ONE);
    ToNatAppend(Fill(false, 128), ONE);
    ToNatAppend(Fill(false, 128), ZERO);
    assert Pow2(128) * 1 > 0 && Pow2(128) * 0 == 0;
  }

  /** The value of every core node. */
  function LossWords(): (vs: seq<Bv>)
    ensures |vs| == |CORE|
  {
    var z := Fill(false, 128);
    [ZERO, ONE, z, z + ZERO, z + ONE, ZERO, ONE, [true], [false], [true], [false], [true]]
  }

  lemma LossNode(k: nat)
    requires k < |CORE|
    ensures NodeVal(CORE[k], [], LossWords()[..k], At(LossEnv(), k)) == LossWords()[k]
  {
    hide ToNat, Fill;
    Bytes();
    match k {
      case 0 => case 1 => case 2 => case 3 => case 4 => case 5 => case 6 => case 7 => case 8 => case 9 => case 10 =>
      case _ =>
    }
  }

  lemma LossVals(n: nat)
    requires n <= |CORE|
    ensures DagVals(CORE, [], LossEnv(), n) == LossWords()[..n]
  {
    hide NodeVal, LossWords, LossEnv;
    forall k | 0 <= k < n ensures NodeVal(CORE[k], [], LossWords()[..k], At(LossEnv(), k)) == LossWords()[k] {
      LossNode(k);
    }
    ValsAre(CORE, LossEnv(), LossWords(), n);
  }

  lemma LossCoreModel()
    ensures CoreModel(LOSS, LossEnv())
  {
    hide LossWords, DagVals, DagVal, LossEnv, EnvOk, NodeVal;
    LossEnvOf();
    LossVals(12);
    DagValAt(CORE, [], LossEnv(), 7, 12);
    DagValAt(CORE, [], LossEnv(), 11, 12);
    LossRootWords();
    forall k | 0 <= k < 2 ensures Truth(DagVal(CORE, [], LossEnv(), LOSS.troots[k])) {}
  }

  lemma LossRootWords()
    ensures LossWords()[7] == LossWords()[11] == [true]
  {
  }

  // ---------- the lost result ----------

  lemma LossArguments()
    ensures CallVals(LOSS, LossEnv(), 0) == [Fill(false, 128) + ZERO]
    ensures CallVals(LOSS, LossEnv(), 1) == [Fill(false, 128) + ONE]
  {
    hide DagVals, LossEnv, Fill;
    LossTables();
    LossVals(12);
    assert LossWords()[..12] == LossWords();
  }

  lemma LossCuts(v: Bv)
    requires |v| == 8
    ensures Cuts([Fill(false, 128) + v]) == [0]
  {
    hide ToNat, Fill;
    Bytes();
    assert (Fill(false, 128) + v)[..128] == Fill(false, 128);
    assert Cut(Fill(false, 128) + v) == 0;
  }

  lemma LossCalls()
    ensures Calls(LOSS) == 2
    ensures Cuts(CallVals(LOSS, LossEnv(), 0)) == Cuts(CallVals(LOSS, LossEnv(), 1)) == [0]
    ensures Cut(At(LossEnv(), CVar(LOSS, 0))) == 0 && Cut(At(LossEnv(), CVar(LOSS, 1))) == 1
  {
    hide CallVals, ToNat, Cuts, Calls;
    LossTables();
    LossArguments();
    LossCuts(ZERO);
    LossCuts(ONE);
    Bytes();
  }

  lemma LossTable()
    ensures ResultTable(LOSS, NAMES, LossEnv()) == map[("g", [0]) := 1]
  {
    hide Cut, Cuts, CallVals;
    LossTables();
    LossCalls();
    var keys, vals := CallKeys(LOSS, NAMES, LossEnv(), 2), ResultNumbers(LOSS, LossEnv(), 2);
    assert keys == [("g", [0]), ("g", [0])] && vals == [0, 1];
    assert Inserted(keys, vals, 1) == map[("g", [0]) := 0];
  }

  /** The model read back. */
  ghost function LossOut(): ReadBack
  {
    ReadBack(NamedValues(NAMES.vars, MODEL, 3), CellTable(LOSS, NAMES, LossEnv()), ResultTable(LOSS, NAMES, LossEnv()))
  }

  lemma LossNamed()
    ensures Listed(LOSS, NAMES) && NamesOnce(NAMES) && NamesCarried(LOSS, NAMES, CORE_VARS)
  {
    LossTables();
    forall k | 0 <= k < |NAMES.vars| ensures NameCarried(LOSS, CORE_VARS, NAMES.vars[k].0, NAMES.vars[k].2) {}
  }

  /** A WIDE CALL CAN BE LOST: the check accepts, the core model by name
      satisfies every core root, names are listed once and carried to the core,
      and yet the second call's result overwrites the first's; the model read
      back falsifies the query. */
  lemma WideCallLost()
    ensures Accepted(LOSS) && ModelEnv(LOSS.t, CORE_VARS, MODEL) == LossEnv() && CoreModel(LOSS, LossEnv())
    ensures Listed(LOSS, NAMES) && NamesOnce(NAMES) && NamesCarried(LOSS, NAMES, CORE_VARS) && !NarrowCalls(LOSS)
    ensures CutClash(LOSS, NAMES, LossEnv(), 0, 1) && !ResultsKept(LOSS, NAMES, LossEnv())
    ensures LOSS.eroots[0] < |LOSS.e| && !ExtRootsTrue(LOSS, Denotes(LOSS, NAMES, LossEnv(), LossOut()))
  {
    hide Accepted, CoreModel, Cut, Cuts, CallVals, ResultTable, CellTable, Denotes, ExtRootsTrue, ResultsKept, LossEnv;
    hide NarrowCalls, Listed, NamesOnce, NamesCarried, ModelEnv;
    LossAccepted();
    LossEnvOf();
    LossCoreModel();
    LossTables();
    LossCalls();
    LossNamed();
    assert CutClash(LOSS, NAMES, LossEnv(), 0, 1);
    ResultsExact(LOSS, NAMES, LossEnv());
    if NarrowCalls(LOSS) { NarrowClash(LOSS, NAMES, LossEnv(), 0, 1); }
    LossFalsified();
  }

  /** The table read at the two calls' full arguments: listed, and not. */
  lemma LossReads(mdl: Model)
    requires mdl.funs == FromTables(NAMES, [], map[], map[("g", [0]) := 1]).funs
    ensures FunAt(mdl, 0, 8, [Fill(false, 128) + ZERO]) == ONE && FunAt(mdl, 0, 8, [Fill(false, 128) + ONE]) == ZERO
  {
    hide ToNat, Pow2, Fill;
    Bytes();
    var a, b := [Fill(false, 128) + ZERO], [Fill(false, 128) + ONE];
    assert Numbers(a) == [0];
    assert Numbers(b)[0] != 0;
    assert (0, 8, a) in mdl.funs && (0, 8, b) !in mdl.funs;
  }

  /** The value of every query node under the tables. */
  function LossExtWords(): (vs: seq<Bv>)
    ensures |vs| == |QUERY|
  {
    var z := Fill(false, 128);
    [ZERO, ONE, z, z + ZERO, z + ONE, ONE, ZERO, [false]]
  }

  /** A model that reads the query's variables as the core's and its function
      off the table. */
  ghost predicate LossModel(mdl: Model)
  {
    && (forall i :: 0 <= i < 3 ==> At(mdl.env, i) == LossEnv()[i])
    && mdl.funs == FromTables(NAMES, [], map[], map[("g", [0]) := 1]).funs
  }

  lemma LossExtCall(mdl: Model, p: nat)
    requires LossModel(mdl) && p < 2
    ensures ExtNodeVal(QUERY[5 + p], [], LOSS.eside, LossExtWords()[..5 + p], [], mdl) == LossExtWords()[5 + p]
  {
    hide Fill, FromTables, FunAt, ArgVals;
    LossReads(mdl);
    assert ArgVals(LOSS.eside, LossExtWords()[..5 + p], p, 1) == [LossExtWords()[3 + p]];
  }

  lemma LossExtCore(mdl: Model, k: nat)
    requires LossModel(mdl) && k < |QUERY| && QUERY[k].Core?
    ensures NodeVal(QUERY[k].nd, [], LossExtWords()[..k], At(mdl.env, k)) == LossExtWords()[k]
  {
    hide ToNat, Fill, FromTables;
    Bytes();
  }

  lemma LossExtNode(mdl: Model, k: nat)
    requires LossModel(mdl) && k < |QUERY|
    ensures ExtNodeVal(QUERY[k], [], LOSS.eside, LossExtWords()[..k], At(mdl.env, k), mdl) == LossExtWords()[k]
  {
    hide LossModel, LossExtWords, NodeVal, FunAt, ArgVals;
    if QUERY[k].Call? {
      LossExtCall(mdl, k - 5);
    } else {
      LossExtCore(mdl, k);
    }
  }

  lemma LossExtVals(mdl: Model, n: nat)
    requires LossModel(mdl) && n <= |QUERY|
    ensures ExtVals(LOSS, mdl, n) == LossExtWords()[..n]
  {
    hide ExtNodeVal, LossExtWords, LossModel;
    forall k | 0 <= k < n
      ensures ExtNodeVal(QUERY[k], [], LOSS.eside, LossExtWords()[..k], At(mdl.env, k), mdl) == LossExtWords()[k]
    {
      LossExtNode(mdl, k);
    }
    ExtValsAre(LOSS, mdl, LossExtWords(), n);
  }

  lemma LossDenotes()
    ensures LossModel(Denotes(LOSS, NAMES, LossEnv(), LossOut()))
  {
    hide Accepted, VarsAgree, NamesCarried, LossEnv, NamedEnv, CellTable, ResultTable, ModelEnv, NamedValues;
    LossTable();
    LossAccepted();
    LossNamed();
    LossEnvOf();
    CarriedAgree(LOSS, NAMES, CORE_VARS, MODEL);
    forall i: nat | i < 3 ensures NamedEnv(LOSS, NAMES, LossEnv(), LossOut().env)[i] == LossEnv()[i] {
      NamedImage(LOSS, NAMES, LossEnv(), LossOut().env, i);
    }
    assert Denotes(LOSS, NAMES, LossEnv(), LossOut()).funs == FromTables(NAMES, [], map[], map[("g", [0]) := 1]).funs;
  }

  /** The query's value under the tables: g(0) is 1, g(2^128) is not listed. */
  lemma LossFalsified()
    ensures LOSS.eroots[0] < |LOSS.e|
    ensures !ExtRootsTrue(LOSS, Denotes(LOSS, NAMES, LossEnv(), LossOut()))
  {
    hide ExtVals, Denotes, LossModel, LossEnv, LossOut;
    var mdl := Denotes(LOSS, NAMES, LossEnv(), LossOut());
    LossDenotes();
    LossExtVals(mdl, 8);
    ExtValAt(LOSS, mdl, 7, 8);
    LossExtFalse();
    assert LOSS.eroots[0] == 7;
  }

  lemma LossExtFalse()
    ensures LossExtWords()[7] == [false]
  {
  }

  // ---------- two arrays of one name ----------

  /** a[i] != b[i], both arrays named "a". */
  const TWINS: Input := Input(
    [Core(Var(32)), Select(0, 0, 0, 0), Select(1, 0, 0, 0), Core(Cmp(Ne, 1, 2))], [], [], [3], [0, 1, 2, 3],
    [1, 0, 0, 2, 1, 0], [], [], [Var(32), Var(8), Var(8), Cmp(Ne, 1, 2)], [], [3])

  const TWIN_NAMES: Block := Block([("i", 32, 0)], ["a", "a"], [])

  const TWIN_VARS: VarTable := [("i", 32, 0), ("a[i]", 8, 1), ("b[i]", 8, 2)]

  const TWIN_MODEL: Bindings := [("i", 0), ("a[i]", 0), ("b[i]", 1)]

  function TwinEnv(): (env: Env)
    ensures |env| == 4
  {
    [Fill(false, 32), ZERO, ONE, []]
  }

  lemma TwinWidths()
    ensures Widths(TWINS.t, 4) == [32, 8, 8, 1] == ExtWidths(TWINS.e, 4)
    ensures ExtWf(TWINS.e, 0, []) && DagWf(TWINS.t, 0)
  {
    hide Widths, ExtWidths;
    var ws: seq<nat> := [32, 8, 8, 1];
    assert ws[..4] == ws;
    WidthsAre(TWINS.t, ws, 4);
    ExtWidthsAre(TWINS.e, ws, 4);
    forall i: nat | i < 4 ensures WfAt(TWINS.t, 0, i) && ExtWfAt(TWINS.e, 0, [], i) {
      WidthsAre(TWINS.t, ws, i);
      ExtWidthsAre(TWINS.e, ws, i);
    }
  }

  lemma TwinTables()
    ensures Reads(TWINS) == 2 && RVar(TWINS, 0) == 1 && RVar(TWINS, 1) == 2 && RArray(TWINS, 0) == 0 && RArray(TWINS, 1) == 1
    ensures RIndex(TWINS, 0) == RIndex(TWINS, 1) == 0 && Calls(TWINS) == 0
    ensures ReadsOk(TWINS) && CallsOk(TWINS)
  {
    TwinWidths();
    assert ReadEntryOk(TWINS, 0) && ReadEntryOk(TWINS, 1);
  }

  lemma TwinSelect(i: nat)
    requires i == 1 || i == 2
    ensures StepOk(TWINS, i) && Live(TWINS, i)
  {
    hide ReadEntryOk, IsRead;
    TwinTables();
    assert EndOf(TWINS, i) == WalkEnd.Base(i);
    var p: nat := i - 1;
    assert T.MapAt(TWINS.m, TWINS.e[i].idx) == 0;
    assert ReadFor(TWINS, p, i, TWINS.e[i].aid, T.MapAt(TWINS.m, TWINS.e[i].idx));
    assert Reaches(TWINS, i, i);
  }

  lemma TwinSteps()
    ensures forall i :: 0 <= i < 4 ==> StepOk(TWINS, i)
    ensures Live(TWINS, 1) && Live(TWINS, 2)
  {
    hide StepOk, Live;
    TwinSelect(1);
    TwinSelect(2);
    TwinCore(0);
    TwinCore(3);
  }

  lemma TwinCore(i: nat)
    requires i == 0 || i == 3
    ensures StepOk(TWINS, i)
  {
    TwinTables();
  }

  lemma TwinRoots()
    ensures ExtRootsCorr(TWINS) && Congruent(TWINS)
  {
    TwinTables();
    assert ReadRow(TWINS, 0, 1) == [] by { assert ReadRow(TWINS, 0, 2) == []; }
    assert ReadPairs(TWINS, 0) == [] by { assert ReadPairs(TWINS, 1) == []; }
    assert CallPairs(TWINS, 0) == [];
  }

  lemma TwinAccepted()
    ensures Accepted(TWINS)
  {
    hide ExtWf, DagWf, ReadsOk, CallsOk, StepOk, Live, ExtRootsCorr, Congruent;
    TwinWidths();
    TwinTables();
    TwinSteps();
    TwinRoots();
  }

  lemma TwinValues()
    ensures ValueOf(TWIN_VARS, TWIN_MODEL, 0) == 0 && ValueOf(TWIN_VARS, TWIN_MODEL, 1) == 0
    ensures ValueOf(TWIN_VARS, TWIN_MODEL, 2) == 1
  {
  }

  lemma TwinEnvAt(i: nat)
    requires i < 4
    ensures TwinEnv()[i] ==
              if TWINS.t[i].Var? then ModelWord(ValueOf(TWIN_VARS, TWIN_MODEL, i), TWINS.t[i].w) else []
  {
    hide ModelWord, ValueOf, Fill;
    if i < 3 {
      TwinValues();
      SmallWords(TWINS.t[i].w);
      Bytes();
    }
  }

  lemma TwinEnvOf()
    ensures ModelEnv(TWINS.t, TWIN_VARS, TWIN_MODEL) == TwinEnv() && EnvOk(TWINS.t, TwinEnv())
  {
    hide ModelWord, ValueOf, Fill, TwinEnv;
    forall i | 0 <= i < 4 ensures ModelEnv(TWINS.t, TWIN_VARS, TWIN_MODEL)[i] == TwinEnv()[i] { TwinEnvAt(i); }
  }

  /** The value of every core node. */
  function TwinWords(): (vs: seq<Bv>)
    ensures |vs| == 4
  {
    [Fill(false, 32), ZERO, ONE, [true]]
  }

  lemma TwinNode(k: nat)
    requires k < 4
    ensures NodeVal(TWINS.t[k], [], TwinWords()[..k], At(TwinEnv(), k)) == TwinWords()[k]
  {
    hide Fill;
  }

  lemma TwinCoreModel()
    ensures CoreModel(TWINS, TwinEnv()) && DagVal(TWINS.t, [], TwinEnv(), 0) == Fill(false, 32)
  {
    hide Fill, DagVals, EnvOk, NodeVal, DagVal, TwinEnv;
    TwinEnvOf();
    forall k | 0 <= k < 4 ensures NodeVal(TWINS.t[k], [], TwinWords()[..k], At(TwinEnv(), k)) == TwinWords()[k] {
      TwinNode(k);
    }
    ValsAre(TWINS.t, TwinEnv(), TwinWords(), 4);
    DagValAt(TWINS.t, [], TwinEnv(), 0, 4);
    DagValAt(TWINS.t, [], TwinEnv(), 3, 4);
    assert TwinWords()[..4][3] == [true] && TwinWords()[..4][0] == Fill(false, 32);
    forall k | 0 <= k < 1 ensures Truth(DagVal(TWINS.t, [], TwinEnv(), TWINS.troots[k])) {}
  }

  ghost function TwinOut(): ReadBack
  {
    ReadBack(NamedValues(TWIN_NAMES.vars, TWIN_MODEL, 1), CellTable(TWINS, TWIN_NAMES, TwinEnv()),
             ResultTable(TWINS, TWIN_NAMES, TwinEnv()))
  }

  /** NAMESAKES CAN LOSE A CELL: the check accepts, the core model by name
      satisfies the core, no node is wide, and yet the second array's cell
      overwrites the first's; the model read back falsifies the query. */
  lemma NamesakeLost()
    ensures Accepted(TWINS) && ModelEnv(TWINS.t, TWIN_VARS, TWIN_MODEL) == TwinEnv() && CoreModel(TWINS, TwinEnv())
    ensures Listed(TWINS, TWIN_NAMES) && NarrowCalls(TWINS) && NamesCarried(TWINS, TWIN_NAMES, TWIN_VARS)
    ensures SharedCell(TWINS, TWIN_NAMES, TwinEnv(), 0, 1) && !CellsKept(TWINS, TWIN_NAMES, TwinEnv())
    ensures TWINS.eroots[0] < |TWINS.e| && !ExtRootsTrue(TWINS, Denotes(TWINS, TWIN_NAMES, TwinEnv(), TwinOut()))
    ensures !Listed(TWINS, TWIN_NAMES.(arrays := []))
  {
    hide Accepted, CoreModel, CellsKept, CellTable, ResultTable, ExtRootsTrue, DagVal, Denotes, TwinOut, ModelEnv;
    TwinAccepted();
    TwinEnvOf();
    TwinCoreModel();
    TwinTables();
    assert SharedCell(TWINS, TWIN_NAMES, TwinEnv(), 0, 1);
    CellsNeverLost(TWINS, TWIN_NAMES, TwinEnv());
    TwinFalsified();
  }

  /** One name reads one byte, so the two reads are equal. */
  lemma TwinFalsified()
    ensures TWINS.eroots[0] < |TWINS.e| && !ExtRootsTrue(TWINS, Denotes(TWINS, TWIN_NAMES, TwinEnv(), TwinOut()))
  {
    hide CellTable, ResultTable, NamedEnv, TwinOut, TwinEnv;
    var mdl := Denotes(TWINS, TWIN_NAMES, TwinEnv(), TwinOut());
    var v := At(mdl.env, 0);
    assert ArrayAt(mdl, 0, v) == ArrayAt(mdl, 1, v);
    TwinVals(mdl);
    assert TWINS.eroots[0] == 3;
  }

  lemma TwinVals(mdl: Model)
    requires ArrayAt(mdl, 0, At(mdl.env, 0)) == ArrayAt(mdl, 1, At(mdl.env, 0))
    ensures ExtVal(TWINS, mdl, 3) == [false]
  {
    hide ArrayAt;
    var v := At(mdl.env, 0);
    var a := ArrayAt(mdl, 0, v);
    var vs := [v, a, a, [false]];
    assert vs[..4] == vs;
    forall k | 0 <= k < 4 ensures ExtNodeVal(TWINS.e[k], [], [], vs[..k], At(mdl.env, k), mdl) == vs[k] {
      TwinExtNode(mdl, k);
    }
    ExtValsAre(TWINS, mdl, vs, 4);
    ExtValAt(TWINS, mdl, 3, 4);
  }

  lemma TwinExtNode(mdl: Model, k: nat)
    requires k < 4 && ArrayAt(mdl, 0, At(mdl.env, 0)) == ArrayAt(mdl, 1, At(mdl.env, 0))
    ensures var a := ArrayAt(mdl, 0, At(mdl.env, 0));
            var vs := [At(mdl.env, 0), a, a, [false]];
            ExtNodeVal(TWINS.e[k], [], [], vs[..k], At(mdl.env, k), mdl) == vs[k]
  {
    hide ArrayAt;
  }
}
