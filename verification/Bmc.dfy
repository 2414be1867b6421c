/** The bounded-model-checking query families: unrolled transition systems as
    lists of asserted trees, and exactly when they are satisfiable. */
module Bmc {
  import opened Bits
  import opened BvOps
  import opened Tree

  // ---------- step-indexed names ----------

  function Digit(d: nat): char
    requires d < 10
  {
    "0123456789"[d]
  }

  function Decimal(n: nat): (s: string)
    ensures |s| > 0
  {
    if n < 10 then [Digit(n)] else Decimal(n / 10) + [Digit(n % 10)]
  }

  lemma {:induction false} DecimalInjective(m: nat, n: nat)
    requires Decimal(m) == Decimal(n)
    ensures m == n
    decreases m
  {
    var s, t := Decimal(m), Decimal(n);
    assert s[|s| - 1] == Digit(m % 10) && t[|t| - 1] == Digit(n % 10);
    if m >= 10 && n >= 10 {
      assert s[..|s| - 1] == Decimal(m / 10) && t[..|t| - 1] == Decimal(n / 10);
      DecimalInjective(m / 10, n / 10);
    }
  }

  /** The variable of a component at a step. */
  function At(prefix: string, j: nat): Name { prefix + Decimal(j) }

  lemma AtInjective(p: string, i: nat, q: string, j: nat)
    requires |p| == |q| && At(p, i) == At(q, j)
    ensures p == q && i == j
  {
    assert At(p, i)[..|p|] == p && At(q, j)[..|q|] == q;
    assert At(p, i)[|p|..] == Decimal(i) && At(q, j)[|q|..] == Decimal(j);
    DecimalInjective(i, j);
  }

  // ---------- small words ----------

  lemma SmallPowers()
    ensures Pow2(2) == 4 && Pow2(8) == 256
  {
    assert Pow2(4) == 16;
    Pow2Add(4, 4);
  }

  function Konst(v: nat, w: nat): TBv { TConst(v, w) }

  function EqT(a: TBv, b: TBv): TBool { BCmp(Eq, a, b) }

  /** The number a tree denotes. */
  ghost function Num(t: TBv, I: Interp): nat { ToNat(TreeVal(t, I)) }

  lemma KonstNum(v: nat, w: nat, I: Interp)
    requires v < Pow2(w)
    ensures Num(Konst(v, w), I) == v && |TreeVal(Konst(v, w), I)| == w
  {
    ToNatFromInt(v, w);
    SmallMod(v, Pow2(w));
  }

  lemma SmallMod(v: nat, m: nat)
    requires v < m
    ensures v % m == v
  {
  }

  lemma EqNum(a: TBv, b: TBv, I: Interp)
    requires |TreeVal(a, I)| == |TreeVal(b, I)|
    ensures BoolVal(EqT(a, b), I) <==> Num(a, I) == Num(b, I)
  {
    if Num(a, I) == Num(b, I) { ToNatInjective(TreeVal(a, I), TreeVal(b, I)); }
  }

  // ---------- the bounded queue ----------

  function QVar(j: nat): TBv { TVar(At("q_", j), 8) }

  function ChVar(j: nat): TBv { TVar(At("ch_", j), 8) }

  /** Choice 0 enqueues; anything else dequeues, or stutters when empty. */
  function QueueStep(j: nat): TBool
  {
    var q := QVar(j);
    EqT(QVar(j + 1),
        TIte(EqT(ChVar(j), Konst(0, 8)), TBin(Add, q, Konst(1, 8)),
             TIte(BCmp(Ugt, q, Konst(0, 8)), TBin(Sub, q, Konst(1, 8)), q)))
  }

  function Over(cap: nat, j: nat): TBool { BCmp(Ugt, QVar(j), Konst(cap, 8)) }

  /** Overflow at some step from 1 to k; for k = 0 it still names step 1. */
  function QueueBad(cap: nat, k: nat): TBool
  {
    if k <= 1 then Over(cap, 1) else BOr(QueueBad(cap, k - 1), Over(cap, k))
  }

  function QueueSteps(k: nat): (ts: seq<TBool>)
    ensures |ts| == k && forall j :: 0 <= j < k ==> ts[j] == QueueStep(j)
  {
    if k == 0 then [] else QueueSteps(k - 1) + [QueueStep(k - 1)]
  }

  function QueueQuery(k: nat, cap: nat): seq<TBool>
  {
    [EqT(QVar(0), Konst(0, 8))] + QueueSteps(k) + [QueueBad(cap, k)]
  }

  method QueueOverflow(k: nat, cap: nat) returns (assertions: seq<TBool>)
    requires cap <= 255
    ensures assertions == QueueQuery(k, cap)
  {
    assertions := [EqT(QVar(0), Konst(0, 8))];
    for j := 0 to k
      invariant assertions == [EqT(QVar(0), Konst(0, 8))] + QueueSteps(j)
    {
      var q, next, ch := QVar(j), QVar(j + 1), ChVar(j);
      var isProducer, nonempty := EqT(ch, Konst(0, 8)), BCmp(Ugt, q, Konst(0, 8));
      var step := TIte(isProducer, TBin(Add, q, Konst(1, 8)), TIte(nonempty, TBin(Sub, q, Konst(1, 8)), q));
      assertions := assertions + [EqT(next, step)];
    }
    var bad := Over(cap, 1);
    var j := 2;
    while j <= k
      invariant 2 <= j && (j <= k + 1 || j == 2) && bad == QueueBad(cap, j - 1)
    {
      bad := BOr(bad, Over(cap, j));
      j := j + 1;
    }
    assert bad == QueueBad(cap, k);
    assertions := assertions + [bad];
  }

  function QueueNext(q: nat, producer: bool): nat
  {
    if producer then (q + 1) % 256 else if q > 0 then q - 1 else q
  }

  lemma QueueStepMeaning(j: nat, I: Interp)
    ensures Num(QVar(j), I) < 256
    ensures BoolVal(QueueStep(j), I) <==>
              Num(QVar(j + 1), I) == QueueNext(Num(QVar(j), I), Num(ChVar(j), I) == 0)
  {
    SmallPowers();
    hide ToNat, FromInt, Pow2, Decimal;
    var q, x := QVar(j), TreeVal(QVar(j), I);
    KonstNum(0, 8, I);
    KonstNum(1, 8, I);
    ToNatBound(x);
    EqNum(ChVar(j), Konst(0, 8), I);
    ToNatFromInt(ToNat(x) + 1, 8);
    ToNatFromInt(ToNat(x) - 1, 8);
    var up, down := TBin(Add, q, Konst(1, 8)), TBin(Sub, q, Konst(1, 8));
    var busy := TIte(BCmp(Ugt, q, Konst(0, 8)), down, q);
    var next := TIte(EqT(ChVar(j), Konst(0, 8)), up, busy);
    assert TreeVal(up, I) == FromInt(ToNat(x) + 1, 8);
    assert TreeVal(down, I) == FromInt(ToNat(x) - 1, 8);
    assert BoolVal(BCmp(Ugt, q, Konst(0, 8)), I) <==> ToNat(x) > 0;
    assert TreeVal(busy, I) == if ToNat(x) > 0 then TreeVal(down, I) else x;
    assert TreeVal(next, I) == if Num(ChVar(j), I) == 0 then TreeVal(up, I) else TreeVal(busy, I);
    SmallMod(if ToNat(x) > 0 then ToNat(x) - 1 else 0, 256);
    assert Num(next, I) == QueueNext(Num(q, I), Num(ChVar(j), I) == 0);
    EqNum(QVar(j + 1), next, I);
  }

  lemma OverMeaning(cap: nat, j: nat, I: Interp)
    requires cap <= 255
    ensures BoolVal(Over(cap, j), I) <==> Num(QVar(j), I) > cap
  {
    hide ToNat, FromInt, Decimal, Pow2;
    SmallPowers();
    KonstNum(cap, 8, I);
  }

  lemma {:induction false} QueueBadMeaning(cap: nat, k: nat, I: Interp)
    requires cap <= 255
    ensures BoolVal(QueueBad(cap, k), I) <==>
              exists j: nat :: 1 <= j && (j <= k || j == 1) && Num(QVar(j), I) > cap
  {
    hide Over, Num, QVar;
    OverMeaning(cap, 1, I);
    if k > 1 {
      QueueBadMeaning(cap, k - 1, I);
      OverMeaning(cap, k, I);
    }
  }

  /** The query holds exactly on overflowing runs of the queue. */
  lemma QueueHolds(k: nat, cap: nat, I: Interp)
    requires cap <= 255
    ensures Holds(QueueQuery(k, cap), I) <==>
              && Num(QVar(0), I) == 0
              && (forall j: nat :: j < k ==> Num(QVar(j + 1), I) == QueueNext(Num(QVar(j), I), Num(ChVar(j), I) == 0))
              && exists j: nat :: 1 <= j && (j <= k || j == 1) && Num(QVar(j), I) > cap
  {
    hide QueueStep, QueueBad, Num, QueueNext, BoolVal;
    var ts := QueueQuery(k, cap);
    SmallPowers();
    KonstNum(0, 8, I);
    assert BoolVal(EqT(QVar(0), Konst(0, 8)), I) <==> Num(QVar(0), I) == 0 by { EqNum(QVar(0), Konst(0, 8), I); }
    QueueBadMeaning(cap, k, I);
    forall j: nat | j < k
      ensures BoolVal(ts[j + 1], I) <==> Num(QVar(j + 1), I) == QueueNext(Num(QVar(j), I), Num(ChVar(j), I) == 0)
    {
      assert ts[j + 1] == QueueSteps(k)[j];
      QueueStepMeaning(j, I);
    }
    assert ts[0] == EqT(QVar(0), Konst(0, 8)) && ts[k + 1] == QueueBad(cap, k) && |ts| == k + 2;
    if Holds(ts, I) {
      forall j: nat | j < k ensures Num(QVar(j + 1), I) == QueueNext(Num(QVar(j), I), Num(ChVar(j), I) == 0) {
        assert BoolVal(ts[j + 1], I);
      }
    } else {
      var m :| 0 <= m < |ts| && !BoolVal(ts[m], I);
      if 0 < m <= k {
        var j: nat := m - 1;
        assert ts[j + 1] == QueueSteps(k)[j];
        QueueStepMeaning(j, I);
        assert Num(QVar(j + 1), I) != QueueNext(Num(QVar(j), I), Num(ChVar(j), I) == 0);
      }
    }
  }

  /** The counter never outruns the steps, on every run. */
  lemma {:induction false} QueueBound(k: nat, I: Interp, j: nat)
    requires Num(QVar(0), I) == 0 && j <= k
    requires forall i: nat :: i < k ==> Num(QVar(i + 1), I) == QueueNext(Num(QVar(i), I), Num(ChVar(i), I) == 0)
    ensures Num(QVar(j), I) <= j
  {
    hide Num;
    if j > 0 {
      QueueBound(k, I, j - 1);
      assert Num(QVar(j - 1 + 1), I) == QueueNext(Num(QVar(j - 1), I), Num(ChVar(j - 1), I) == 0);
    }
  }

  ghost predicate QName(name: Name, j: nat) { name == At("q_", j) }

  ghost predicate IsQName(name: Name) { exists j: nat :: QName(name, j) }

  ghost function QIndex(name: Name): (j: nat)
    requires IsQName(name)
    ensures QName(name, j)
  {
    var j: nat :| QName(name, j); j
  }

  /** The counts grow by step each time, the producer always chosen; with
      step 1 it is the all-producer run. */
  ghost function Producers(step: nat): Interp
  {
    Interp(imap name: Name | IsQName(name) :: FromInt(step * QIndex(name), 8), imap[], imap[])
  }

  lemma ProducersNum(step: nat, j: nat)
    ensures Num(QVar(j), Producers(step)) == (step * j) % 256 && Num(ChVar(j), Producers(step)) == 0
  {
    SmallPowers();
    assert QName(At("q_", j), j);
    AtInjective("q_", QIndex(At("q_", j)), "q_", j);
    ToNatFromInt(step * j, 8);
    forall i: nat ensures !QName(At("ch_", j), i) {
      assert At("ch_", j)[0] == 'c' && At("q_", i)[0] == 'q';
    }
    ToNatFill(false, 8);
  }

  /** THE QUEUE OVERFLOWS within k steps exactly when its capacity is below
      both the number of steps and the largest count a byte holds. */
  lemma QueueSat(k: nat, cap: nat)
    requires k >= 1 && cap <= 255
    ensures TreeSat(QueueQuery(k, cap)) <==> cap < k && cap < 255
  {
    hide QueueQuery, Num, Producers;
    if TreeSat(QueueQuery(k, cap)) {
      var I: Interp :| Holds(QueueQuery(k, cap), I);
      QueueHolds(k, cap, I);
      var j: nat :| 1 <= j && j <= k && Num(QVar(j), I) > cap;
      QueueBound(k, I, j);
      assert Num(QVar(j), I) < 256 by { QueueStepMeaning(j, I); }
    }
    if cap < k && cap < 255 {
      var I := Producers(1);
      forall j: nat ensures Num(QVar(j), I) == j % 256 && Num(ChVar(j), I) == 0 { ProducersNum(1, j); }
      forall j: nat | j < k ensures Num(QVar(j + 1), I) == QueueNext(Num(QVar(j), I), Num(ChVar(j), I) == 0) {
        NextCount(j);
      }
      assert Num(QVar(cap + 1), I) == cap + 1 by { SmallMod(cap + 1, 256); }
      QueueHolds(k, cap, I);
    }
  }

  lemma NextCount(j: nat)
    ensures (j + 1) % 256 == QueueNext(j % 256, true)
  {
    DivModUnique(j + 1, 256, (j % 256 + 1) / 256 + j / 256, (j % 256 + 1) % 256);
  }

  /** Within the documented range of k, an undersized queue is exactly what
      makes the query satisfiable; past it a byte-sized capacity may not be. */
  lemma QueueSatInRange(k: nat, cap: nat)
    requires cap <= 255
    ensures 1 <= k <= 255 ==> (TreeSat(QueueQuery(k, cap)) <==> cap < k)
    ensures k > 255 && cap == 255 ==> cap < k && !TreeSat(QueueQuery(k, cap))
  {
    if k >= 1 { QueueSat(k, cap); }
  }

  /** At depth 0 no step constrains the count that the bad state names, so only
      the largest count a byte holds is safe. */
  lemma QueueDepthZero(cap: nat)
    requires cap <= 255
    ensures TreeSat(QueueQuery(0, cap)) <==> cap < 255
  {
    hide QueueQuery, Num, Producers;
    if TreeSat(QueueQuery(0, cap)) {
      var I: Interp :| Holds(QueueQuery(0, cap), I);
      QueueHolds(0, cap, I);
      assert Num(QVar(1), I) < 256 by { QueueStepMeaning(1, I); }
    }
    if cap < 255 {
      var I := Producers(255);
      ProducersNum(255, 0);
      ProducersNum(255, 1);
      QueueHolds(0, cap, I);
    }
  }

  // ---------- two threads, two locks ----------

  /** A component of the system at a step: a program counter or lock owner. */
  function Cell(prefix: string, j: nat): TBv { TVar(At(prefix, j), 2) }

  function Is(t: TBv, n: nat): TBool { EqT(t, Konst(n, 2)) }

  /** One thread's next program counter, first lock and second lock. */
  function ThreadTerms(pc: TBv, first: TBv, second: TBv, me: nat): (TBv, TBv, TBv)
  {
    var takeFirst, takeSecond := BAnd(Is(pc, 0), Is(first, 0)), BAnd(Is(pc, 1), Is(second, 0));
    (TIte(takeFirst, Konst(1, 2), TIte(takeSecond, Konst(2, 2), TIte(Is(pc, 2), Konst(3, 2), pc))),
     TIte(takeFirst, Konst(me, 2), TIte(Is(pc, 2), Konst(0, 2), first)),
     TIte(takeSecond, Konst(me, 2), TIte(Is(pc, 2), Konst(0, 2), second)))
  }

  function AMoves(j: nat): TBool { EqT(ChVar(j), Konst(0, 8)) }

  /** Thread A's terms at step j, over lock 1 then lock 2. */
  function ATerms(j: nat): (TBv, TBv, TBv) { ThreadTerms(Cell("pa_", j), Cell("l1_", j), Cell("l2_", j), 1) }

  /** Thread B's, as (pc, lock 1, lock 2): the same order, or inverted. */
  function BTerms(j: nat, inverted: bool): (TBv, TBv, TBv)
  {
    if inverted then
      var (pc, first, second) := ThreadTerms(Cell("pb_", j), Cell("l2_", j), Cell("l1_", j), 2);
      (pc, second, first)
    else ThreadTerms(Cell("pb_", j), Cell("l1_", j), Cell("l2_", j), 2)
  }

  /** The four transition equations of step j. */
  function LockStep(j: nat, inverted: bool): seq<TBool>
  {
    var a, b, moves := ATerms(j), BTerms(j, inverted), AMoves(j);
    [EqT(Cell("pa_", j + 1), TIte(moves, a.0, Cell("pa_", j))),
     EqT(Cell("pb_", j + 1), TIte(moves, Cell("pb_", j), b.0)),
     EqT(Cell("l1_", j + 1), TIte(moves, a.1, b.1)),
     EqT(Cell("l2_", j + 1), TIte(moves, a.2, b.2))]
  }

  function LockInit(): seq<TBool>
  {
    [Is(Cell("pa_", 0), 0), Is(Cell("pb_", 0), 0), Is(Cell("l1_", 0), 0), Is(Cell("l2_", 0), 0)]
  }

  /** Both threads hold their first lock and both locks are taken. */
  function Waiting(j: nat): TBool
  {
    BAnd(BAnd(Is(Cell("pa_", j), 1), Is(Cell("pb_", j), 1)),
         BAnd(BCmp(Ne, Cell("l1_", j), Konst(0, 2)), BCmp(Ne, Cell("l2_", j), Konst(0, 2))))
  }

  function WaitingBy(k: nat): TBool { if k <= 1 then Waiting(1) else BOr(WaitingBy(k - 1), Waiting(k)) }

  function LockSteps(k: nat, inverted: bool): (ts: seq<TBool>)
    ensures |ts| == 4 * k
  {
    if k == 0 then [] else LockSteps(k - 1, inverted) + LockStep(k - 1, inverted)
  }

  function DeadlockQuery(k: nat, inverted: bool): seq<TBool>
  {
    LockInit() + LockSteps(k, inverted) + [WaitingBy(k)]
  }

  method Deadlock(k: nat, inverted: bool) returns (assertions: seq<TBool>)
    ensures assertions == DeadlockQuery(k, inverted)
  {
    hide ThreadTerms, EqT, Is, Konst, ChVar, Cell, Waiting;
    assertions := [];
    var names := ["pa_", "pb_", "l1_", "l2_"];
    for i := 0 to 4
      invariant assertions == LockInit()[..i]
    {
      assertions := assertions + [Is(Cell(names[i], 0), 0)];
    }
    for j := 0 to k
      invariant assertions == LockInit() + LockSteps(j, inverted)
    {
      ghost var before := assertions;
      var pa, pb, l1, l2 := Cell("pa_", j), Cell("pb_", j), Cell("l1_", j), Cell("l2_", j);
      var moves := EqT(ChVar(j), Konst(0, 8));
      var (paNext, aL1, aL2) := ThreadTerms(pa, l1, l2, 1);
      var (pbNext, bFirst, bSecond) := if inverted then ThreadTerms(pb, l2, l1, 2) else ThreadTerms(pb, l1, l2, 2);
      var (bL1, bL2) := if inverted then (bSecond, bFirst) else (bFirst, bSecond);
      assertions := assertions + [EqT(Cell("pa_", j + 1), TIte(moves, paNext, pa))];
      assertions := assertions + [EqT(Cell("pb_", j + 1), TIte(moves, pb, pbNext))];
      assertions := assertions + [EqT(Cell("l1_", j + 1), TIte(moves, aL1, bL1))];
      assertions := assertions + [EqT(Cell("l2_", j + 1), TIte(moves, aL2, bL2))];
      assert assertions == before + LockStep(j, inverted);
    }
    var bad := Waiting(1);
    var j := 2;
    while j <= k
      invariant 2 <= j && (j <= k + 1 || j == 2) && bad == WaitingBy(j - 1)
    {
      bad := BOr(bad, Waiting(j));
      j := j + 1;
    }
    assertions := assertions + [bad];
  }

  // ---------- the system the query unrolls ----------

  datatype Sys = Sys(pa: nat, pb: nat, l1: nat, l2: nat)

  const START: Sys := Sys(0, 0, 0, 0)

  function Thread(pc: nat, first: nat, second: nat, me: nat): (nat, nat, nat)
  {
    (if pc == 0 && first == 0 then 1 else if pc == 1 && second == 0 then 2 else if pc == 2 then 3 else pc,
     if pc == 0 && first == 0 then me else if pc == 2 then 0 else first,
     if pc == 1 && second == 0 then me else if pc == 2 then 0 else second)
  }

  function Next(s: Sys, aMoves: bool, inverted: bool): Sys
  {
    if aMoves then var (pc, l1, l2) := Thread(s.pa, s.l1, s.l2, 1); Sys(pc, s.pb, l1, l2)
    else if inverted then var (pc, l2, l1) := Thread(s.pb, s.l2, s.l1, 2); Sys(s.pa, pc, l1, l2)
    else var (pc, l1, l2) := Thread(s.pb, s.l1, s.l2, 2); Sys(s.pa, pc, l1, l2)
  }

  predicate CircularWait(s: Sys) { s.pa == 1 && s.pb == 1 && s.l1 != 0 && s.l2 != 0 }

  /** The state after j steps of a schedule; true lets thread A move. */
  function Run(schedule: seq<bool>, inverted: bool, j: nat): Sys
    requires j <= |schedule|
  {
    if j == 0 then START else Next(Run(schedule, inverted, j - 1), schedule[j - 1], inverted)
  }

  /** LOCK OWNERSHIP: with one lock order, a thread past its first acquisition
      owns lock 1, in every state of every run. */
  predicate Owns(s: Sys) { (1 <= s.pa <= 2 ==> s.l1 == 1) && (1 <= s.pb <= 2 ==> s.l1 == 2) }

  lemma {:induction false} OrderedRunOwns(schedule: seq<bool>, j: nat)
    requires j <= |schedule|
    ensures Owns(Run(schedule, false, j)) && !CircularWait(Run(schedule, false, j))
  {
    if j > 0 { OrderedRunOwns(schedule, j - 1); }
  }

  /** The state an interpretation gives step j. */
  ghost function StateOf(I: Interp, j: nat): Sys
  {
    Sys(Num(Cell("pa_", j), I), Num(Cell("pb_", j), I), Num(Cell("l1_", j), I), Num(Cell("l2_", j), I))
  }

  lemma IsMeaning(t: TBv, n: nat, I: Interp)
    requires n < 4 && |TreeVal(t, I)| == 2
    ensures BoolVal(Is(t, n), I) <==> Num(t, I) == n
  {
    SmallPowers();
    KonstNum(n, 2, I);
    EqNum(t, Konst(n, 2), I);
  }

  lemma BothMeaning(a: TBv, m: nat, b: TBv, n: nat, I: Interp)
    requires m < 4 && n < 4 && |TreeVal(a, I)| == |TreeVal(b, I)| == 2
    ensures BoolVal(BAnd(Is(a, m), Is(b, n)), I) <==> Num(a, I) == m && Num(b, I) == n
  {
    IsMeaning(a, m, I);
    IsMeaning(b, n, I);
    hide Is, Num, TreeVal;
  }

  /** An ite over a condition of known meaning. */
  lemma IteNum(c: TBool, a: TBv, b: TBv, I: Interp)
    ensures TreeVal(TIte(c, a, b), I) == if BoolVal(c, I) then TreeVal(a, I) else TreeVal(b, I)
    ensures Num(TIte(c, a, b), I) == if BoolVal(c, I) then Num(a, I) else Num(b, I)
  {
  }

  lemma PcMeaning(pc: TBv, first: TBv, second: TBv, I: Interp)
    requires |TreeVal(pc, I)| == |TreeVal(first, I)| == |TreeVal(second, I)| == 2
    ensures var next := ThreadTerms(pc, first, second, 0).0;
            Num(next, I) == Thread(Num(pc, I), Num(first, I), Num(second, I), 0).0 && |TreeVal(next, I)| == 2
  {
    SmallPowers();
    hide ToNat, FromInt, Pow2, Is, TreeVal, BoolVal, Num;
    var takeFirst, takeSecond := BAnd(Is(pc, 0), Is(first, 0)), BAnd(Is(pc, 1), Is(second, 0));
    BothMeaning(pc, 0, first, 0, I);
    BothMeaning(pc, 1, second, 0, I);
    IsMeaning(pc, 2, I);
    KonstNum(1, 2, I);
    KonstNum(2, 2, I);
    KonstNum(3, 2, I);
    var done := TIte(Is(pc, 2), Konst(3, 2), pc);
    var later := TIte(takeSecond, Konst(2, 2), done);
    IteNum(Is(pc, 2), Konst(3, 2), pc, I);
    IteNum(takeSecond, Konst(2, 2), done, I);
    IteNum(takeFirst, Konst(1, 2), later, I);
  }

  /** A lock: taken under a condition, released at program counter 2. */
  lemma LockMeaning(take: TBool, pc: TBv, lock: TBv, me: nat, I: Interp)
    requires me < 4 && |TreeVal(pc, I)| == |TreeVal(lock, I)| == 2
    ensures var next := TIte(take, Konst(me, 2), TIte(Is(pc, 2), Konst(0, 2), lock));
            && Num(next, I) == (if BoolVal(take, I) then me else if Num(pc, I) == 2 then 0 else Num(lock, I))
            && |TreeVal(next, I)| == 2
  {
    SmallPowers();
    hide ToNat, FromInt, Pow2, Is, TreeVal, BoolVal, Num;
    IsMeaning(pc, 2, I);
    KonstNum(0, 2, I);
    KonstNum(me, 2, I);
    IteNum(Is(pc, 2), Konst(0, 2), lock, I);
    IteNum(take, Konst(me, 2), TIte(Is(pc, 2), Konst(0, 2), lock), I);
  }

  lemma ThreadMeaning(pc: TBv, first: TBv, second: TBv, me: nat, I: Interp)
    requires me < 4 && |TreeVal(pc, I)| == |TreeVal(first, I)| == |TreeVal(second, I)| == 2
    ensures var (pc', first', second') := ThreadTerms(pc, first, second, me);
            && (Num(pc', I), Num(first', I), Num(second', I)) == Thread(Num(pc, I), Num(first, I), Num(second, I), me)
            && |TreeVal(pc', I)| == |TreeVal(first', I)| == |TreeVal(second', I)| == 2
  {
    hide ToNat, FromInt, Pow2, Is, TreeVal, BoolVal, Num;
    PcMeaning(pc, first, second, I);
    BothMeaning(pc, 0, first, 0, I);
    BothMeaning(pc, 1, second, 0, I);
    LockMeaning(BAnd(Is(pc, 0), Is(first, 0)), pc, first, me, I);
    LockMeaning(BAnd(Is(pc, 1), Is(second, 0)), pc, second, me, I);
  }

  lemma TwoBits(prefix: string, j: nat, I: Interp)
    ensures |TreeVal(Cell(prefix, j), I)| == 2
  {
  }

  /** A transition equation: the next component is the mover's. */
  lemma MoveMeaning(next: TBv, moves: TBool, a: TBv, b: TBv, I: Interp)
    requires |TreeVal(next, I)| == |TreeVal(a, I)| == |TreeVal(b, I)|
    ensures BoolVal(EqT(next, TIte(moves, a, b)), I) <==> Num(next, I) == if BoolVal(moves, I) then Num(a, I) else Num(b, I)
  {
    hide ToNat, EqT;
    EqNum(next, TIte(moves, a, b), I);
  }

  lemma MovesMeaning(j: nat, I: Interp)
    ensures BoolVal(AMoves(j), I) <==> Num(ChVar(j), I) == 0
  {
    SmallPowers();
    hide ToNat, FromInt, Pow2, Decimal, At;
    KonstNum(0, 8, I);
    EqNum(ChVar(j), Konst(0, 8), I);
  }

  lemma LockStepMeaning(j: nat, inverted: bool, I: Interp)
    ensures (forall m :: 0 <= m < 4 ==> BoolVal(LockStep(j, inverted)[m], I)) <==>
              StateOf(I, j + 1) == Next(StateOf(I, j), Num(ChVar(j), I) == 0, inverted)
  {
    hide ThreadTerms, Thread, EqT, AMoves, Cell, ChVar, TreeVal, BoolVal, Num;
    MovesMeaning(j, I);
    var pa, pb, l1, l2 := Cell("pa_", j), Cell("pb_", j), Cell("l1_", j), Cell("l2_", j);
    forall prefix, i ensures |TreeVal(Cell(prefix, i), I)| == 2 { TwoBits(prefix, i, I); }
    ThreadMeaning(pa, l1, l2, 1, I);
    if inverted { ThreadMeaning(pb, l2, l1, 2, I); } else { ThreadMeaning(pb, l1, l2, 2, I); }
    var a, b, moves := ATerms(j), BTerms(j, inverted), AMoves(j);
    MoveMeaning(Cell("pa_", j + 1), moves, a.0, pa, I);
    MoveMeaning(Cell("pb_", j + 1), moves, pb, b.0, I);
    MoveMeaning(Cell("l1_", j + 1), moves, a.1, b.1, I);
    MoveMeaning(Cell("l2_", j + 1), moves, a.2, b.2, I);
    var step := LockStep(j, inverted);
    assert (forall m :: 0 <= m < 4 ==> BoolVal(step[m], I)) <==>
           BoolVal(step[0], I) && BoolVal(step[1], I) && BoolVal(step[2], I) && BoolVal(step[3], I);
  }

  lemma WaitingMeaning(j: nat, I: Interp)
    ensures BoolVal(Waiting(j), I) <==> CircularWait(StateOf(I, j))
  {
    SmallPowers();
    hide ToNat, FromInt, Pow2, Decimal, At, Is;
    IsMeaning(Cell("pa_", j), 1, I);
    IsMeaning(Cell("pb_", j), 1, I);
    KonstNum(0, 2, I);
    EqNum(Cell("l1_", j), Konst(0, 2), I);
    EqNum(Cell("l2_", j), Konst(0, 2), I);
    var l1, l2 := Cell("l1_", j), Cell("l2_", j);
    assert BoolVal(BCmp(Ne, l1, Konst(0, 2)), I) == !BoolVal(EqT(l1, Konst(0, 2)), I);
    assert BoolVal(BCmp(Ne, l2, Konst(0, 2)), I) == !BoolVal(EqT(l2, Konst(0, 2)), I);
    assert BoolVal(Waiting(j).x, I) <==> Num(Cell("pa_", j), I) == 1 && Num(Cell("pb_", j), I) == 1;
    assert BoolVal(Waiting(j).y, I) <==> Num(l1, I) != 0 && Num(l2, I) != 0;
  }

  lemma {:induction false} WaitingByMeaning(k: nat, I: Interp)
    ensures BoolVal(WaitingBy(k), I) <==>
              exists j: nat :: 1 <= j && (j <= k || j == 1) && CircularWait(StateOf(I, j))
  {
    hide Waiting, StateOf, CircularWait;
    WaitingMeaning(1, I);
    if k > 1 {
      WaitingByMeaning(k - 1, I);
      WaitingMeaning(k, I);
    }
  }

  lemma HoldsSplit(ts: seq<TBool>, us: seq<TBool>, I: Interp)
    ensures Holds(ts + us, I) <==> Holds(ts, I) && Holds(us, I)
  {
    if Holds(ts + us, I) {
      forall k | 0 <= k < |ts| ensures BoolVal(ts[k], I) { assert BoolVal((ts + us)[k], I); }
      forall k | 0 <= k < |us| ensures BoolVal(us[k], I) { assert BoolVal((ts + us)[|ts| + k], I); }
    }
  }

  /** The first k states follow the system's steps. */
  ghost predicate Follows(I: Interp, k: nat, inverted: bool)
  {
    forall j: nat :: j < k ==> StateOf(I, j + 1) == Next(StateOf(I, j), Num(ChVar(j), I) == 0, inverted)
  }

  lemma {:induction false} StepsHold(k: nat, inverted: bool, I: Interp)
    ensures Holds(LockSteps(k, inverted), I) <==> Follows(I, k, inverted)
  {
    hide LockStep, StateOf, Next, Num;
    if k > 0 {
      StepsHold(k - 1, inverted, I);
      HoldsSplit(LockSteps(k - 1, inverted), LockStep(k - 1, inverted), I);
      LockStepMeaning(k - 1, inverted, I);
      StepCount(k - 1, inverted);
    }
  }

  lemma StepCount(j: nat, inverted: bool)
    ensures |LockStep(j, inverted)| == 4
  {
  }

  lemma InitHolds(I: Interp)
    ensures Holds(LockInit(), I) <==> StateOf(I, 0) == START
  {
    hide Is;
    IsMeaning(Cell("pa_", 0), 0, I);
    IsMeaning(Cell("pb_", 0), 0, I);
    IsMeaning(Cell("l1_", 0), 0, I);
    IsMeaning(Cell("l2_", 0), 0, I);
    var ts := LockInit();
    assert Holds(ts, I) <==> BoolVal(ts[0], I) && BoolVal(ts[1], I) && BoolVal(ts[2], I) && BoolVal(ts[3], I);
  }

  /** The query holds exactly on runs of the system that reach a wait. */
  lemma DeadlockHolds(k: nat, inverted: bool, I: Interp)
    ensures Holds(DeadlockQuery(k, inverted), I) <==>
              && StateOf(I, 0) == START && Follows(I, k, inverted)
              && exists j: nat :: 1 <= j && (j <= k || j == 1) && CircularWait(StateOf(I, j))
  {
    hide LockInit, LockSteps, WaitingBy, StateOf, Follows, CircularWait;
    HoldsSplit(LockInit() + LockSteps(k, inverted), [WaitingBy(k)], I);
    HoldsSplit(LockInit(), LockSteps(k, inverted), I);
    InitHolds(I);
    StepsHold(k, inverted, I);
    WaitingByMeaning(k, I);
    assert Holds([WaitingBy(k)], I) <==> BoolVal(WaitingBy(k), I) by {
      assert [WaitingBy(k)][0] == WaitingBy(k);
    }
  }

  // ---------- interpretations by component and step ----------

  ghost predicate SlotAt(name: Name, p: string, j: nat) { |p| == 3 && name == At(p, j) }

  ghost predicate IsSlot(name: Name) { exists p: string, j: nat :: SlotAt(name, p, j) }

  ghost function SlotOf(name: Name): (slot: (string, nat))
    requires IsSlot(name)
    ensures SlotAt(name, slot.0, slot.1)
  {
    var p: string, j: nat :| SlotAt(name, p, j); (p, j)
  }

  function CellWidth(p: string): nat { if p == "ch_" then 8 else 2 }

  /** The interpretation that gives component p at step j the value v(p, j). */
  ghost function FromCells(v: (string, nat) -> nat): Interp
  {
    Interp(imap name: Name | IsSlot(name) :: FromInt(v(SlotOf(name).0, SlotOf(name).1), CellWidth(SlotOf(name).0)),
           imap[], imap[])
  }

  lemma CellNum(v: (string, nat) -> nat, p: string, j: nat)
    requires |p| == 3 && v(p, j) < Pow2(CellWidth(p))
    ensures Num(TVar(At(p, j), CellWidth(p)), FromCells(v)) == v(p, j)
  {
    var name := At(p, j);
    assert SlotAt(name, p, j);
    var slot := SlotOf(name);
    AtInjective(slot.0, slot.1, p, j);
    KonstNum(v(p, j), CellWidth(p), FromCells(v));
  }

  lemma CellsState(v: (string, nat) -> nat, j: nat)
    requires v("pa_", j) < 4 && v("pb_", j) < 4 && v("l1_", j) < 4 && v("l2_", j) < 4 && v("ch_", j) < 256
    ensures StateOf(FromCells(v), j) == Sys(v("pa_", j), v("pb_", j), v("l1_", j), v("l2_", j))
    ensures Num(ChVar(j), FromCells(v)) == v("ch_", j)
  {
    SmallPowers();
    hide FromCells, Num, Pow2;
    CellNum(v, "pa_", j);
    CellNum(v, "pb_", j);
    CellNum(v, "l1_", j);
    CellNum(v, "l2_", j);
    CellNum(v, "ch_", j);
  }

  // ---------- satisfiable exactly when a run waits ----------

  predicate InRange(s: Sys) { s.pa < 4 && s.pb < 4 && s.l1 < 3 && s.l2 < 3 }

  lemma {:induction false} RunInRange(schedule: seq<bool>, inverted: bool, j: nat)
    requires j <= |schedule|
    ensures InRange(Run(schedule, inverted, j))
  {
    if j > 0 { RunInRange(schedule, inverted, j - 1); }
  }

  /** The value of a component along a scheduled run. */
  function RunCell(schedule: seq<bool>, inverted: bool, p: string, j: nat): nat
  {
    if j > |schedule| then 0 else
    var s := Run(schedule, inverted, j);
    if p == "pa_" then s.pa else if p == "pb_" then s.pb else if p == "l1_" then s.l1 else if p == "l2_" then s.l2
    else if j < |schedule| && !schedule[j] then 1 else 0
  }

  ghost function RunInterp(schedule: seq<bool>, inverted: bool): Interp
  {
    FromCells((p, j) => RunCell(schedule, inverted, p, j))
  }

  lemma RunInterpState(schedule: seq<bool>, inverted: bool, j: nat)
    requires j <= |schedule|
    ensures StateOf(RunInterp(schedule, inverted), j) == Run(schedule, inverted, j)
    ensures j < |schedule| ==> (Num(ChVar(j), RunInterp(schedule, inverted)) == 0 <==> schedule[j])
  {
    hide Run, StateOf, Num;
    RunInRange(schedule, inverted, j);
    CellsState((p, i) => RunCell(schedule, inverted, p, i), j);
  }

  /** Some schedule of k moves reaches a circular wait. */
  ghost predicate CanWait(k: nat, inverted: bool)
  {
    exists schedule: seq<bool>, j: nat :: |schedule| == k && 1 <= j <= k && CircularWait(Run(schedule, inverted, j))
  }

  lemma {:induction false} FollowsRun(I: Interp, schedule: seq<bool>, inverted: bool, j: nat)
    requires StateOf(I, 0) == START && Follows(I, |schedule|, inverted) && j <= |schedule|
    requires forall i: nat :: i < |schedule| ==> schedule[i] == (Num(ChVar(i), I) == 0)
    ensures StateOf(I, j) == Run(schedule, inverted, j)
  {
    hide StateOf, Next, Num;
    if j > 0 {
      FollowsRun(I, schedule, inverted, j - 1);
      assert StateOf(I, j - 1 + 1) == Next(StateOf(I, j - 1), Num(ChVar(j - 1), I) == 0, inverted);
    }
  }

  ghost function ScheduleOf(I: Interp, k: nat): (schedule: seq<bool>)
    ensures |schedule| == k && forall i: nat :: i < k ==> schedule[i] == (Num(ChVar(i), I) == 0)
  {
    seq(k, i requires 0 <= i < k => Num(ChVar(i), I) == 0)
  }

  /** THE UNROLLING IS THE SYSTEM: the query is satisfiable exactly when some
      schedule reaches a circular wait within k steps. */
  lemma DeadlockSat(k: nat, inverted: bool)
    requires k >= 1
    ensures TreeSat(DeadlockQuery(k, inverted)) <==> CanWait(k, inverted)
  {
    hide DeadlockQuery, StateOf, Num, CircularWait, Run, Next, Holds;
    if TreeSat(DeadlockQuery(k, inverted)) {
      var I: Interp :| Holds(DeadlockQuery(k, inverted), I);
      DeadlockHolds(k, inverted, I);
      var j: nat :| 1 <= j && j <= k && CircularWait(StateOf(I, j));
      FollowsRun(I, ScheduleOf(I, k), inverted, j);
    }
    if CanWait(k, inverted) {
      var schedule: seq<bool>, j: nat :| |schedule| == k && 1 <= j <= k && CircularWait(Run(schedule, inverted, j));
      var I := RunInterp(schedule, inverted);
      RunFollows(schedule, inverted);
      RunInterpState(schedule, inverted, j);
      DeadlockHolds(k, inverted, I);
    }
  }

  lemma RunFollows(schedule: seq<bool>, inverted: bool)
    ensures StateOf(RunInterp(schedule, inverted), 0) == START
    ensures Follows(RunInterp(schedule, inverted), |schedule|, inverted)
  {
    hide StateOf, Num, Next, RunInterp;
    var I := RunInterp(schedule, inverted);
    RunInterpState(schedule, inverted, 0);
    forall j: nat | j < |schedule|
      ensures StateOf(I, j + 1) == Next(StateOf(I, j), Num(ChVar(j), I) == 0, inverted)
    {
      RunInterpState(schedule, inverted, j);
      RunInterpState(schedule, inverted, j + 1);
    }
  }

  /** ORDERED LOCKS NEVER DEADLOCK, at any depth. */
  lemma OrderedLocksSafe(k: nat)
    requires k >= 1
    ensures !TreeSat(DeadlockQuery(k, false))
  {
    hide DeadlockQuery, Run, CircularWait;
    DeadlockSat(k, false);
    forall schedule: seq<bool>, j: nat | |schedule| == k && 1 <= j <= k ensures !CircularWait(Run(schedule, false, j)) {
      OrderedRunOwns(schedule, j);
    }
  }

  /** INVERTED LOCKS DEADLOCK exactly from depth 2 on. */
  lemma InvertedLocksDeadlock(k: nat)
    requires k >= 1
    ensures TreeSat(DeadlockQuery(k, true)) <==> k >= 2
  {
    hide DeadlockQuery;
    DeadlockSat(k, true);
    if k >= 2 {
      var schedule := seq(k, i => i == 0);
      assert Run(schedule, true, 1) == Sys(1, 0, 1, 0);
      assert Run(schedule, true, 2) == Sys(1, 1, 1, 2);
      assert CircularWait(Run(schedule, true, 2));
    } else {
      forall schedule: seq<bool>, j: nat | |schedule| == 1 && 1 <= j <= 1 ensures !CircularWait(Run(schedule, true, j)) {
        assert Run(schedule, true, 0) == START;
      }
    }
  }

  /** At depth 0 the bad state is unconstrained, so with either lock order the
      query is satisfiable. */
  lemma DepthZero(inverted: bool)
    ensures TreeSat(DeadlockQuery(0, inverted))
  {
    hide DeadlockQuery, StateOf, Num;
    var v := (p: string, j: nat) => if j == 1 then 1 else 0;
    CellsState(v, 0);
    CellsState(v, 1);
    DeadlockHolds(0, inverted, FromCells(v));
    assert CircularWait(StateOf(FromCells(v), 1));
  }
}
