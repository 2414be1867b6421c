/** Which images the term-to-DAG correspondence accepts, said by what the nodes
    compute. */
module TermExact {
  import opened Wrappers
  import opened Bits
  import opened BvOps
  import opened Dag
  import opened TermCheck

  // ---------- operators told apart by their values ----------

  /** Two operators agree on all words of one width. */
  ghost predicate SameBin(op: BinOp, op': BinOp)
  {
    forall u: Bv, v: Bv :: |u| == |v| > 0 ==> BinValue(op, u, v) == BinValue(op', u, v)
  }

  /** Or do with the second's operands exchanged. */
  ghost predicate FlippedBin(op: BinOp, op': BinOp)
  {
    forall u: Bv, v: Bv :: |u| == |v| > 0 ==> BinValue(op, u, v) == BinValue(op', v, u)
  }

  ghost predicate SameCmp(op: CmpOp, op': CmpOp)
  {
    forall u: Bv, v: Bv :: |u| == |v| > 0 ==> CmpValue(op, u, v) == CmpValue(op', u, v)
  }

  ghost predicate FlippedCmp(op: CmpOp, op': CmpOp)
  {
    forall u: Bv, v: Bv :: |u| == |v| > 0 ==> CmpValue(op, u, v) == CmpValue(op', v, u)
  }

  /** The 3-bit words of 0 to 7. */
  function W(n: nat): Bv { FromInt(n, 3) }

  lemma WordNumber(n: nat)
    requires n < 8
    ensures ToNat(W(n)) == n && |W(n)| == 3 && (Msb(W(n)) <==> n >= 4) && Pow2(3) == 8
  {
    assert Pow2(2) == 4 && Pow2(3) == 8;
    hide ToNat, FromInt, Pow2;
    ToNatFromInt(n, 3);
    FromIntBit(n, 3, 2);
    HighBit(n);
  }

  lemma HighBit(n: nat)
    requires n < 8
    ensures n % 8 == n && (n / 4 % 2 == 1 <==> n >= 4)
  {
  }

  lemma WordsDiffer(m: nat, n: nat)
    requires m < 8 && n < 8 && W(m) == W(n)
    ensures m == n
  {
    WordNumber(m);
    WordNumber(n);
  }

  /** What each operator gives on (1, 0), (0, 1), (7, 1) and (1, 7). */
  function Table(op: BinOp): (nat, nat, nat, nat)
  {
    match op
    case Add => (1, 1, 0, 0)
    case Sub => (1, 7, 6, 2)
    case Mul => (0, 0, 7, 7)
    case Udiv => (7, 0, 7, 0)
    case Urem => (1, 0, 0, 1)
    case And => (0, 0, 1, 1)
    case Or => (1, 1, 7, 7)
    case Xor => (1, 1, 6, 6)
    case Shl => (1, 0, 6, 0)
    case Lshr => (1, 0, 3, 0)
    case Ashr => (1, 0, 7, 0)
    case Rotr => (1, 0, 7, 4)
    case Rotl => (1, 0, 7, 2)
    case Sdiv => (7, 0, 7, 7)
    case Srem => (1, 0, 0, 0)
  }

  lemma Modulo(v: int)
    ensures FromInt(v, 3) == W(v % 8)
  {
    hide FromInt;
    WordNumber(0);
    FromIntCongruent(v, v % 8, v / 8, 3);
  }

  lemma Sums(m: nat, n: nat)
    requires m < 8 && n < 8
    ensures BvAdd(W(m), W(n)) == W((m + n) % 8) && BvSub(W(m), W(n)) == W((m - n) % 8) && BvNeg(W(m)) == W((0 - m) % 8)
  {
    hide ToNat, FromInt;
    WordNumber(m);
    WordNumber(n);
    Modulo(m + n);
    Modulo(m - n);
    Modulo(0 - m);
  }

  lemma Products(m: nat, n: nat)
    requires m < 8 && n < 8
    ensures BvMul(W(m), W(n)) == W(m * n % 8)
    ensures BvUdiv(W(m), W(n)) == if n == 0 then Fill(true, 3) else W(m / n % 8)
    ensures BvUrem(W(m), W(n)) == if n == 0 then W(m) else W(m % n % 8)
  {
    hide ToNat, FromInt;
    WordNumber(m);
    WordNumber(n);
    Modulo(m * n);
    if n > 0 {
      Modulo(m / n);
      Modulo(m % n);
    }
  }

  lemma Spelled(n: nat)
    requires n < 8
    ensures W(n) == [n % 2 == 1, n / 2 % 2 == 1, n / 4 % 2 == 1]
  {
    assert Pow2(0) == 1 && Pow2(1) == 2 && Pow2(2) == 4;
    hide FromInt, Pow2;
    FromIntBit(n, 3, 0);
    FromIntBit(n, 3, 1);
    FromIntBit(n, 3, 2);
  }

  lemma Bitwise(op: BinOp, m: nat, n: nat)
    requires m < 8 && n < 8 && (op.And? || op.Or? || op.Xor?)
    ensures BinValue(op, W(m), W(n)) ==
            [BitOf(op, m % 2 == 1, n % 2 == 1), BitOf(op, m / 2 % 2 == 1, n / 2 % 2 == 1),
             BitOf(op, m / 4 % 2 == 1, n / 4 % 2 == 1)]
  {
    hide FromInt, W;
    Spelled(m);
    Spelled(n);
  }

  predicate BitOf(op: BinOp, x: bool, y: bool) { if op.And? then x && y else if op.Or? then x || y else x != y }

  lemma Shifted(m: nat, n: nat)
    requires m < 8 && n < 8
    ensures BvShl(W(m), W(n)) == W(m * Pow2(n) % 8) && BvLshr(W(m), W(n)) == W(m / Pow2(n) % 8)
  {
    hide ToNat, FromInt;
    WordNumber(m);
    WordNumber(n);
    Modulo(m * Pow2(n));
    Modulo(m / Pow2(n));
  }

  lemma Rotations(m: nat, n: nat)
    requires m < 8 && n < 8
    ensures BvRotr(W(m), W(n)) == W(m)[n % 3..] + W(m)[..n % 3]
    ensures BvRotl(W(m), W(n)) == W(m)[3 - n % 3..] + W(m)[..3 - n % 3]
  {
    hide ToNat, FromInt;
    WordNumber(m);
    WordNumber(n);
  }

  /** The operator gives the table's answer on (m, n). */
  ghost predicate Gives(op: BinOp, m: nat, n: nat, r: nat) { BinValue(op, W(m), W(n)) == W(r) }

  lemma GivesSums(m: nat, n: nat)
    requires m < 8 && n < 8
    ensures Gives(Add, m, n, (m + n) % 8) && Gives(Sub, m, n, (m - n) % 8)
  {
    hide W, BvAdd, BvSub;
    Sums(m, n);
  }

  lemma GivesProducts(m: nat, n: nat)
    requires m < 8 && n < 8
    ensures Gives(Mul, m, n, m * n % 8)
    ensures Gives(Udiv, m, n, if n == 0 then 7 else m / n % 8) && Gives(Urem, m, n, if n == 0 then m else m % n % 8)
  {
    Ones();
    hide W, BvMul, BvUdiv, BvUrem;
    Products(m, n);
  }

  lemma Ones()
    ensures Fill(true, 3) == W(7) && |W(7)| == 3
  {
    Spelled(7);
  }

  lemma GivesShifts(m: nat, n: nat)
    requires m < 8 && n < 8
    ensures Gives(Shl, m, n, m * Pow2(n) % 8) && Gives(Lshr, m, n, m / Pow2(n) % 8)
    ensures Gives(Ashr, m, n, if m >= 4 then 7 - (7 - m) / Pow2(n) % 8 else m / Pow2(n) % 8)
  {
    hide W, BvShl, BvLshr, Pow2;
    Shifted(m, n);
    WordNumber(m);
    if m >= 4 {
      Flipped(m);
      Shifted(7 - m, n);
      Flipped((7 - m) / Pow2(n) % 8);
    }
  }

  lemma Flipped(n: nat)
    requires n < 8
    ensures Complement(W(n)) == W(7 - n)
  {
    hide W;
    Spelled(n);
    Spelled(7 - n);
  }

  lemma GivesRotations(m: nat, n: nat)
    requires m < 8 && n < 8
    ensures Gives(Rotr, m, n, Turned(m, n % 3)) && Gives(Rotl, m, n, Turned(m, 3 - n % 3))
  {
    hide W, BvRotr, BvRotl;
    Rotations(m, n);
    TurnedIs(m, n % 3);
    TurnedIs(m, 3 - n % 3);
  }

  /** A 3-bit number rotated k places to the right. */
  function Turned(m: nat, k: nat): nat
  {
    if k == 1 then m / 2 + 4 * (m % 2) else if k == 2 then m / 4 + 2 * (m % 4) else m
  }

  lemma TurnedIs(m: nat, k: nat)
    requires m < 8 && k <= 3
    ensures Turned(m, k) < 8 && |W(m)| == 3 && W(Turned(m, k)) == W(m)[k..] + W(m)[..k]
  {
    hide W;
    Spelled(m);
    if k == 1 {
      var r := m / 2 + 4 * (m % 2);
      TurnOne(m);
      Spelled(r);
    } else if k == 2 {
      var r := m / 4 + 2 * (m % 4);
      TurnTwo(m);
      Spelled(r);
    }
  }

  lemma TurnOne(m: nat)
    requires m < 8
    ensures var r := m / 2 + 4 * (m % 2); r < 8 && r % 2 == m / 2 % 2 && r / 2 % 2 == m / 4 % 2 && r / 4 % 2 == m % 2
  {
  }

  lemma TurnTwo(m: nat)
    requires m < 8
    ensures var r := m / 4 + 2 * (m % 4); r < 8 && r % 2 == m / 4 % 2 && r / 2 % 2 == m % 2 && r / 4 % 2 == m / 2 % 2
  {
  }

  lemma GivesSigned(m: nat, n: nat)
    requires m < 8 && n < 8
    ensures Gives(Sdiv, m, n, SignedDiv(m, n)) && Gives(Srem, m, n, SignedRem(m, n))
  {
    hide W, BvUdiv, BvUrem, BvNeg, Gives, ToNat, FromInt, Pow2, SignedDiv, SignedRem;
    WordNumber(m);
    WordNumber(n);
    var a, b := Size3(m), Size3(n);
    Sums(m, 0);
    Sums(n, 0);
    GivesProducts(a, b);
    Sums(UDiv(a, b), 0);
    Sums(URem(a, b), 0);
    SignedCases(m, n, a, b);
  }

  function Size3(m: nat): nat { if 4 <= m < 8 then 8 - m else m }

  function UDiv(a: nat, b: nat): nat { if b == 0 then 7 else a / b % 8 }

  function URem(a: nat, b: nat): nat { if b == 0 then a else a % b % 8 }

  function SignedDiv(m: nat, n: nat): nat
  {
    var q := UDiv(Size3(m), Size3(n));
    if (m >= 4) == (n >= 4) then q else (0 - q) % 8
  }

  function SignedRem(m: nat, n: nat): nat
  {
    var r := URem(Size3(m), Size3(n));
    if m >= 4 then (0 - r) % 8 else r
  }

  /** The standard's sign cases, over the magnitudes a and b. */
  lemma SignedCases(m: nat, n: nat, a: nat, b: nat)
    requires m < 8 && n < 8 && a == Size3(m) && b == Size3(n)
    requires (Msb(W(m)) <==> m >= 4) && (Msb(W(n)) <==> n >= 4)
    requires BvNeg(W(m)) == W((0 - m) % 8) && BvNeg(W(n)) == W((0 - n) % 8)
    requires Gives(Udiv, a, b, UDiv(a, b)) && Gives(Urem, a, b, URem(a, b))
    requires BvNeg(W(UDiv(a, b))) == W((0 - UDiv(a, b)) % 8) && BvNeg(W(URem(a, b))) == W((0 - URem(a, b)) % 8)
    ensures Gives(Sdiv, m, n, SignedDiv(m, n)) && Gives(Srem, m, n, SignedRem(m, n))
  {
    hide W, BvUdiv, BvUrem, BvNeg, Msb;
    assert m >= 4 ==> (0 - m) % 8 == a;
    assert n >= 4 ==> (0 - n) % 8 == b;
  }

  lemma Powers()
    ensures Pow2(0) == 1 && Pow2(1) == 2 && Pow2(7) == 128
  {
    assert Pow2(3) == 8 && Pow2(5) == 32;
  }

  /** The operator gives the table's answer. */
  ghost predicate GivesTable(op: BinOp)
  {
    Gives(op, 1, 0, Table(op).0) && Gives(op, 0, 1, Table(op).1) && Gives(op, 7, 1, Table(op).2) && Gives(op, 1, 7, Table(op).3)
  }

  lemma SumsTable()
    ensures GivesTable(Add) && GivesTable(Sub)
  {
    Powers();
    hide Gives, Pow2;
    GivesSums(1, 0);
    GivesSums(0, 1);
    GivesSums(7, 1);
    GivesSums(1, 7);
  }

  lemma ProductsTable()
    ensures GivesTable(Mul) && GivesTable(Udiv) && GivesTable(Urem)
  {
    Powers();
    hide Gives, Pow2;
    GivesProducts(1, 0);
    GivesProducts(0, 1);
    GivesProducts(7, 1);
    GivesProducts(1, 7);
  }

  lemma ShiftsTable()
    ensures GivesTable(Shl) && GivesTable(Lshr) && GivesTable(Ashr)
  {
    Powers();
    hide Gives, Pow2;
    GivesShifts(1, 0);
    GivesShifts(0, 1);
    GivesShifts(7, 1);
    GivesShifts(1, 7);
  }

  lemma RotationsTable()
    ensures GivesTable(Rotr) && GivesTable(Rotl)
  {
    Powers();
    hide Gives, Pow2;
    GivesRotations(1, 0);
    GivesRotations(0, 1);
    GivesRotations(7, 1);
    GivesRotations(1, 7);
  }

  lemma SignedTable()
    ensures GivesTable(Sdiv) && GivesTable(Srem)
  {
    Powers();
    hide Gives, Pow2;
    GivesSigned(1, 0);
    GivesSigned(0, 1);
    GivesSigned(7, 1);
    GivesSigned(1, 7);
  }

  lemma TableIs(op: BinOp)
    ensures GivesTable(op)
  {
    hide GivesTable;
    if op.And? || op.Or? || op.Xor? { BitwiseTable(op); }
    SumsTable();
    ProductsTable();
    ShiftsTable();
    RotationsTable();
    SignedTable();
  }

  lemma BitwiseTable(op: BinOp)
    requires op.And? || op.Or? || op.Xor?
    ensures GivesTable(op)
  {
    hide W, BinValue;
    BitwiseAt(op, 1, 0, Table(op).0);
    BitwiseAt(op, 0, 1, Table(op).1);
    BitwiseAt(op, 7, 1, Table(op).2);
    BitwiseAt(op, 1, 7, Table(op).3);
  }

  lemma BitwiseAt(op: BinOp, m: nat, n: nat, r: nat)
    requires m < 8 && n < 8 && r < 8 && (op.And? || op.Or? || op.Xor?)
    requires (r % 2 == 1) == BitOf(op, m % 2 == 1, n % 2 == 1)
    requires (r / 2 % 2 == 1) == BitOf(op, m / 2 % 2 == 1, n / 2 % 2 == 1)
    requires (r / 4 % 2 == 1) == BitOf(op, m / 4 % 2 == 1, n / 4 % 2 == 1)
    ensures Gives(op, m, n, r)
  {
    hide W, BinValue;
    Bitwise(op, m, n);
    Spelled(r);
  }

  /** Each answer is one of the eight words. */
  lemma TableSmall(op: BinOp)
    ensures Table(op).0 < 8 && Table(op).1 < 8 && Table(op).2 < 8 && Table(op).3 < 8
  {
  }

  /** Operators that agree on every word are one operator. */
  lemma SameBinOp(op: BinOp, op': BinOp)
    ensures SameBin(op, op') <==> op == op'
  {
    hide W, BinValue;
    if SameBin(op, op') {
      TableIs(op);
      TableIs(op');
      TableSmall(op);
      TableSmall(op');
      AllThree();
      assert BinValue(op, W(1), W(0)) == BinValue(op', W(1), W(0)) && BinValue(op, W(0), W(1)) == BinValue(op', W(0), W(1));
      assert BinValue(op, W(7), W(1)) == BinValue(op', W(7), W(1)) && BinValue(op, W(1), W(7)) == BinValue(op', W(1), W(7));
      WordsDiffer(Table(op).0, Table(op').0);
      WordsDiffer(Table(op).1, Table(op').1);
      WordsDiffer(Table(op).2, Table(op').2);
      WordsDiffer(Table(op).3, Table(op').3);
      TableTells(op, op');
    }
  }

  lemma AllThree()
    ensures |W(0)| == |W(1)| == |W(7)| == 3
  {
    hide FromInt;
  }

  lemma TableTells(op: BinOp, op': BinOp)
    ensures Table(op) == Table(op') ==> op == op'
  {
  }

  lemma FlippedTells(op: BinOp, op': BinOp)
    ensures Table(op) == (Table(op').1, Table(op').0, Table(op').3, Table(op').2) ==> op == op' && Commutes(op)
  {
  }

  lemma {:induction false} Exchanged(op: BinOp, u: Bv, v: Bv)
    requires Commutes(op) && |u| == |v|
    ensures BinValue(op, u, v) == BinValue(op, v, u)
  {
    match op {
      case Add =>
      case Mul => assert ToNat(u) * ToNat(v) == ToNat(v) * ToNat(u);
      case And => assert BvAnd(u, v) == BvAnd(v, u);
      case Or => assert BvOr(u, v) == BvOr(v, u);
      case Xor => assert BvXor(u, v) == BvXor(v, u);
    }
  }

  lemma FlippedBinOp(op: BinOp, op': BinOp)
    ensures FlippedBin(op, op') <==> op == op' && Commutes(op)
  {
    hide W, BinValue;
    if FlippedBin(op, op') {
      TableIs(op);
      TableIs(op');
      TableSmall(op);
      TableSmall(op');
      AllThree();
      assert BinValue(op, W(1), W(0)) == BinValue(op', W(0), W(1)) && BinValue(op, W(0), W(1)) == BinValue(op', W(1), W(0));
      assert BinValue(op, W(7), W(1)) == BinValue(op', W(1), W(7)) && BinValue(op, W(1), W(7)) == BinValue(op', W(7), W(1));
      WordsDiffer(Table(op).0, Table(op').1);
      WordsDiffer(Table(op).1, Table(op').0);
      WordsDiffer(Table(op).2, Table(op').3);
      WordsDiffer(Table(op).3, Table(op').2);
      FlippedTells(op, op');
    }
    if op == op' && Commutes(op) {
      forall u: Bv, v: Bv | |u| == |v| > 0 ensures BinValue(op, u, v) == BinValue(op', v, u) { Exchanged(op, u, v); }
    }
  }

  // ---------- comparisons ----------

  /** What each comparison says of (0, 1), (1, 0), (0, 0) and (0, 7). */
  function CmpTable(op: CmpOp): (bool, bool, bool, bool)
  {
    match op
    case Eq => (false, false, true, false)
    case Ne => (true, true, false, true)
    case Ult => (true, false, false, true)
    case Ule => (true, false, true, true)
    case Ugt => (false, true, false, false)
    case Uge => (false, true, true, false)
    case Slt => (true, false, false, false)
    case Sle => (true, false, true, false)
    case Sgt => (false, true, false, true)
    case Sge => (false, true, true, true)
  }

  lemma CmpTableIs(op: CmpOp)
    ensures (CmpValue(op, W(0), W(1)), CmpValue(op, W(1), W(0)), CmpValue(op, W(0), W(0)), CmpValue(op, W(0), W(7))) ==
            CmpTable(op)
  {
    WordNumber(0);
    WordNumber(1);
    WordNumber(7);
    hide ToNat, FromInt, Pow2, W;
  }

  /** And of the pairs exchanged. */
  function CmpTurned(op: CmpOp): (bool, bool, bool, bool)
  {
    var t := CmpTable(op);
    (t.1, t.0, t.2, op.Ne? || op.Ugt? || op.Uge? || op.Slt? || op.Sle?)
  }

  lemma CmpTurnedIs(op: CmpOp)
    ensures (CmpValue(op, W(1), W(0)), CmpValue(op, W(0), W(1)), CmpValue(op, W(0), W(0)), CmpValue(op, W(7), W(0))) ==
            CmpTurned(op)
  {
    WordNumber(0);
    WordNumber(1);
    WordNumber(7);
    hide ToNat, FromInt, Pow2, W;
  }

  lemma SameCmpOp(op: CmpOp, op': CmpOp)
    ensures SameCmp(op, op') <==> op == op'
  {
    hide W, CmpValue;
    if SameCmp(op, op') {
      CmpTableIs(op);
      CmpTableIs(op');
      AllThree();
      assert CmpTable(op) == CmpTable(op');
    }
  }

  lemma FlippedCmpOp(op: CmpOp, op': CmpOp)
    ensures FlippedCmp(op, op') <==> op == MirrorOp(op')
  {
    if FlippedCmp(op, op') {
      CmpTableIs(op);
      CmpTurnedIs(op');
      AllThree();
      hide W, CmpValue;
      assert CmpTable(op) == CmpTurned(op');
    }
  }

  // ---------- images of operators ----------

  /** Node i is mapped onto image. */
  predicate Onto(p: Pair, i: nat, image: DagNode)
    requires PairWf(p)
  {
    i < |p.t| && Mapped(p, i) && p.ns[p.m[i]] == image
  }

  /** EXACTLY WHICH COMPARISONS CORRESPOND: the same operands under an equal
      comparison, or the operands exchanged under one that says the same of
      exchanged words. */
  lemma CmpExact(p: Pair, zs: seq<Bv>, i: nat, op: CmpOp, a: nat, b: nat, op': CmpOp, x: nat, y: nat)
    requires PairWf(p) && |zs| == |p.t| && Onto(p, i, Cmp(op', x, y)) && p.t[i] == Cmp(op, a, b)
    ensures StepOk(p, zs, i) <==>
              || (x == MapAt(p.m, a) && y == MapAt(p.m, b) && SameCmp(op, op'))
              || (x == MapAt(p.m, b) && y == MapAt(p.m, a) && FlippedCmp(op, op'))
  {
    hide SameCmp, FlippedCmp;
    SameCmpOp(op, op');
    FlippedCmpOp(op, op');
  }

  /** EXACTLY WHICH BINARY OPERATORS CORRESPOND, likewise. */
  lemma BinExact(p: Pair, zs: seq<Bv>, i: nat, op: BinOp, a: nat, b: nat, op': BinOp, x: nat, y: nat)
    requires PairWf(p) && |zs| == |p.t| && Onto(p, i, Bin(op', x, y)) && p.t[i] == Bin(op, a, b)
    ensures StepOk(p, zs, i) <==>
              || (x == MapAt(p.m, a) && y == MapAt(p.m, b) && SameBin(op, op'))
              || (x == MapAt(p.m, b) && y == MapAt(p.m, a) && FlippedBin(op, op'))
  {
    hide SameBin, FlippedBin;
    SameBinOp(op, op');
    FlippedBinOp(op, op');
  }

  /** The connectives correspond over their operands in either order. */
  lemma ConnectiveExact(p: Pair, zs: seq<Bv>, i: nat, a: nat, b: nat, x: nat, y: nat)
    requires PairWf(p) && |zs| == |p.t|
    ensures (Onto(p, i, BoolAnd(x, y)) && p.t[i] == BoolAnd(a, b)) || (Onto(p, i, BoolOr(x, y)) && p.t[i] == BoolOr(a, b)) ==>
              (StepOk(p, zs, i) <==>
                || (x == MapAt(p.m, a) && y == MapAt(p.m, b))
                || (x == MapAt(p.m, b) && y == MapAt(p.m, a)))
  {
  }

  /** The node over its operands' images, for the operators with one order. */
  predicate OverImages(m: seq<nat>, node: DagNode, image: DagNode)
  {
    match node
    case BvNot(a) => image == BvNot(MapAt(m, a))
    case Neg(a) => image == Neg(MapAt(m, a))
    case Extract(hi, lo, a) => image == Extract(hi, lo, MapAt(m, a))
    case Concat(a, b) => image == Concat(MapAt(m, a), MapAt(m, b))
    case ZeroExt(a, extra) => image == ZeroExt(MapAt(m, a), extra)
    case SignExt(a, extra) => image == SignExt(MapAt(m, a), extra)
    case Ite(c, t, e) => image == Ite(MapAt(m, c), MapAt(m, t), MapAt(m, e))
    case Not(a) => image == Not(MapAt(m, a))
    case _ => false
  }

  /** Two nodes of one kind that the lemmas above compare. */
  predicate Compared(node: DagNode, image: DagNode)
  {
    (node.Bin? && image.Bin?) || (node.Cmp? && image.Cmp?) || (node.BoolAnd? && image.BoolAnd?) || (node.BoolOr? && image.BoolOr?)
  }

  /** Every other operator corresponds to itself over its operands' images, and
      a variable to a variable of its width that no earlier one took. */
  lemma PlainExact(p: Pair, zs: seq<Bv>, i: nat, image: DagNode)
    requires PairWf(p) && |zs| == |p.t| && Onto(p, i, image) && !image.Const? && !Compared(p.t[i], image)
    ensures p.t[i].Var? ==>
              (StepOk(p, zs, i) <==> image == Var(p.t[i].w) && forall k :: 0 <= k < i && p.t[k].Var? ==> p.m[k] != p.m[i])
    ensures !p.t[i].Var? ==> (StepOk(p, zs, i) <==> OverImages(p.m, p.t[i], image))
  {
  }

  // ---------- images that are constants ----------

  /** Node i's value rests on no variable, reading an ite's taken branch alone
      and a connective's deciding operand alone; zs are the values with every
      variable zero. */
  ghost predicate Settled(t: Dag, zs: seq<Bv>, i: nat)
    decreases i
  {
    i < |t| &&
    match t[i]
    case Var(_) => false
    case Const(_, _) => true
    case Bin(_, a, b) => a < i && Settled(t, zs, a) && b < i && Settled(t, zs, b)
    case BvNot(a) => a < i && Settled(t, zs, a)
    case Neg(a) => a < i && Settled(t, zs, a)
    case Extract(_, _, a) => a < i && Settled(t, zs, a)
    case Concat(a, b) => a < i && Settled(t, zs, a) && b < i && Settled(t, zs, b)
    case ZeroExt(a, _) => a < i && Settled(t, zs, a)
    case SignExt(a, _) => a < i && Settled(t, zs, a)
    case Ite(c, x, y) =>
      c < i && Settled(t, zs, c) && if Truth(At(zs, c)) then x < i && Settled(t, zs, x) else y < i && Settled(t, zs, y)
    case Cmp(_, a, b) => a < i && Settled(t, zs, a) && b < i && Settled(t, zs, b)
    case Not(a) => a < i && Settled(t, zs, a)
    case BoolAnd(a, b) =>
      || (a < i && Settled(t, zs, a) && !Truth(At(zs, a))) || (b < i && Settled(t, zs, b) && !Truth(At(zs, b)))
      || (a < i && Settled(t, zs, a) && b < i && Settled(t, zs, b))
    case BoolOr(a, b) =>
      || (a < i && Settled(t, zs, a) && Truth(At(zs, a))) || (b < i && Settled(t, zs, b) && Truth(At(zs, b)))
      || (a < i && Settled(t, zs, a) && b < i && Settled(t, zs, b))
  }

  /** The flags of the check are exactly the settled nodes. */
  lemma {:induction false} FlagsExact(t: Dag, tbits: seq<bool>, n: nat)
    requires DagWf(t, |tbits|) && n <= |t|
    ensures var zs := ZeroVals(t, tbits);
            forall i :: 0 <= i < n ==> (ConstFlags(t, CondsOf(zs), n)[i] <==> Settled(t, zs, i))
  {
    hide ZeroVals, NodeConst, Settled, DagWf;
    if n > 0 {
      FlagsExact(t, tbits, n - 1);
      ZeroWords(t, tbits);
      FlagExact(t, ZeroVals(t, tbits), ConstFlags(t, CondsOf(ZeroVals(t, tbits)), n - 1), n - 1);
    }
  }

  lemma ZeroWords(t: Dag, tbits: seq<bool>)
    requires DagWf(t, |tbits|)
    ensures forall i :: 0 <= i < |t| ==> |ZeroVals(t, tbits)[i]| > 0
  {
    ValWidths(t, tbits, EnvOf(t, Fill(false, Offset(t, |t|))), |t|);
  }

  lemma FlagExact(t: Dag, zs: seq<Bv>, cval: seq<bool>, n: nat)
    requires |zs| == |t| && n < |t| && |cval| == n && forall i :: 0 <= i < |t| ==> |zs[i]| > 0
    requires forall i :: 0 <= i < n ==> (cval[i] <==> Settled(t, zs, i))
    ensures NodeConst(cval, CondsOf(zs), t[n]) <==> Settled(t, zs, n)
  {
  }

  lemma FlagsMean(t: Dag, tbits: seq<bool>, env: Env, i: nat)
    requires DagWf(t, |tbits|) && EnvOk(t, env) && i < |t| && Settled(t, ZeroVals(t, tbits), i)
    ensures DagVal(t, tbits, env, i) == ZeroVals(t, tbits)[i]
  {
    hide DagWf, NodeConst, Settled, DagVals, DagVal;
    FlagsExact(t, tbits, |t|);
    var env0 := EnvOf(t, Fill(false, Offset(t, |t|)));
    ConstSound(t, tbits, env, env0, |t|);
    DagValAt(t, tbits, env, i, |t|);
  }

  lemma ZeroValue(t: Dag, tbits: seq<bool>, i: nat)
    requires i < |t|
    ensures var env0 := EnvOf(t, Fill(false, Offset(t, |t|)));
            EnvOk(t, env0) && DagVal(t, tbits, env0, i) == ZeroVals(t, tbits)[i]
  {
    hide DagVals, DagVal;
    DagValAt(t, tbits, EnvOf(t, Fill(false, Offset(t, |t|))), i, |t|);
  }

  /** The slice of the table is the value the node has under every assignment. */
  ghost predicate AlwaysIs(t: Dag, tbits: seq<bool>, i: nat, z: Bv)
    requires i < |t|
  {
    forall env: Env :: EnvOk(t, env) ==> DagVal(t, tbits, env, i) == z
  }

  /** EXACTLY WHICH NODES CORRESPOND TO A CONSTANT: those that rest on no
      variable and have the constant's value under every assignment. */
  lemma FoldExact(t: Dag, tbits: seq<bool>, m: seq<nat>, ns: Dag, bits: seq<bool>, i: nat, s: nat, w: nat)
    requires DagWf(t, |tbits|) && DagWf(ns, |bits|) && |m| == |t| && |ns| <= USIZE_MAX
    requires Onto(PairOf(t, tbits, m, ns, bits), i, Const(s, w))
    ensures var zs := ZeroVals(t, tbits);
            StepOk(PairOf(t, tbits, m, ns, bits), zs, i) <==> Settled(t, zs, i) && AlwaysIs(t, tbits, i, BitsAt(bits, s, w))
  {
    hide DagWf, ZeroVals, ConstFlags, Settled, NodeCorr, DagVal, AlwaysIs;
    var p, zs := PairOf(t, tbits, m, ns, bits), ZeroVals(t, tbits);
    WfThere(ns, |bits|, m[i]);
    FlagsExact(t, tbits, |t|);
    AlwaysZero(t, tbits, i, BitsAt(bits, s, w));
    ZeroWidth(t, tbits, i);
    if t[i].Const? { ConstSettled(t, tbits, zs, i); }
    if t[i].Var? { VarUnsettled(t, zs, i); }
  }

  lemma WfThere(ns: Dag, nbits: nat, i: nat)
    requires DagWf(ns, nbits) && i < |ns|
    ensures WfAt(ns, nbits, i)
  {
  }

  lemma AlwaysZero(t: Dag, tbits: seq<bool>, i: nat, z: Bv)
    requires DagWf(t, |tbits|) && i < |t|
    ensures AlwaysIs(t, tbits, i, z) ==> ZeroVals(t, tbits)[i] == z
    ensures Settled(t, ZeroVals(t, tbits), i) && ZeroVals(t, tbits)[i] == z ==> AlwaysIs(t, tbits, i, z)
  {
    hide DagWf, DagVal, ZeroVals, Settled;
    ZeroValue(t, tbits, i);
    if Settled(t, ZeroVals(t, tbits), i) {
      forall env: Env | EnvOk(t, env) ensures DagVal(t, tbits, env, i) == ZeroVals(t, tbits)[i] { FlagsMean(t, tbits, env, i); }
    }
  }

  lemma ZeroWidth(t: Dag, tbits: seq<bool>, i: nat)
    requires DagWf(t, |tbits|) && i < |t|
    ensures |ZeroVals(t, tbits)[i]| == Widths(t, |t|)[i] > 0
  {
    ValWidths(t, tbits, EnvOf(t, Fill(false, Offset(t, |t|))), |t|);
  }

  lemma ConstSettled(t: Dag, tbits: seq<bool>, zs: seq<Bv>, i: nat)
    requires DagWf(t, |tbits|) && i < |t| && t[i].Const? && zs == ZeroVals(t, tbits)
    ensures Settled(t, zs, i) && t[i].s + t[i].w <= |tbits| && zs[i] == tbits[t[i].s..t[i].s + t[i].w]
    ensures Widths(t, |t|)[i] == t[i].w
  {
    hide DagWf, DagVals;
    WfThere(t, |tbits|, i);
    WidthOf(t, i);
    DagValAt(t, tbits, EnvOf(t, Fill(false, Offset(t, |t|))), i, |t|);
  }

  lemma VarUnsettled(t: Dag, zs: seq<Bv>, i: nat)
    requires i < |t| && t[i].Var?
    ensures !Settled(t, zs, i)
  {
  }
}
