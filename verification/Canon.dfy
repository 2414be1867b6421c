/** Canonicalisation: constant subterms are folded through the evaluator,
    commutative operands are ordered, and the greater-than comparisons are
    mirrored. */
module Canon {
  import opened Wrappers
  import opened Bits
  import opened BvOps
  import opened Tree
  import TermCheck
  import TS = TermSound

  // ---------- the evaluator on closed constant terms ----------

  /** The width the evaluator computes; it does not look at an ite's
      condition, and knows no selects or calls. */
  function SortOf(t: TBv): Option<nat>
  {
    match t
    case TConst(_, w) => if WidthOk(w) then Some(w) else None
    case TVar(_, w) => if WidthOk(w) then Some(w) else None
    case TBin(_, a, b) => if SortOf(a).Some? && SortOf(a) == SortOf(b) then SortOf(a) else None
    case TExtract(hi, lo, a) => if SortOf(a).Some? && lo <= hi < SortOf(a).value then Some(hi - lo + 1) else None
    case TConcat(a, b) =>
      if SortOf(a).Some? && SortOf(b).Some? && WidthOk(SortOf(a).value + SortOf(b).value)
      then Some(SortOf(a).value + SortOf(b).value) else None
    case TZeroExt(extra, a) =>
      if SortOf(a).Some? && WidthOk(SortOf(a).value + extra) then Some(SortOf(a).value + extra) else None
    case TSignExt(extra, a) =>
      if SortOf(a).Some? && WidthOk(SortOf(a).value + extra) then Some(SortOf(a).value + extra) else None
    case TIte(_, a, b) => if SortOf(a).Some? && SortOf(a) == SortOf(b) then SortOf(a) else None
    case TNot(a) => SortOf(a)
    case TNeg(a) => SortOf(a)
    case TSelect(_, _) => None
    case TCall(_, _, _) => None
  }

  /** The value in the empty environment: an ite evaluates only the branch
      taken, the connectives stop at a deciding operand. */
  function EvalConst(t: TBv): Option<Bv>
  {
    if SortOf(t).None? then None else
    match t
    case TConst(value, w) => Some(FromInt(value, w))
    case TVar(_, _) => None
    case TBin(op, a, b) =>
      var x, y := EvalConst(a), EvalConst(b);
      if x.Some? && y.Some? then Some(BinValue(op, x.value, y.value)) else None
    case TExtract(hi, lo, a) => Mapped(EvalConst(a), x => BvExtract(x, hi, lo))
    case TConcat(a, b) =>
      var x, y := EvalConst(a), EvalConst(b);
      if x.Some? && y.Some? then Some(BvConcat(x.value, y.value)) else None
    case TZeroExt(extra, a) => Mapped(EvalConst(a), x => BvZeroExt(x, extra))
    case TSignExt(extra, a) => Mapped(EvalConst(a), x => BvSignExt(x, extra))
    case TIte(c, a, b) =>
      var cond := EvalBoolConst(c);
      if cond.None? then None else if cond.value then EvalConst(a) else EvalConst(b)
    case TNot(a) => Mapped(EvalConst(a), x => Complement(x))
    case TNeg(a) => Mapped(EvalConst(a), x => BvNeg(x))
    case TSelect(_, _) => None
    case TCall(_, _, _) => None
  }

  function EvalBoolConst(t: TBool): Option<bool>
  {
    match t
    case BCmp(op, a, b) =>
      if SortOf(a).None? || SortOf(a) != SortOf(b) then None else
      var x, y := EvalConst(a), EvalConst(b);
      if x.Some? && y.Some? then Some(CmpValue(op, x.value, y.value)) else None
    case BNot(x) => var v := EvalBoolConst(x); if v.Some? then Some(!v.value) else None
    case BAnd(x, y) => var v := EvalBoolConst(x); if v == Some(true) then EvalBoolConst(y) else v
    case BOr(x, y) => var v := EvalBoolConst(x); if v == Some(false) then EvalBoolConst(y) else v
  }

  function Mapped(v: Option<Bv>, f: Bv -> Bv): Option<Bv> { if v.Some? then Some(f(v.value)) else None }

  /** On sorted terms the evaluator computes the width and, where it answers,
      the value under every interpretation. */
  lemma {:induction false} EvalSound(t: TBv, I: Interp)
    requires Sorted(t)
    ensures SortOf(t).Some? ==> SortOf(t).value == TreeWidth(t)
    ensures EvalConst(t).Some? ==> EvalConst(t).value == TreeVal(t, I) && |TreeVal(t, I)| == TreeWidth(t)
  {
    hide TreeVal, TreeWidth, EvalConst, SortOf, Sorted;
    ValWidth(t, I);
    SortIsWidth(t);
    EvalIsValue(t, I);
  }

  lemma {:induction false} SortIsWidth(t: TBv)
    requires Sorted(t)
    ensures SortOf(t).Some? ==> SortOf(t).value == TreeWidth(t)
  {
    match t {
      case TConst(_, _) =>
      case TVar(_, _) =>
      case TBin(_, a, b) => SortIsWidth(a);
      case TExtract(_, _, a) =>
      case TConcat(a, b) => SortIsWidth(a); SortIsWidth(b);
      case TZeroExt(_, a) => SortIsWidth(a);
      case TSignExt(_, a) => SortIsWidth(a);
      case TIte(_, a, b) => SortIsWidth(a);
      case TNot(a) => SortIsWidth(a);
      case TNeg(a) => SortIsWidth(a);
      case TSelect(_, _) =>
      case TCall(_, _, _) =>
    }
  }

  lemma {:induction false} EvalIsValue(t: TBv, I: Interp)
    requires Sorted(t)
    ensures EvalConst(t).Some? ==> EvalConst(t).value == TreeVal(t, I)
  {
    hide BinValue, CmpValue, FromInt, BvNeg, Complement, BvExtract, BvConcat, BvZeroExt, BvSignExt, EvalBoolConst, BoolVal;
    hide VarNamed, ReadAt, FunNamed, TreeWidth;
    match t {
      case TConst(_, _) =>
      case TVar(_, _) =>
      case TBin(_, a, b) => EvalIsValue(a, I); EvalIsValue(b, I);
      case TExtract(_, _, a) => EvalIsValue(a, I);
      case TConcat(a, b) => EvalIsValue(a, I); EvalIsValue(b, I);
      case TZeroExt(_, a) => EvalIsValue(a, I);
      case TSignExt(_, a) => EvalIsValue(a, I);
      case TIte(c, a, b) => EvalBoolSound(c, I); EvalIsValue(a, I); EvalIsValue(b, I);
      case TNot(a) => EvalIsValue(a, I);
      case TNeg(a) => EvalIsValue(a, I);
      case TSelect(_, _) =>
      case TCall(_, _, _) =>
    }
  }

  lemma {:induction false} EvalBoolSound(t: TBool, I: Interp)
    requires SortedBool(t)
    ensures EvalBoolConst(t).Some? ==> EvalBoolConst(t).value == BoolVal(t, I)
  {
    hide BinValue, CmpValue;
    match t {
      case BCmp(_, a, b) => EvalIsValue(a, I); EvalIsValue(b, I);
      case BNot(x) => EvalBoolSound(x, I);
      case BAnd(x, y) => EvalBoolSound(x, I); EvalBoolSound(y, I);
      case BOr(x, y) => EvalBoolSound(x, I); EvalBoolSound(y, I);
    }
  }

  // ---------- canonical terms ----------

  /** Any strict total order on terms. */
  ghost predicate TotalOrder(gt: (TBv, TBv) -> bool)
  {
    && (forall a, b :: !(gt(a, b) && gt(b, a)))
    && (forall a, b :: !gt(a, b) && !gt(b, a) ==> a == b)
  }

  /** An all-constant term becomes its value. */
  function Fold(t: TBv): TBv
  {
    if t.TConst? then t else
    var v, w := EvalConst(t), SortOf(t);
    if v.Some? && w.Some? then TConst(ToNat(v.value), w.value) else t
  }

  /** The operands in order. */
  function Ordered(gt: (TBv, TBv) -> bool, a: TBv, b: TBv): (TBv, TBv) { if gt(a, b) then (b, a) else (a, b) }

  /** The node over canonical children, before folding. */
  function CanonNode(gt: (TBv, TBv) -> bool, t: TBv): TBv
    decreases t, 0
  {
    match t
    case TConst(_, _) => t
    case TVar(_, _) => t
    case TBin(op, a, b) =>
      var x, y := CanonBv(gt, a), CanonBv(gt, b);
      if TermCheck.Commutes(op) then var (p, q) := Ordered(gt, x, y); TBin(op, p, q) else TBin(op, x, y)
    case TExtract(hi, lo, a) => TExtract(hi, lo, CanonBv(gt, a))
    case TConcat(a, b) => TConcat(CanonBv(gt, a), CanonBv(gt, b))
    case TZeroExt(extra, a) => TZeroExt(extra, CanonBv(gt, a))
    case TSignExt(extra, a) => TSignExt(extra, CanonBv(gt, a))
    case TIte(c, a, b) => TIte(CanonBool(gt, c), CanonBv(gt, a), CanonBv(gt, b))
    case TNot(a) => TNot(CanonBv(gt, a))
    case TNeg(a) => TNeg(CanonBv(gt, a))
    case TSelect(_, _) => t
    case TCall(_, _, _) => t
  }

  /** Children first, commutative operands in order, then the fold. */
  function CanonBv(gt: (TBv, TBv) -> bool, t: TBv): TBv
    decreases t, 1
  {
    Fold(CanonNode(gt, t))
  }

  function CanonBool(gt: (TBv, TBv) -> bool, t: TBool): TBool
    decreases t, 1
  {
    match t
    case BCmp(op, a, b) =>
      var x, y := CanonBv(gt, a), CanonBv(gt, b);
      if op.Eq? || op.Ne? then var (p, q) := Ordered(gt, x, y); BCmp(op, p, q)
      else if op.Ugt? || op.Uge? || op.Sgt? || op.Sge? then BCmp(TermCheck.MirrorOp(op), y, x)
      else BCmp(op, x, y)
    case BNot(x) => BNot(CanonBool(gt, x))
    case BAnd(x, y) => BAnd(CanonBool(gt, x), CanonBool(gt, y))
    case BOr(x, y) => BOr(CanonBool(gt, x), CanonBool(gt, y))
  }

  function CanonAll(gt: (TBv, TBv) -> bool, ts: seq<TBool>): (cs: seq<TBool>)
    ensures |cs| == |ts| && forall k :: 0 <= k < |ts| ==> cs[k] == CanonBool(gt, ts[k])
  {
    seq(|ts|, k requires 0 <= k < |ts| => CanonBool(gt, ts[k]))
  }

  // ---------- values are kept ----------

  lemma {:induction false} ValWidth(t: TBv, I: Interp)
    requires Sorted(t)
    ensures |TreeVal(t, I)| == TreeWidth(t)
  {
    hide BinValue, FromInt, BvNeg, Complement, BvExtract, VarNamed, FunNamed, ReadAt, Fill;
    match t {
      case TConst(_, _) =>
      case TVar(_, _) =>
      case TBin(_, a, _) => ValWidth(a, I);
      case TConcat(a, b) => ValWidth(a, I); ValWidth(b, I);
      case TIte(_, a, b) => ValWidth(a, I); ValWidth(b, I);
      case TNot(a) => ValWidth(a, I);
      case TNeg(a) => ValWidth(a, I);
      case TExtract(_, _, a) =>
        ValWidth(a, I);
        BitsWidth(t, I);
      case TZeroExt(_, a) =>
        ValWidth(a, I);
        BitsWidth(t, I);
      case TSignExt(_, a) =>
        ValWidth(a, I);
        BitsWidth(t, I);
      case TSelect(arr, index) => ReadWidth(arr, I, TreeVal(index, I));
      case TCall(_, _, _) =>
    }
  }

  lemma BitsWidth(t: TBv, I: Interp)
    requires Sorted(t) && (t.TExtract? || t.TZeroExt? || t.TSignExt?) && |TreeVal(t.a, I)| == TreeWidth(t.a)
    ensures |TreeVal(t, I)| == TreeWidth(t)
  {
  }

  lemma {:induction false} ReadWidth(a: TArray, I: Interp, v: Bv)
    requires SortedArray(a)
    ensures |ReadAt(a, I, v)| == 8
  {
    if a.TStore? {
      ValWidth(a.value, I);
      ReadWidth(a.arr, I, v);
    }
  }

  /** Same sort and same value. */
  ghost predicate Alike(c: TBv, t: TBv, I: Interp)
  {
    Sorted(c) && TreeWidth(c) == TreeWidth(t) && TreeVal(c, I) == TreeVal(t, I)
  }

  lemma FoldAlike(t: TBv, I: Interp)
    requires Sorted(t)
    ensures Alike(Fold(t), t, I)
  {
    hide EvalConst, SortOf;
    SortedWidth(t);
    EvalSound(t, I);
    if Fold(t) != t { FromIntToNat(EvalConst(t).value); }
  }

  /** An operator over alike operands; in either order when it commutes. */
  lemma OperandsAlike(op: BinOp, x: TBv, y: TBv, a: TBv, b: TBv, I: Interp)
    requires Sorted(TBin(op, a, b)) && Alike(x, a, I) && Alike(y, b, I)
    ensures Alike(TBin(op, x, y), TBin(op, a, b), I)
    ensures TermCheck.Commutes(op) ==> Alike(TBin(op, y, x), TBin(op, a, b), I)
  {
    hide Alike;
    InOrderAlike(op, x, y, a, b, I);
    if TermCheck.Commutes(op) {
      InOrderAlike(op, y, x, b, a, I);
      SwapAlike(op, a, b, I);
      AlikeTrans(TBin(op, y, x), TBin(op, b, a), TBin(op, a, b), I);
    }
  }

  lemma InOrderAlike(op: BinOp, x: TBv, y: TBv, a: TBv, b: TBv, I: Interp)
    requires Sorted(TBin(op, a, b)) && Alike(x, a, I) && Alike(y, b, I)
    ensures Alike(TBin(op, x, y), TBin(op, a, b), I)
  {
    hide BinValue;
  }

  lemma SwapAlike(op: BinOp, a: TBv, b: TBv, I: Interp)
    requires Sorted(TBin(op, a, b)) && TermCheck.Commutes(op)
    ensures Sorted(TBin(op, b, a)) && Alike(TBin(op, b, a), TBin(op, a, b), I)
  {
    hide BinValue;
    ValWidth(a, I);
    ValWidth(b, I);
    TS.SwapValue(op, TreeVal(a, I), TreeVal(b, I));
  }

  lemma AlikeTrans(x: TBv, y: TBv, z: TBv, I: Interp)
    requires Alike(x, y, I) && Alike(y, z, I)
    ensures Alike(x, z, I)
  {
  }

  /** CANONICALISATION KEEPS THE VALUE of every sorted term. */
  lemma {:induction false} CanonAlike(gt: (TBv, TBv) -> bool, t: TBv, I: Interp)
    requires Sorted(t)
    ensures Alike(CanonBv(gt, t), t, I)
    decreases t, 1
  {
    CanonNodeAlike(gt, t, I);
    FoldAlike(CanonNode(gt, t), I);
  }

  lemma {:induction false} CanonNodeAlike(gt: (TBv, TBv) -> bool, t: TBv, I: Interp)
    requires Sorted(t)
    ensures Alike(CanonNode(gt, t), t, I)
    decreases t, 0
  {
    hide BinValue, CmpValue, Fold, CanonBv, CanonBool, TreeVal, BoolVal, TreeWidth;
    match t {
      case TConst(_, _) =>
      case TVar(_, _) =>
      case TBin(op, a, b) =>
        CanonAlike(gt, a, I);
        CanonAlike(gt, b, I);
        OperandsAlike(op, CanonBv(gt, a), CanonBv(gt, b), a, b, I);
      case TConcat(a, b) =>
        CanonAlike(gt, a, I);
        CanonAlike(gt, b, I);
        ConcatAlike(gt, t, I);
      case TIte(c, a, b) =>
        CanonBoolAlike(gt, c, I);
        CanonAlike(gt, a, I);
        CanonAlike(gt, b, I);
        IteAlike(gt, t, I);
      case TSelect(_, _) =>
      case TCall(_, _, _) =>
      case _ =>
        CanonAlike(gt, t.a, I);
        UnaryAlike(gt, t, I);
    }
  }

  lemma ConcatAlike(gt: (TBv, TBv) -> bool, t: TBv, I: Interp)
    requires Sorted(t) && t.TConcat? && Alike(CanonBv(gt, t.a), t.a, I) && Alike(CanonBv(gt, t.b), t.b, I)
    ensures Alike(CanonNode(gt, t), t, I)
  {
    hide CanonBv;
  }

  lemma IteAlike(gt: (TBv, TBv) -> bool, t: TBv, I: Interp)
    requires Sorted(t) && t.TIte? && Alike(CanonBv(gt, t.a), t.a, I) && Alike(CanonBv(gt, t.b), t.b, I)
    requires SortedBool(CanonBool(gt, t.c)) && BoolVal(CanonBool(gt, t.c), I) == BoolVal(t.c, I)
    ensures Alike(CanonNode(gt, t), t, I)
  {
    hide CanonBv, CanonBool;
  }

  lemma UnaryAlike(gt: (TBv, TBv) -> bool, t: TBv, I: Interp)
    requires Sorted(t) && (t.TExtract? || t.TZeroExt? || t.TSignExt? || t.TNot? || t.TNeg?)
    requires Alike(CanonBv(gt, t.a), t.a, I)
    ensures Alike(CanonNode(gt, t), t, I)
  {
    hide BvNeg, Complement, CanonBv;
  }

  lemma {:induction false} CanonBoolAlike(gt: (TBv, TBv) -> bool, t: TBool, I: Interp)
    requires SortedBool(t)
    ensures SortedBool(CanonBool(gt, t)) && BoolVal(CanonBool(gt, t), I) == BoolVal(t, I)
    decreases t, 1
  {
    hide Fold, CanonBv;
    match t {
      case BCmp(_, a, b) => CanonAlike(gt, a, I); CanonAlike(gt, b, I);
      case BNot(x) => CanonBoolAlike(gt, x, I);
      case BAnd(x, y) => CanonBoolAlike(gt, x, I); CanonBoolAlike(gt, y, I);
      case BOr(x, y) => CanonBoolAlike(gt, x, I); CanonBoolAlike(gt, y, I);
    }
  }

  /** Hence the canonical query holds under the same interpretations, and is
      satisfiable exactly when the query is. */
  lemma CanonSat(gt: (TBv, TBv) -> bool, ts: seq<TBool>)
    requires forall k :: 0 <= k < |ts| ==> SortedBool(ts[k])
    ensures forall I: Interp :: Holds(CanonAll(gt, ts), I) <==> Holds(ts, I)
    ensures TreeSat(CanonAll(gt, ts)) <==> TreeSat(ts)
  {
    hide CanonBool, SortedBool, BoolVal;
    forall I: Interp ensures Holds(CanonAll(gt, ts), I) <==> Holds(ts, I) {
      forall k | 0 <= k < |ts| ensures BoolVal(CanonAll(gt, ts)[k], I) == BoolVal(ts[k], I) {
        CanonBoolAlike(gt, ts[k], I);
      }
    }
  }

  // ---------- one form ----------

  /** CANONICALISATION IS IDEMPOTENT, on sorted and ill-sorted terms alike. */
  lemma {:induction false} CanonIdempotent(gt: (TBv, TBv) -> bool, t: TBv)
    requires TotalOrder(gt)
    ensures CanonBv(gt, CanonBv(gt, t)) == CanonBv(gt, t)
    decreases t, 1
  {
    hide CanonNode, Fold, TotalOrder;
    NodeIdempotent(gt, t);
    FoldStays(gt, CanonNode(gt, t));
  }

  /** A node that is its own form folds to its own form. */
  lemma FoldStays(gt: (TBv, TBv) -> bool, t: TBv)
    requires CanonNode(gt, t) == t
    ensures CanonBv(gt, Fold(t)) == Fold(t)
  {
    hide EvalConst, SortOf;
  }

  lemma {:induction false} NodeIdempotent(gt: (TBv, TBv) -> bool, t: TBv)
    requires TotalOrder(gt)
    ensures CanonNode(gt, CanonNode(gt, t)) == CanonNode(gt, t)
    decreases t, 0
  {
    hide CanonBv;
    match t {
      case TConst(_, _) =>
      case TVar(_, _) =>
      case TBin(_, a, b) => CanonIdempotent(gt, a); CanonIdempotent(gt, b);
      case TExtract(_, _, a) => CanonIdempotent(gt, a);
      case TConcat(a, b) => CanonIdempotent(gt, a); CanonIdempotent(gt, b);
      case TZeroExt(_, a) => CanonIdempotent(gt, a);
      case TSignExt(_, a) => CanonIdempotent(gt, a);
      case TIte(c, a, b) => CanonBoolIdempotent(gt, c); CanonIdempotent(gt, a); CanonIdempotent(gt, b);
      case TNot(a) => CanonIdempotent(gt, a);
      case TNeg(a) => CanonIdempotent(gt, a);
      case TSelect(_, _) =>
      case TCall(_, _, _) =>
    }
  }

  lemma {:induction false} CanonBoolIdempotent(gt: (TBv, TBv) -> bool, t: TBool)
    requires TotalOrder(gt)
    ensures CanonBool(gt, CanonBool(gt, t)) == CanonBool(gt, t)
    decreases t, 1
  {
    hide EvalConst, SortOf, Fold;
    match t {
      case BCmp(_, a, b) => CanonIdempotent(gt, a); CanonIdempotent(gt, b);
      case BNot(x) => CanonBoolIdempotent(gt, x);
      case BAnd(x, y) => CanonBoolIdempotent(gt, x); CanonBoolIdempotent(gt, y);
      case BOr(x, y) => CanonBoolIdempotent(gt, x); CanonBoolIdempotent(gt, y);
    }
  }

  /** Commuted operands have one canonical form. */
  lemma CommutedAlike(gt: (TBv, TBv) -> bool, op: BinOp, a: TBv, b: TBv)
    requires TotalOrder(gt) && TermCheck.Commutes(op)
    ensures CanonBv(gt, TBin(op, a, b)) == CanonBv(gt, TBin(op, b, a))
  {
    hide Fold;
    assert CanonNode(gt, TBin(op, a, b)) == CanonNode(gt, TBin(op, b, a));
  }

  /** So have commuted equalities and mirrored comparisons. */
  lemma MirroredAlike(gt: (TBv, TBv) -> bool, op: CmpOp, a: TBv, b: TBv)
    requires TotalOrder(gt)
    ensures CanonBool(gt, BCmp(op, a, b)) == CanonBool(gt, BCmp(TermCheck.MirrorOp(op), b, a))
  {
    hide Fold, CanonNode;
    var x, y := CanonBv(gt, a), CanonBv(gt, b);
    assert gt(x, y) || gt(y, x) || x == y;
  }
}
