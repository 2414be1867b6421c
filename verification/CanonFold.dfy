/** Exactly which terms canonicalisation folds to a constant, and to which. */
module CanonFold {
  import opened Wrappers
  import opened Bits
  import opened BvOps
  import opened Tree
  import opened Canon

  /** No variables: the empty interpretation. */
  ghost const NOTHING: Interp := Interp(imap[], imap[], imap[])

  /** The value of t depends on no variable, reading an ite's taken branch
      alone and a connective's first operand first. */
  ghost predicate Ground(t: TBv)
  {
    match t
    case TConst(_, _) => true
    case TVar(_, _) => false
    case TBin(_, a, b) => Ground(a) && Ground(b)
    case TExtract(_, _, a) => Ground(a)
    case TConcat(a, b) => Ground(a) && Ground(b)
    case TZeroExt(_, a) => Ground(a)
    case TSignExt(_, a) => Ground(a)
    case TIte(c, a, b) => GroundBool(c) && if BoolVal(c, NOTHING) then Ground(a) else Ground(b)
    case TNot(a) => Ground(a)
    case TNeg(a) => Ground(a)
    case TSelect(_, _) => false
    case TCall(_, _, _) => false
  }

  ghost predicate GroundBool(t: TBool)
  {
    match t
    case BCmp(_, a, b) => Ground(a) && Ground(b)
    case BNot(x) => GroundBool(x)
    case BAnd(x, y) => GroundBool(x) && (BoolVal(x, NOTHING) ==> GroundBool(y))
    case BOr(x, y) => GroundBool(x) && (!BoolVal(x, NOTHING) ==> GroundBool(y))
  }

  /** No variable occurs. */
  predicate Variableless(t: TBv)
  {
    match t
    case TConst(_, _) => true
    case TVar(_, _) => false
    case TBin(_, a, b) => Variableless(a) && Variableless(b)
    case TExtract(_, _, a) => Variableless(a)
    case TConcat(a, b) => Variableless(a) && Variableless(b)
    case TZeroExt(_, a) => Variableless(a)
    case TSignExt(_, a) => Variableless(a)
    case TIte(c, a, b) => VariablelessBool(c) && Variableless(a) && Variableless(b)
    case TNot(a) => Variableless(a)
    case TNeg(a) => Variableless(a)
    case TSelect(_, _) => false
    case TCall(_, _, _) => false
  }

  predicate VariablelessBool(t: TBool)
  {
    match t
    case BCmp(_, a, b) => Variableless(a) && Variableless(b)
    case BNot(x) => VariablelessBool(x)
    case BAnd(x, y) => VariablelessBool(x) && VariablelessBool(y)
    case BOr(x, y) => VariablelessBool(x) && VariablelessBool(y)
  }

  lemma {:induction false} VariablelessGround(t: TBv)
    requires Variableless(t)
    ensures Ground(t) && Closed(t)
  {
    match t {
      case TConst(_, _) =>
      case TBin(_, a, b) => VariablelessGround(a); VariablelessGround(b);
      case TExtract(_, _, a) => VariablelessGround(a);
      case TConcat(a, b) => VariablelessGround(a); VariablelessGround(b);
      case TZeroExt(_, a) => VariablelessGround(a);
      case TSignExt(_, a) => VariablelessGround(a);
      case TIte(c, a, b) => VariablelessGroundBool(c); VariablelessGround(a); VariablelessGround(b);
      case TNot(a) => VariablelessGround(a);
      case TNeg(a) => VariablelessGround(a);
    }
  }

  lemma {:induction false} VariablelessGroundBool(t: TBool)
    requires VariablelessBool(t)
    ensures GroundBool(t) && ClosedBool(t)
  {
    match t {
      case BCmp(_, a, b) => VariablelessGround(a); VariablelessGround(b);
      case BNot(x) => VariablelessGroundBool(x);
      case BAnd(x, y) => VariablelessGroundBool(x); VariablelessGroundBool(y);
      case BOr(x, y) => VariablelessGroundBool(x); VariablelessGroundBool(y);
    }
  }

  // ---------- the evaluator answers exactly on ground terms ----------

  lemma {:induction false} SortKnown(t: TBv)
    requires Sorted(t) && Closed(t)
    ensures SortOf(t) == Some(TreeWidth(t))
  {
    match t {
      case TConst(_, _) =>
      case TVar(_, _) =>
      case TBin(_, a, b) => SortKnown(a); SortKnown(b);
      case TExtract(_, _, a) => SortKnown(a);
      case TConcat(a, b) => SortKnown(a); SortKnown(b);
      case TZeroExt(_, a) => SortKnown(a);
      case TSignExt(_, a) => SortKnown(a);
      case TIte(_, a, b) => SortKnown(a); SortKnown(b);
      case TNot(a) => SortKnown(a);
      case TNeg(a) => SortKnown(a);
    }
  }

  lemma {:induction false} EvalGround(t: TBv)
    requires Sorted(t) && Closed(t)
    ensures EvalConst(t).Some? <==> Ground(t)
  {
    hide BinValue, FromInt, BvNeg, Complement, BvExtract, BvConcat, BvZeroExt, BvSignExt, TreeWidth, BoolVal, SortOf;
    SortKnown(t);
    match t {
      case TConst(_, _) =>
      case TVar(_, _) =>
      case TBin(_, a, b) => EvalGround(a); EvalGround(b);
      case TExtract(_, _, a) => EvalGround(a);
      case TConcat(a, b) => EvalGround(a); EvalGround(b);
      case TZeroExt(_, a) => EvalGround(a);
      case TSignExt(_, a) => EvalGround(a);
      case TIte(c, a, b) =>
        EvalGroundBool(c);
        EvalBoolSound(c, NOTHING);
        EvalGround(a);
        EvalGround(b);
      case TNot(a) => EvalGround(a);
      case TNeg(a) => EvalGround(a);
    }
  }

  lemma {:induction false} EvalGroundBool(t: TBool)
    requires SortedBool(t) && ClosedBool(t)
    ensures EvalBoolConst(t).Some? <==> GroundBool(t)
  {
    hide CmpValue, TreeWidth, SortOf;
    match t {
      case BCmp(_, a, b) =>
        SortKnown(a);
        SortKnown(b);
        EvalGround(a);
        EvalGround(b);
      case BNot(x) => EvalGroundBool(x);
      case BAnd(x, y) =>
        EvalGroundBool(x);
        EvalBoolSound(x, NOTHING);
        EvalGroundBool(y);
      case BOr(x, y) =>
        EvalGroundBool(x);
        EvalBoolSound(x, NOTHING);
        EvalGroundBool(y);
    }
  }

  // ---------- canonical forms are ground together ----------

  lemma FoldGround(t: TBv)
    requires Sorted(t) && Closed(t)
    ensures Fold(t).TConst? <==> t.TConst? || Ground(t)
    ensures (Ground(Fold(t)) <==> Ground(t)) && Closed(Fold(t))
    ensures !Fold(t).TConst? ==> Fold(t) == t
  {
    hide EvalConst, SortOf, TreeWidth, Sorted;
    EvalGround(t);
    SortKnown(t);
  }

  lemma {:induction false} CanonGround(gt: (TBv, TBv) -> bool, t: TBv)
    requires Sorted(t) && Closed(t)
    ensures (Ground(CanonBv(gt, t)) <==> Ground(t)) && Closed(CanonBv(gt, t))
    ensures CanonBv(gt, t).TConst? <==> Ground(t)
    decreases t, 1
  {
    hide Fold, CanonNode, Alike, Sorted, Ground;
    NodeGround(gt, t);
    CanonNodeAlike(gt, t, NOTHING);
    AlikeSorted(CanonNode(gt, t), t, NOTHING);
    FoldGround(CanonNode(gt, t));
    if CanonNode(gt, t).TConst? { ConstGround(CanonNode(gt, t)); }
  }

  lemma AlikeSorted(c: TBv, t: TBv, I: Interp)
    requires Alike(c, t, I)
    ensures Sorted(c)
  {
  }

  lemma ConstGround(t: TBv)
    requires t.TConst?
    ensures Ground(t)
  {
  }

  lemma {:induction false} NodeGround(gt: (TBv, TBv) -> bool, t: TBv)
    requires Sorted(t) && Closed(t)
    ensures (Ground(CanonNode(gt, t)) <==> Ground(t)) && Closed(CanonNode(gt, t))
    decreases t, 0
  {
    hide CanonBv, CanonBool, BoolVal, TreeWidth;
    match t {
      case TConst(_, _) =>
      case TVar(_, _) =>
      case TBin(_, a, b) => CanonGround(gt, a); CanonGround(gt, b);
      case TExtract(_, _, a) => CanonGround(gt, a);
      case TConcat(a, b) => CanonGround(gt, a); CanonGround(gt, b);
      case TZeroExt(_, a) => CanonGround(gt, a);
      case TSignExt(_, a) => CanonGround(gt, a);
      case TIte(c, a, b) =>
        CanonBoolGround(gt, c);
        CanonBoolAlike(gt, c, NOTHING);
        CanonGround(gt, a);
        CanonGround(gt, b);
      case TNot(a) => CanonGround(gt, a);
      case TNeg(a) => CanonGround(gt, a);
    }
  }

  lemma {:induction false} CanonBoolGround(gt: (TBv, TBv) -> bool, t: TBool)
    requires SortedBool(t) && ClosedBool(t)
    ensures (GroundBool(CanonBool(gt, t)) <==> GroundBool(t)) && ClosedBool(CanonBool(gt, t))
    decreases t, 1
  {
    hide CanonBv, BoolVal, TreeWidth;
    match t {
      case BCmp(_, a, b) => CanonGround(gt, a); CanonGround(gt, b);
      case BNot(x) => CanonBoolGround(gt, x);
      case BAnd(x, y) =>
        CanonBoolGround(gt, x);
        CanonBoolAlike(gt, x, NOTHING);
        CanonBoolGround(gt, y);
      case BOr(x, y) =>
        CanonBoolGround(gt, x);
        CanonBoolAlike(gt, x, NOTHING);
        CanonBoolGround(gt, y);
    }
  }

  // ---------- the theorem ----------

  /** EXACTLY WHAT FOLDS: a sorted closed term becomes a constant if and only
      if its value depends on no variable; it is then its value under every
      interpretation, at its width.  A constant itself is left as written, so
      one written with more bits than its width has them still. */
  lemma FoldsExactly(gt: (TBv, TBv) -> bool, t: TBv, I: Interp)
    requires Sorted(t) && Closed(t)
    ensures CanonBv(gt, t).TConst? <==> Ground(t)
    ensures t.TConst? ==> CanonBv(gt, t) == t
    ensures Ground(t) && !t.TConst? ==> CanonBv(gt, t) == TConst(ToNat(TreeVal(t, I)), TreeWidth(t))
  {
    hide CanonNode, Ground, TreeVal, TreeWidth, Alike, Sorted, ToNat, EvalConst, SortOf;
    CanonGround(gt, t);
    if t.TConst? {
      ConstStays(gt, t);
    } else if Ground(t) {
      var u := CanonNode(gt, t);
      NodeNotConst(gt, t);
      NodeGround(gt, t);
      CanonNodeAlike(gt, t, I);
      AlikeSorted(u, t, I);
      AlikeValue(u, t, I);
      EvalGround(u);
      EvalIsValue(u, I);
      SortKnown(u);
    }
  }

  lemma ConstStays(gt: (TBv, TBv) -> bool, t: TBv)
    requires t.TConst?
    ensures CanonBv(gt, t) == t
  {
  }

  lemma NodeNotConst(gt: (TBv, TBv) -> bool, t: TBv)
    requires !t.TConst?
    ensures !CanonNode(gt, t).TConst?
  {
    hide CanonBv, CanonBool;
  }

  lemma AlikeValue(c: TBv, t: TBv, I: Interp)
    requires Alike(c, t, I)
    ensures TreeWidth(c) == TreeWidth(t) && TreeVal(c, I) == TreeVal(t, I)
  {
  }

  /** So every sorted term without variables folds, and an ite folds on a
      condition without variables when its taken branch has none. */
  lemma VariablelessFolds(gt: (TBv, TBv) -> bool, t: TBv, I: Interp)
    requires Sorted(t) && !t.TConst?
    ensures Variableless(t) ==> CanonBv(gt, t) == TConst(ToNat(TreeVal(t, I)), TreeWidth(t))
    ensures t.TIte? && VariablelessBool(t.c) && Closed(t) &&
            Variableless(if BoolVal(t.c, I) then t.a else t.b) ==>
              CanonBv(gt, t) == TConst(ToNat(TreeVal(t, I)), TreeWidth(t))
  {
    hide CanonBv, TreeVal, TreeWidth, ToNat, BoolVal;
    if Variableless(t) {
      VariablelessGround(t);
      FoldsExactly(gt, t, I);
    }
    if t.TIte? && VariablelessBool(t.c) && Closed(t) && Variableless(if BoolVal(t.c, I) then t.a else t.b) {
      VariablelessGroundBool(t.c);
      SameTruth(t.c, I);
      VariablelessGround(if BoolVal(t.c, I) then t.a else t.b);
      FoldsExactly(gt, t, I);
    }
  }

  lemma SameTruth(t: TBool, I: Interp)
    requires SortedBool(t) && VariablelessBool(t)
    ensures BoolVal(t, I) == BoolVal(t, NOTHING)
  {
    hide EvalBoolConst, BoolVal, SortedBool;
    VariablelessGroundBool(t);
    EvalGroundBool(t);
    EvalBoolSound(t, I);
    EvalBoolSound(t, NOTHING);
  }
}
