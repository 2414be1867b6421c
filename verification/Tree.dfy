/** The query as its author built it: trees over named variables, arrays and
    functions, their sorts, and their meaning under an interpretation of the
    names. */
module Tree {
  import opened Bits
  import opened BvOps

  /** A byte string. */
  type Name = string

  /** A bitvector tree; the width-preserving binary operators carry their
      operator. */
  datatype TBv =
    | TConst(value: nat, w: nat)
    | TVar(name: Name, w: nat)
    | TBin(op: BinOp, a: TBv, b: TBv)
    | TExtract(hi: nat, lo: nat, a: TBv)
    | TConcat(a: TBv, b: TBv)
    | TZeroExt(extra: nat, a: TBv)
    | TSignExt(extra: nat, a: TBv)
    | TIte(c: TBool, a: TBv, b: TBv)
    | TNot(a: TBv)
    | TNeg(a: TBv)
    | TSelect(arr: TArray, index: TBv)
    | TCall(name: Name, w: nat, args: TArgs)

  datatype TArray = TBase(name: Name) | TStore(arr: TArray, index: TBv, value: TBv)

  datatype TArgs = TNil | TCons(head: TBv, tail: TArgs)

  datatype TBool =
    | BCmp(cmp: CmpOp, a: TBv, b: TBv)
    | BNot(x: TBool)
    | BAnd(x: TBool, y: TBool)
    | BOr(x: TBool, y: TBool)

  // ---------- size ----------

  function Size(t: TBv): (n: nat)
    ensures n >= 1
  {
    match t
    case TConst(_, _) => 1
    case TVar(_, _) => 1
    case TBin(_, a, b) => 1 + Size(a) + Size(b)
    case TExtract(_, _, a) => 1 + Size(a)
    case TConcat(a, b) => 1 + Size(a) + Size(b)
    case TZeroExt(_, a) => 1 + Size(a)
    case TSignExt(_, a) => 1 + Size(a)
    case TIte(c, a, b) => 1 + BoolSize(c) + Size(a) + Size(b)
    case TNot(a) => 1 + Size(a)
    case TNeg(a) => 1 + Size(a)
    case TSelect(arr, index) => 1 + ArraySize(arr) + Size(index)
    case TCall(_, _, args) => 1 + ArgsSize(args)
  }

  function ArraySize(a: TArray): nat
  {
    match a
    case TBase(_) => 0
    case TStore(arr, index, value) => 1 + ArraySize(arr) + Size(index) + Size(value)
  }

  function ArgsSize(args: TArgs): nat
  {
    match args
    case TNil => 0
    case TCons(head, tail) => 1 + Size(head) + ArgsSize(tail)
  }

  function BoolSize(t: TBool): (n: nat)
    ensures n >= 1
  {
    match t
    case BCmp(_, a, b) => 1 + Size(a) + Size(b)
    case BNot(x) => 1 + BoolSize(x)
    case BAnd(x, y) => 1 + BoolSize(x) + BoolSize(y)
    case BOr(x, y) => 1 + BoolSize(x) + BoolSize(y)
  }

  // ---------- sorts ----------

  const MAX_WIDTH: nat := 128

  predicate WidthOk(w: nat) { 1 <= w <= MAX_WIDTH }

  function TreeWidth(t: TBv): nat
  {
    match t
    case TConst(_, w) => w
    case TVar(_, w) => w
    case TBin(_, a, _) => TreeWidth(a)
    case TExtract(hi, lo, _) => if lo <= hi then hi - lo + 1 else 0
    case TConcat(a, b) => TreeWidth(a) + TreeWidth(b)
    case TZeroExt(extra, a) => TreeWidth(a) + extra
    case TSignExt(extra, a) => TreeWidth(a) + extra
    case TIte(_, a, _) => TreeWidth(a)
    case TNot(a) => TreeWidth(a)
    case TNeg(a) => TreeWidth(a)
    case TSelect(_, _) => 8
    case TCall(_, w, _) => w
  }

  /** Every width is 1 to 128, operands agree, indices are 32 bits wide and
      stored values 8. */
  predicate Sorted(t: TBv)
  {
    match t
    case TConst(_, w) => WidthOk(w)
    case TVar(_, w) => WidthOk(w)
    case TBin(_, a, b) => Sorted(a) && Sorted(b) && TreeWidth(a) == TreeWidth(b)
    case TExtract(hi, lo, a) => Sorted(a) && lo <= hi < TreeWidth(a)
    case TConcat(a, b) => Sorted(a) && Sorted(b) && WidthOk(TreeWidth(a) + TreeWidth(b))
    case TZeroExt(extra, a) => Sorted(a) && WidthOk(TreeWidth(a) + extra)
    case TSignExt(extra, a) => Sorted(a) && WidthOk(TreeWidth(a) + extra)
    case TIte(c, a, b) => SortedBool(c) && Sorted(a) && Sorted(b) && TreeWidth(a) == TreeWidth(b)
    case TNot(a) => Sorted(a)
    case TNeg(a) => Sorted(a)
    case TSelect(arr, index) => SortedArray(arr) && Sorted(index) && TreeWidth(index) == 32
    case TCall(_, w, args) => WidthOk(w) && SortedArgs(args)
  }

  predicate SortedArray(a: TArray)
  {
    match a
    case TBase(_) => true
    case TStore(arr, index, value) =>
      SortedArray(arr) && Sorted(index) && TreeWidth(index) == 32 && Sorted(value) && TreeWidth(value) == 8
  }

  predicate SortedArgs(args: TArgs)
  {
    match args
    case TNil => true
    case TCons(head, tail) => Sorted(head) && SortedArgs(tail)
  }

  predicate SortedBool(t: TBool)
  {
    match t
    case BCmp(_, a, b) => Sorted(a) && Sorted(b) && TreeWidth(a) == TreeWidth(b)
    case BNot(x) => SortedBool(x)
    case BAnd(x, y) => SortedBool(x) && SortedBool(y)
    case BOr(x, y) => SortedBool(x) && SortedBool(y)
  }

  lemma {:induction false} SortedWidth(t: TBv)
    requires Sorted(t)
    ensures WidthOk(TreeWidth(t))
  {
    match t {
      case TBin(_, a, _) => SortedWidth(a);
      case TExtract(_, _, a) => SortedWidth(a);
      case TIte(_, a, _) => SortedWidth(a);
      case TNot(a) => SortedWidth(a);
      case TNeg(a) => SortedWidth(a);
      case _ =>
    }
  }

  // ---------- the names used ----------

  /** The widths names are used at: of variables, and of functions. */
  datatype Uses = Uses(vars: set<(Name, nat)>, funs: set<(Name, nat)>)

  const NO_USES: Uses := Uses({}, {})

  function Join(u: Uses, v: Uses): Uses { Uses(u.vars + v.vars, u.funs + v.funs) }

  function UsesOf(t: TBv): Uses
  {
    match t
    case TConst(_, _) => NO_USES
    case TVar(name, w) => Uses({(name, w)}, {})
    case TBin(_, a, b) => Join(UsesOf(a), UsesOf(b))
    case TExtract(_, _, a) => UsesOf(a)
    case TConcat(a, b) => Join(UsesOf(a), UsesOf(b))
    case TZeroExt(_, a) => UsesOf(a)
    case TSignExt(_, a) => UsesOf(a)
    case TIte(c, a, b) => Join(BoolUses(c), Join(UsesOf(a), UsesOf(b)))
    case TNot(a) => UsesOf(a)
    case TNeg(a) => UsesOf(a)
    case TSelect(arr, index) => Join(UsesOf(index), ArrayUses(arr))
    case TCall(name, w, args) => Join(ArgsUses(args), Uses({}, {(name, w)}))
  }

  function ArrayUses(a: TArray): Uses
  {
    match a
    case TBase(_) => NO_USES
    case TStore(arr, index, value) => Join(Join(UsesOf(index), UsesOf(value)), ArrayUses(arr))
  }

  function ArgsUses(args: TArgs): Uses
  {
    match args
    case TNil => NO_USES
    case TCons(head, tail) => Join(UsesOf(head), ArgsUses(tail))
  }

  function BoolUses(t: TBool): Uses
  {
    match t
    case BCmp(_, a, b) => Join(UsesOf(a), UsesOf(b))
    case BNot(x) => BoolUses(x)
    case BAnd(x, y) => Join(BoolUses(x), BoolUses(y))
    case BOr(x, y) => Join(BoolUses(x), BoolUses(y))
  }

  function TreeUses(ts: seq<TBool>): Uses
  {
    if ts == [] then NO_USES else Join(TreeUses(ts[..|ts| - 1]), BoolUses(ts[|ts| - 1]))
  }

  /** One name, one width. */
  predicate Functional(uses: set<(Name, nat)>)
  {
    forall p, q :: p in uses && q in uses && p.0 == q.0 ==> p.1 == q.1
  }

  // ---------- meaning ----------

  /** Words for the variables, bytes for the arrays, results for the
      functions, all by name; what is not listed is zero. */
  datatype Interp = Interp(vars: imap<Name, Bv>, arrays: imap<(Name, Bv), Bv>, funs: imap<(Name, nat, seq<Bv>), Bv>)

  ghost function VarNamed(I: Interp, name: Name, w: nat): (z: Bv)
    ensures |z| == w
  {
    if name in I.vars then Sized(I.vars[name], w) else Fill(false, w)
  }

  ghost function ArrayNamed(I: Interp, name: Name, v: Bv): (z: Bv)
    ensures |z| == 8
  {
    if (name, v) in I.arrays then Sized(I.arrays[(name, v)], 8) else Fill(false, 8)
  }

  ghost function FunNamed(I: Interp, name: Name, w: nat, args: seq<Bv>): (z: Bv)
    ensures |z| == w
  {
    if (name, w, args) in I.funs then Sized(I.funs[(name, w, args)], w) else Fill(false, w)
  }

  ghost function TreeVal(t: TBv, I: Interp): Bv
  {
    match t
    case TConst(value, w) => FromInt(value, w)
    case TVar(name, w) => VarNamed(I, name, w)
    case TBin(op, a, b) => BinValue(op, TreeVal(a, I), TreeVal(b, I))
    case TExtract(hi, lo, a) => BvExtract(TreeVal(a, I), hi, lo)
    case TConcat(a, b) => BvConcat(TreeVal(a, I), TreeVal(b, I))
    case TZeroExt(extra, a) => BvZeroExt(TreeVal(a, I), extra)
    case TSignExt(extra, a) => BvSignExt(TreeVal(a, I), extra)
    case TIte(c, a, b) => if BoolVal(c, I) then TreeVal(a, I) else TreeVal(b, I)
    case TNot(a) => Complement(TreeVal(a, I))
    case TNeg(a) => BvNeg(TreeVal(a, I))
    case TSelect(arr, index) => ReadAt(arr, I, TreeVal(index, I))
    case TCall(name, w, args) => FunNamed(I, name, w, ArgsVal(args, I))
  }

  /** Reading an array tree: a store answers for its own index. */
  ghost function ReadAt(a: TArray, I: Interp, v: Bv): Bv
  {
    match a
    case TBase(name) => ArrayNamed(I, name, v)
    case TStore(arr, index, value) => if TreeVal(index, I) == v then TreeVal(value, I) else ReadAt(arr, I, v)
  }

  ghost function ArgsVal(args: TArgs, I: Interp): seq<Bv>
  {
    match args
    case TNil => []
    case TCons(head, tail) => [TreeVal(head, I)] + ArgsVal(tail, I)
  }

  ghost predicate BoolVal(t: TBool, I: Interp)
  {
    match t
    case BCmp(op, a, b) => CmpValue(op, TreeVal(a, I), TreeVal(b, I))
    case BNot(x) => !BoolVal(x, I)
    case BAnd(x, y) => BoolVal(x, I) && BoolVal(y, I)
    case BOr(x, y) => BoolVal(x, I) || BoolVal(y, I)
  }

  /** Every asserted tree holds. */
  ghost predicate Holds(ts: seq<TBool>, I: Interp) { forall k :: 0 <= k < |ts| ==> BoolVal(ts[k], I) }

  ghost predicate TreeSat(ts: seq<TBool>) { exists I: Interp :: Holds(ts, I) }

  /** A tree without selects and calls. */
  predicate Closed(t: TBv)
  {
    match t
    case TConst(_, _) => true
    case TVar(_, _) => true
    case TBin(_, a, b) => Closed(a) && Closed(b)
    case TExtract(_, _, a) => Closed(a)
    case TConcat(a, b) => Closed(a) && Closed(b)
    case TZeroExt(_, a) => Closed(a)
    case TSignExt(_, a) => Closed(a)
    case TIte(c, a, b) => ClosedBool(c) && Closed(a) && Closed(b)
    case TNot(a) => Closed(a)
    case TNeg(a) => Closed(a)
    case TSelect(_, _) => false
    case TCall(_, _, _) => false
  }

  predicate ClosedBool(t: TBool)
  {
    match t
    case BCmp(_, a, b) => Closed(a) && Closed(b)
    case BNot(x) => ClosedBool(x)
    case BAnd(x, y) => ClosedBool(x) && ClosedBool(y)
    case BOr(x, y) => ClosedBool(x) && ClosedBool(y)
  }
}
