/** What flattening answers: the left-to-right walk over the trees, with the
    widths names have been used at, stopping at the first complaint. */
module FlatSpec {
  import opened Wrappers
  import opened Tree

  datatype FlatError = BadWidth | NameWidth | BadArraySort | FuncWidth | NotCore

  /** The widths used so far, or the first complaint. */
  type Walked = Result<Uses, FlatError>

  /** The name has been used at another width. */
  ghost predicate Second(uses: set<(Name, nat)>, name: Name, w: nat) { exists v :: v != w && (name, v) in uses }

  /** The step's answer, when the check after it passes. */
  function Guarded(r: Walked, ok: bool, error: FlatError): Walked { if r.Ok? && !ok then Err(error) else r }

  ghost function WalkBv(u: Uses, t: TBv): Walked
    decreases t
  {
    match t
    case TConst(_, w) => Guarded(Ok(u), WidthOk(w), BadWidth)
    case TVar(name, w) =>
      if !WidthOk(w) then Err(BadWidth)
      else if Second(u.vars, name, w) then Err(NameWidth)
      else Ok(Join(u, UsesOf(t)))
    case TBin(_, a, b) =>
      var r := WalkBv(u, a);
      if r.Err? then r else Guarded(WalkBv(r.value, b), TreeWidth(a) == TreeWidth(b), BadWidth)
    case TExtract(hi, lo, a) => Guarded(WalkBv(u, a), lo <= hi < TreeWidth(a), BadWidth)
    case TConcat(a, b) =>
      var r := WalkBv(u, a);
      if r.Err? then r else Guarded(WalkBv(r.value, b), WidthOk(TreeWidth(a) + TreeWidth(b)), BadWidth)
    case TZeroExt(extra, a) => Guarded(WalkBv(u, a), WidthOk(TreeWidth(a) + extra), BadWidth)
    case TSignExt(extra, a) => Guarded(WalkBv(u, a), WidthOk(TreeWidth(a) + extra), BadWidth)
    case TIte(c, a, b) =>
      var q := WalkBool(u, c);
      if q.Err? then q else
      var r := WalkBv(q.value, a);
      if r.Err? then r else Guarded(WalkBv(r.value, b), TreeWidth(a) == TreeWidth(b), BadWidth)
    case TNot(a) => WalkBv(u, a)
    case TNeg(a) => WalkBv(u, a)
    case TSelect(arr, index) =>
      var r := Guarded(WalkBv(u, index), TreeWidth(index) == 32, BadArraySort);
      if r.Err? then r else WalkArray(r.value, arr)
    case TCall(name, w, args) =>
      var r := Guarded(WalkArgs(u, args), WidthOk(w), BadWidth);
      if r.Err? then r
      else if Second(r.value.funs, name, w) then Err(FuncWidth)
      else Ok(Join(r.value, Uses({}, {(name, w)})))
  }

  /** A store's index, its value, then the array below. */
  ghost function WalkArray(u: Uses, a: TArray): Walked
    decreases a
  {
    match a
    case TBase(_) => Ok(u)
    case TStore(arr, index, value) =>
      var q := Guarded(WalkBv(u, index), TreeWidth(index) == 32, BadArraySort);
      if q.Err? then q else
      var r := Guarded(WalkBv(q.value, value), TreeWidth(value) == 8, BadArraySort);
      if r.Err? then r else WalkArray(r.value, arr)
  }

  ghost function WalkArgs(u: Uses, args: TArgs): Walked
    decreases args
  {
    match args
    case TNil => Ok(u)
    case TCons(head, tail) =>
      var r := WalkBv(u, head);
      if r.Err? then r else WalkArgs(r.value, tail)
  }

  ghost function WalkBool(u: Uses, t: TBool): Walked
    decreases t
  {
    match t
    case BCmp(_, a, b) =>
      var r := WalkBv(u, a);
      if r.Err? then r else Guarded(WalkBv(r.value, b), TreeWidth(a) == TreeWidth(b), BadWidth)
    case BNot(x) => WalkBool(u, x)
    case BAnd(x, y) =>
      var r := WalkBool(u, x);
      if r.Err? then r else WalkBool(r.value, y)
    case BOr(x, y) =>
      var r := WalkBool(u, x);
      if r.Err? then r else WalkBool(r.value, y)
  }

  ghost function WalkPair(u: Uses, a: TBv, b: TBv): Walked
  {
    var r := WalkBv(u, a);
    if r.Err? then r else WalkBv(r.value, b)
  }

  /** The asserted trees in order. */
  ghost function WalkAll(u: Uses, ts: seq<TBool>): Walked
  {
    if ts == [] then Ok(u) else
    var r := WalkAll(u, ts[..|ts| - 1]);
    if r.Err? then r else WalkBool(r.value, ts[|ts| - 1])
  }

  // ---------- when it succeeds ----------

  /** Every name has one width. */
  ghost predicate OneWidthEach(u: Uses) { Functional(u.vars) && Functional(u.funs) }

  lemma JoinFacts(u: Uses, v: Uses, w: Uses)
    ensures Join(Join(u, v), w) == Join(u, Join(v, w)) && Join(u, NO_USES) == u
    ensures OneWidthEach(Join(u, v)) ==> OneWidthEach(u) && OneWidthEach(v)
  {
    assert (u.vars + v.vars) + w.vars == u.vars + (v.vars + w.vars);
    assert (u.funs + v.funs) + w.funs == u.funs + (v.funs + w.funs);
    assert u.vars + {} == u.vars && u.funs + {} == u.funs;
  }

  /** The walk from u over something sorted or not that uses v. */
  ghost predicate Exact(u: Uses, r: Walked, sorted: bool, v: Uses)
  {
    && (r.Ok? <==> sorted && OneWidthEach(Join(u, v)))
    && (r.Ok? ==> r.value == Join(u, v))
  }

  lemma ExactSeq(u: Uses, r: Walked, sorted: bool, v: Uses, r': Walked, sorted': bool, v': Uses)
    requires Exact(u, r, sorted, v)
    requires r.Ok? ==> Exact(r.value, r', sorted', v')
    requires r.Err? ==> r' == r
    ensures Exact(u, r', sorted && sorted', Join(v, v'))
  {
    hide OneWidthEach;
    JoinFacts(u, v, v');
    if OneWidthEach(Join(u, Join(v, v'))) { JoinFacts(Join(u, v), v', NO_USES); }
  }

  lemma ExactGuard(u: Uses, r: Walked, sorted: bool, v: Uses, ok: bool, error: FlatError)
    requires Exact(u, r, sorted, v)
    ensures Exact(u, Guarded(r, ok, error), sorted && ok, v)
  {
  }

  lemma ExactName(u: Uses, name: Name, w: nat, fun: bool)
    requires OneWidthEach(u)
    ensures var v := if fun then Uses({}, {(name, w)}) else Uses({(name, w)}, {});
            OneWidthEach(Join(u, v)) <==> !Second(if fun then u.funs else u.vars, name, w)
  {
    var s := if fun then u.funs else u.vars;
    if Second(s, name, w) {
      var v: nat :| v != w && (name, v) in s;
      assert (name, v) in s + {(name, w)} && (name, w) in s + {(name, w)};
    } else {
      forall p, q | p in s + {(name, w)} && q in s + {(name, w)} && p.0 == q.0 ensures p.1 == q.1 {
        assert p.0 == name && p in s ==> p == (name, p.1);
        assert q.0 == name && q in s ==> q == (name, q.1);
      }
    }
  }

  lemma ExactNone(u: Uses)
    requires OneWidthEach(u)
    ensures Exact(u, Ok(u), true, NO_USES)
  {
    JoinFacts(u, NO_USES, NO_USES);
  }

  lemma VarExact(u: Uses, name: Name, w: nat)
    requires OneWidthEach(u)
    ensures Exact(u, WalkBv(u, TVar(name, w)), WidthOk(w), Uses({(name, w)}, {}))
  {
    ExactName(u, name, w, false);
  }

  /** THE WALK SUCCEEDS EXACTLY on sorted trees that give every name one
      width, and then its uses are those before and the tree's. */
  lemma {:induction false} WalkExact(u: Uses, t: TBv)
    requires OneWidthEach(u)
    ensures Exact(u, WalkBv(u, t), Sorted(t), UsesOf(t))
    decreases Size(t), 1
  {
    hide Exact, OneWidthEach, Join, Second;
    match t {
      case TConst(_, w) =>
        ExactNone(u);
        ExactGuard(u, Ok(u), true, NO_USES, WidthOk(w), BadWidth);
      case TVar(name, w) => VarExact(u, name, w);
      case TBin(_, a, b) => PairExact(u, a, b, TreeWidth(a) == TreeWidth(b));
      case TConcat(a, b) => PairExact(u, a, b, WidthOk(TreeWidth(a) + TreeWidth(b)));
      case TIte(_, _, _) => IteExact(u, t);
      case TSelect(_, _) => SelectExact(u, t);
      case TCall(_, _, _) => CallExact(u, t);
      case _ => UnaryExact(u, t);
    }
  }

  lemma {:induction false} PairExact(u: Uses, a: TBv, b: TBv, ok: bool)
    requires OneWidthEach(u)
    ensures Exact(u, Guarded(WalkPair(u, a, b), ok, BadWidth), Sorted(a) && Sorted(b) && ok, Join(UsesOf(a), UsesOf(b)))
    decreases Size(a) + Size(b), 2
  {
    hide OneWidthEach, Join;
    WalkExact(u, a);
    var r := WalkBv(u, a);
    if r.Ok? { WalkExact(r.value, b); }
    ExactSeq(u, r, Sorted(a), UsesOf(a), WalkPair(u, a, b), Sorted(b), UsesOf(b));
    ExactGuard(u, WalkPair(u, a, b), Sorted(a) && Sorted(b), Join(UsesOf(a), UsesOf(b)), ok, BadWidth);
  }

  lemma {:induction false} IteExact(u: Uses, t: TBv)
    requires OneWidthEach(u) && t.TIte?
    ensures Exact(u, WalkBv(u, t), Sorted(t), UsesOf(t))
    decreases Size(t), 0
  {
    hide OneWidthEach, Join;
    BoolExact(u, t.c);
    var q := WalkBool(u, t.c);
    var same := TreeWidth(t.a) == TreeWidth(t.b);
    if q.Ok? { PairExact(q.value, t.a, t.b, same); }
    ExactSeq(u, q, SortedBool(t.c), BoolUses(t.c), WalkBv(u, t), Sorted(t.a) && Sorted(t.b) && same,
             Join(UsesOf(t.a), UsesOf(t.b)));
  }

  lemma {:induction false} UnaryExact(u: Uses, t: TBv)
    requires OneWidthEach(u) && (t.TExtract? || t.TZeroExt? || t.TSignExt? || t.TNot? || t.TNeg?)
    ensures Exact(u, WalkBv(u, t), Sorted(t), UsesOf(t))
    decreases Size(t), 0
  {
    hide OneWidthEach, Join, Exact, Guarded;
    WalkExact(u, t.a);
    var r, w := WalkBv(u, t.a), TreeWidth(t.a);
    match t {
      case TExtract(hi, lo, a) => ExactGuard(u, r, Sorted(a), UsesOf(a), lo <= hi < w, BadWidth);
      case TZeroExt(extra, a) => ExactGuard(u, r, Sorted(a), UsesOf(a), WidthOk(w + extra), BadWidth);
      case TSignExt(extra, a) => ExactGuard(u, r, Sorted(a), UsesOf(a), WidthOk(w + extra), BadWidth);
      case TNot(_) =>
      case TNeg(_) =>
    }
  }

  lemma {:induction false} SelectExact(u: Uses, t: TBv)
    requires OneWidthEach(u) && t.TSelect?
    ensures Exact(u, WalkBv(u, t), Sorted(t), UsesOf(t))
    decreases Size(t), 0
  {
    hide OneWidthEach, Join;
    WalkExact(u, t.index);
    var ok := TreeWidth(t.index) == 32;
    ExactGuard(u, WalkBv(u, t.index), Sorted(t.index), UsesOf(t.index), ok, BadArraySort);
    var r := Guarded(WalkBv(u, t.index), ok, BadArraySort);
    if r.Ok? { ArrayExact(r.value, t.arr); }
    ExactSeq(u, r, Sorted(t.index) && ok, UsesOf(t.index), WalkBv(u, t), SortedArray(t.arr), ArrayUses(t.arr));
  }

  lemma {:induction false} CallExact(u: Uses, t: TBv)
    requires OneWidthEach(u) && t.TCall?
    ensures Exact(u, WalkBv(u, t), Sorted(t), UsesOf(t))
    decreases Size(t), 0
  {
    hide OneWidthEach, Join;
    ArgsExact(u, t.args);
    ExactGuard(u, WalkArgs(u, t.args), SortedArgs(t.args), ArgsUses(t.args), WidthOk(t.w), BadWidth);
    var r := Guarded(WalkArgs(u, t.args), WidthOk(t.w), BadWidth);
    if r.Ok? { ExactName(r.value, t.name, t.w, true); }
    ExactSeq(u, r, SortedArgs(t.args) && WidthOk(t.w), ArgsUses(t.args), WalkBv(u, t), true, Uses({}, {(t.name, t.w)}));
  }

  lemma {:induction false} ArrayExact(u: Uses, a: TArray)
    requires OneWidthEach(u)
    ensures Exact(u, WalkArray(u, a), SortedArray(a), ArrayUses(a))
    decreases ArraySize(a), 1
  {
    hide OneWidthEach, Join;
    match a {
      case TBase(_) => ExactNone(u);
      case TStore(arr, index, value) =>
        WalkExact(u, index);
        var ok, ok' := TreeWidth(index) == 32, TreeWidth(value) == 8;
        ExactGuard(u, WalkBv(u, index), Sorted(index), UsesOf(index), ok, BadArraySort);
        var q := Guarded(WalkBv(u, index), ok, BadArraySort);
        if q.Ok? {
          WalkExact(q.value, value);
          ExactGuard(q.value, WalkBv(q.value, value), Sorted(value), UsesOf(value), ok', BadArraySort);
        }
        var r := if q.Err? then q else Guarded(WalkBv(q.value, value), ok', BadArraySort);
        ExactSeq(u, q, Sorted(index) && ok, UsesOf(index), r, Sorted(value) && ok', UsesOf(value));
        if r.Ok? { ArrayExact(r.value, arr); }
        ExactSeq(u, r, Sorted(index) && ok && Sorted(value) && ok', Join(UsesOf(index), UsesOf(value)), WalkArray(u, a),
                 SortedArray(arr), ArrayUses(arr));
    }
  }

  lemma {:induction false} ArgsExact(u: Uses, args: TArgs)
    requires OneWidthEach(u)
    ensures Exact(u, WalkArgs(u, args), SortedArgs(args), ArgsUses(args))
    decreases ArgsSize(args), 0
  {
    hide OneWidthEach, Join;
    match args {
      case TNil => ExactNone(u);
      case TCons(head, tail) =>
        WalkExact(u, head);
        var r := WalkBv(u, head);
        if r.Ok? { ArgsExact(r.value, tail); }
        ExactSeq(u, r, Sorted(head), UsesOf(head), WalkArgs(u, args), SortedArgs(tail), ArgsUses(tail));
    }
  }

  lemma {:induction false} BoolExact(u: Uses, t: TBool)
    requires OneWidthEach(u)
    ensures Exact(u, WalkBool(u, t), SortedBool(t), BoolUses(t))
    decreases BoolSize(t), 1
  {
    hide OneWidthEach, Join;
    match t {
      case BCmp(_, a, b) => PairExact(u, a, b, TreeWidth(a) == TreeWidth(b));
      case BNot(x) => BoolExact(u, x);
      case BAnd(x, y) =>
        BoolExact(u, x);
        var r := WalkBool(u, x);
        if r.Ok? { BoolExact(r.value, y); }
        ExactSeq(u, r, SortedBool(x), BoolUses(x), WalkBool(u, t), SortedBool(y), BoolUses(y));
      case BOr(x, y) =>
        BoolExact(u, x);
        var r := WalkBool(u, x);
        if r.Ok? { BoolExact(r.value, y); }
        ExactSeq(u, r, SortedBool(x), BoolUses(x), WalkBool(u, t), SortedBool(y), BoolUses(y));
    }
  }

  predicate AllSorted(ts: seq<TBool>) { forall k :: 0 <= k < |ts| ==> SortedBool(ts[k]) }

  /** And so on the asserted trees. */
  lemma {:induction false} AllExact(u: Uses, ts: seq<TBool>)
    requires OneWidthEach(u)
    ensures Exact(u, WalkAll(u, ts), AllSorted(ts), TreeUses(ts))
  {
    hide OneWidthEach, Join;
    if ts == [] {
      ExactNone(u);
    } else {
      var front, last := ts[..|ts| - 1], ts[|ts| - 1];
      AllExact(u, front);
      var r := WalkAll(u, front);
      if r.Ok? { BoolExact(r.value, last); }
      ExactSeq(u, r, AllSorted(front), TreeUses(front), WalkAll(u, ts), SortedBool(last), BoolUses(last));
      assert AllSorted(ts) <==> AllSorted(front) && SortedBool(last) by {
        assert forall k :: 0 <= k < |front| ==> front[k] == ts[k];
      }
    }
  }

  lemma FromNone(ts: seq<TBool>)
    ensures Exact(NO_USES, WalkAll(NO_USES, ts), AllSorted(ts), TreeUses(ts))
    ensures Join(NO_USES, TreeUses(ts)) == TreeUses(ts)
  {
    AllExact(NO_USES, ts);
  }

  lemma WalkSplit(u: Uses, ts: seq<TBool>, k: nat)
    requires k < |ts|
    ensures var r := WalkAll(u, ts[..k]); WalkAll(u, ts[..k + 1]) == if r.Err? then r else WalkBool(r.value, ts[k])
  {
    assert ts[..k + 1][..k] == ts[..k];
  }

  /** The first complaint is the answer. */
  lemma {:induction false} WalkStops(u: Uses, ts: seq<TBool>, k: nat)
    requires k <= |ts| && WalkAll(u, ts[..k]).Err?
    ensures WalkAll(u, ts) == WalkAll(u, ts[..k])
    decreases |ts|
  {
    if k < |ts| {
      assert ts[..|ts| - 1][..k] == ts[..k];
      WalkStops(u, ts[..|ts| - 1], k);
    } else {
      assert ts[..k] == ts;
    }
  }
}
