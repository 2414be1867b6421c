/** Folding and structural hashing of an arena, the sharing driven by
    untrusted hints that are checked one by one. */
module Compact {
  import opened Wrappers
  import opened AigGraph

  function MapLit(image: Word, l: Lit): Lit
    requires l.node < |image|
  {
    if l.neg then Not(image[l.node]) else image[l.node]
  }

  /** The operand order of a stored gate. */
  predicate LitLe(a: Lit, b: Lit) { a.node < b.node || (a.node == b.node && (!a.neg || b.neg)) }

  /** The constant folds of an AND gate, in the order they are tried. */
  function Folded(x: Lit, y: Lit): Option<Lit>
  {
    if x == LIT_FALSE || y == LIT_FALSE || x == Not(y) then Some(LIT_FALSE)
    else if x == LIT_TRUE then Some(y)
    else if y == LIT_TRUE || x == y then Some(x)
    else None
  }

  /** A literal's truth when the variables have these values. */
  predicate LitTruth(v: nat -> bool, l: Lit) { v(l.node) != l.neg }

  /** EXACTLY WHAT FOLDS: an AND with a constant, or of one variable; into the
      constant or the operand that it always equals. */
  lemma FoldExact(x: Lit, y: Lit)
    ensures Folded(x, y).Some? <==> x.node == 0 || y.node == 0 || x.node == y.node
    ensures Folded(x, y).Some? ==> Folded(x, y).value in [LIT_FALSE, x, y]
    ensures Folded(x, y).Some? ==>
              forall v: nat -> bool | !v(0) :: LitTruth(v, Folded(x, y).value) == (LitTruth(v, x) && LitTruth(v, y))
  {
  }

  function First(x: Lit, y: Lit): Lit { if LitLe(x, y) then x else y }

  function Second(x: Lit, y: Lit): Lit { if LitLe(x, y) then y else x }

  /** cand is a positive literal of a gate whose operands are exactly p and q. */
  predicate HintMatches(out: Nodes, cand: Lit, p: Lit, q: Lit)
  {
    !cand.neg && cand.node < |out| && out[cand.node] == And(p, q)
  }

  // ---------- specification ----------

  /** One AND over mapped operands: fold, reuse the hinted gate, or append. */
  ghost function AndStep(out: Nodes, image: Word, x: Lit, y: Lit, hint: nat): (Nodes, Lit)
  {
    match Folded(x, y)
    case Some(l) => (out, l)
    case None =>
      var p, q := First(x, y), Second(x, y);
      if hint < |image| && HintMatches(out, image[hint], p, q) then (out, image[hint])
      else (out + [And(p, q)], Lit(|out|, false))
  }

  ghost function NodeStep(out: Nodes, image: Word, nd: Node, hint: nat): (Nodes, Lit)
    requires InPlace(nd, |image|)
  {
    match nd
    case False => (out, LIT_FALSE)
    case Input(k) => (out + [Input(k)], Lit(|out|, false))
    case And(x, y) => AndStep(out, image, MapLit(image, x), MapLit(image, y), hint)
  }

  function HintAt(hints: seq<nat>, i: nat): nat { if i < |hints| then hints[i] else i }

  /** The arena and the literal map after the first n source nodes. */
  ghost function Compacted(ns: Nodes, hints: seq<nat>, n: nat): (r: (Nodes, Word))
    requires n <= |ns| && forall i :: 0 <= i < |ns| ==> InPlace(ns[i], i)
    ensures |r.1| == n
  {
    if n == 0 then ([False], []) else
    var (out, image) := Compacted(ns, hints, n - 1);
    var (out', l) := NodeStep(out, image, ns[n - 1], HintAt(hints, n - 1));
    (out', image + [l])
  }

  // ---------- implementation ----------

  method CompactAnd(out: Aig, image: Word, rx: Lit, ry: Lit, hint: nat) returns (l: Lit)
    requires Wf(out.nodes) && In(out.nodes, rx) && In(out.nodes, ry)
    modifies out
    ensures (out.nodes, l) == AndStep(old(out.nodes), image, rx, ry, hint)
  {
    if rx == LIT_FALSE || ry == LIT_FALSE || rx == Not(ry) {
      l := LIT_FALSE;
    } else if rx == LIT_TRUE {
      l := ry;
    } else if ry == LIT_TRUE || rx == ry {
      l := rx;
    } else {
      var p := if LitLe(rx, ry) then rx else ry;
      var q := if LitLe(rx, ry) then ry else rx;
      if hint < |image| && HintMatches(out.nodes, image[hint], p, q) {
        l := image[hint];
      } else {
        l := out.PushAnd(p, q);
      }
    }
  }

  /** Rebuild ns node by node; image[i] carries the value of source node i,
      whatever the hints say. */
  method Compact(ns: Nodes, hints: seq<nat>) returns (out: Aig, image: Word)
    requires Wf(ns)
    ensures fresh(out) && (out.nodes, image) == Compacted(ns, hints, |ns|)
  {
    out := new Aig();
    image := [];
    for i := 0 to |ns|
      invariant fresh(out) && (out.nodes, image) == Compacted(ns, hints, i)
    {
      CompactedSound(ns, hints, i);
      var hint := if i < |hints| then hints[i] else i;
      assert InPlace(ns[i], i);
      var l;
      match ns[i] {
        case False => l := LIT_FALSE;
        case Input(k) => l := out.PushInput(k);
        case And(x, y) => l := CompactAnd(out, image, MapLit(image, x), MapLit(image, y), hint);
      }
      image := image + [l];
    }
  }

  // ---------- soundness for arbitrary hints ----------

  /** Every mapped literal carries its source node's value. */
  ghost predicate Carries(ns: Nodes, out: Nodes, image: Word)
  {
    && |image| <= |ns| && AllIn(out, image)
    && forall inp, i :: 0 <= i < |image| ==> LV(out, inp, image[i]) == NodeValue(ns, inp, i)
  }

  /** The primary inputs of out are primary inputs of the first n nodes of ns. */
  ghost predicate InputsFrom(ns: Nodes, n: nat, out: Nodes)
    requires n <= |ns|
  {
    forall j :: 0 <= j < |out| && out[j].Input? ==> exists i :: 0 <= i < n && ns[i] == out[j]
  }

  ghost predicate DistinctInputs(ns: Nodes)
  {
    forall i, j :: 0 <= i < j < |ns| && ns[i].Input? && ns[j].Input? ==> ns[i].k != ns[j].k
  }

  lemma MapLitValue(ns: Nodes, out: Nodes, image: Word, inp: seq<bool>, l: Lit)
    requires Carries(ns, out, image) && l.node < |image|
    ensures In(out, MapLit(image, l)) && LV(out, inp, MapLit(image, l)) == LV(ns, inp, l)
  {
    assert LV(out, inp, image[l.node]) == NodeValue(ns, inp, l.node);
  }

  lemma AndStepSound(out: Nodes, image: Word, x: Lit, y: Lit, hint: nat)
    requires Wf(out) && AllIn(out, image) && In(out, x) && In(out, y)
    ensures var (out', l) := AndStep(out, image, x, y, hint);
            && Extends(out, out') && In(out', l) && |out'| <= |out| + 1
            && (forall j :: |out| <= j < |out'| ==> out'[j].And?)
            && forall inp :: LV(out', inp, l) == (LV(out, inp, x) && LV(out, inp, y))
  {
    var (out', l) := AndStep(out, image, x, y, hint);
    AppendExtends(out, out');
    var p, q := First(x, y), Second(x, y);
    forall inp ensures LV(out', inp, l) == (LV(out, inp, x) && LV(out, inp, y)) {
      if Folded(x, y).None? {
        assert out'[l.node] == And(p, q) && !l.neg;
        assert InPlace(out'[l.node], l.node);
        assert LV(out', inp, p) == LV(out, inp, p) && LV(out', inp, q) == LV(out, inp, q);
      } else {
        assert !LV(out, inp, LIT_FALSE) && LV(out, inp, LIT_TRUE);
      }
    }
  }

  /** SOUNDNESS, for arbitrary hints: the compacted arena is well-formed and
      no larger than its source, every source node's literal carries its
      value under every input, and distinct inputs stay distinct. */
  lemma {:induction false} CompactedSound(ns: Nodes, hints: seq<nat>, n: nat)
    requires Wf(ns) && n <= |ns|
    ensures var (out, image) := Compacted(ns, hints, n);
            && Wf(out) && |out| <= (if n == 0 then 1 else n) && |image| == n && Carries(ns, out, image)
            && InputsFrom(ns, n, out) && (DistinctInputs(ns) ==> DistinctInputs(out))
  {
    if n > 0 {
      CompactedSound(ns, hints, n - 1);
      var (out, image) := Compacted(ns, hints, n - 1);
      var (out', l) := NodeStep(out, image, ns[n - 1], HintAt(hints, n - 1));
      assert InPlace(ns[n - 1], n - 1);
      NodeStepSound(ns, hints, n - 1, out, image, out', l);
    }
  }

  lemma NodeStepSound(ns: Nodes, hints: seq<nat>, n: nat, out: Nodes, image: Word, out': Nodes, l: Lit)
    requires Wf(ns) && n < |ns| && |image| == n && InPlace(ns[n], n)
    requires Wf(out) && |out| <= (if n == 0 then 1 else n) && Carries(ns, out, image) && InputsFrom(ns, n, out)
    requires (out', l) == NodeStep(out, image, ns[n], HintAt(hints, n))
    ensures Wf(out') && |out'| <= n + 1 && Carries(ns, out', image + [l]) && InputsFrom(ns, n + 1, out')
    ensures DistinctInputs(ns) && DistinctInputs(out) ==> DistinctInputs(out')
  {
    if ns[n].And? {
      var x, y := ns[n].x, ns[n].y;
      forall inp
        ensures LV(out, inp, MapLit(image, x)) == LV(ns, inp, x) && LV(out, inp, MapLit(image, y)) == LV(ns, inp, y)
        ensures In(out, MapLit(image, x)) && In(out, MapLit(image, y))
      {
        MapLitValue(ns, out, image, inp, x);
        MapLitValue(ns, out, image, inp, y);
      }
      MapLitValue(ns, out, image, [], x);
      MapLitValue(ns, out, image, [], y);
      AndStepSound(out, image, MapLit(image, x), MapLit(image, y), HintAt(hints, n));
    } else {
      AppendExtends(out, out');
    }
    var m := image + [l];
    forall inp, i | 0 <= i < n + 1 ensures LV(out', inp, m[i]) == NodeValue(ns, inp, i) {
      if i < n { assert LV(out', inp, image[i]) == LV(out, inp, image[i]); }
    }
  }

  /** Carry a word over to the compacted arena. */
  method MapWord(image: Word, word: Word) returns (out: Word)
    requires forall i :: 0 <= i < |word| ==> word[i].node < |image|
    ensures |out| == |word| && forall i :: 0 <= i < |word| ==> out[i] == MapLit(image, word[i])
  {
    out := [];
    for i := 0 to |word|
      invariant |out| == i && forall k :: 0 <= k < i ==> out[k] == MapLit(image, word[k])
    {
      out := out + [MapLit(image, word[i])];
    }
  }
}
