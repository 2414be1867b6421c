/** And-inverter graphs: an append-only arena of nodes whose operands are
    always earlier nodes, and the value of a literal under an input
    assignment.  Node 0 is the constant false. */
module AigGraph {
  import opened Bits

  datatype Lit = Lit(node: nat, neg: bool)

  datatype Node = False | Input(k: nat) | And(x: Lit, y: Lit)

  type Nodes = seq<Node>
  type Word = seq<Lit>

  const LIT_FALSE: Lit := Lit(0, false)
  const LIT_TRUE: Lit := Lit(0, true)

  function Not(l: Lit): Lit { Lit(l.node, !l.neg) }

  predicate In(ns: Nodes, l: Lit) { l.node < |ns| }

  predicate AllIn(ns: Nodes, w: Word) { forall i :: 0 <= i < |w| ==> In(ns, w[i]) }

  /** Node i may be nd: the constant is node 0 and no other, and operands come
      before their gate. */
  predicate InPlace(nd: Node, i: nat)
  {
    match nd
    case False => i == 0
    case Input(_) => true
    case And(x, y) => x.node < i && y.node < i
  }

  predicate Wf(ns: Nodes)
  {
    |ns| > 0 && ns[0] == False && forall i :: 0 <= i < |ns| ==> InPlace(ns[i], i)
  }

  // ---------- semantics ----------

  /** Bits past the end of an assignment read as false. */
  function InputBit(inp: seq<bool>, k: nat): bool { k < |inp| && inp[k] }

  ghost function NodeValue(ns: Nodes, inp: seq<bool>, i: nat): bool
    decreases i
  {
    if i >= |ns| then false else
    match ns[i]
    case False => false
    case Input(k) => InputBit(inp, k)
    case And(x, y) =>
      && x.node < i && NodeValue(ns, inp, x.node) != x.neg
      && y.node < i && NodeValue(ns, inp, y.node) != y.neg
  }

  /** The value of a literal. */
  ghost function LV(ns: Nodes, inp: seq<bool>, l: Lit): bool { NodeValue(ns, inp, l.node) != l.neg }

  /** The value of a word, least significant bit first. */
  ghost function WV(ns: Nodes, inp: seq<bool>, w: Word): (v: Bv)
    ensures |v| == |w| && forall i :: 0 <= i < |w| ==> v[i] == LV(ns, inp, w[i])
  {
    seq(|w|, i requires 0 <= i < |w| => LV(ns, inp, w[i]))
  }

  /** n is o with nodes appended, and keeps the value of everything in o. */
  ghost predicate Extends(o: Nodes, n: Nodes)
  {
    && Wf(n) && |o| <= |n| && n[..|o|] == o
    && (forall inp, l {:trigger LV(n, inp, l)} :: In(o, l) ==> LV(n, inp, l) == LV(o, inp, l))
    && (forall inp, w {:trigger WV(n, inp, w)} :: AllIn(o, w) ==> WV(n, inp, w) == WV(o, inp, w))
  }

  /** As Extends, every new node being a gate. */
  ghost predicate Gates(o: Nodes, n: Nodes)
  {
    Extends(o, n) && forall i :: |o| <= i < |n| ==> n[i].And?
  }

  lemma {:induction false} PrefixValue(o: Nodes, n: Nodes, inp: seq<bool>, i: nat)
    requires |o| <= |n| && n[..|o|] == o && i < |o|
    ensures NodeValue(n, inp, i) == NodeValue(o, inp, i)
    decreases i
  {
    assert n[i] == o[i];
    match n[i]
    case And(x, y) =>
      if x.node < i { PrefixValue(o, n, inp, x.node); }
      if y.node < i { PrefixValue(o, n, inp, y.node); }
    case _ =>
  }

  /** Appending well-formed nodes never changes an existing value. */
  lemma AppendExtends(o: Nodes, n: Nodes)
    requires Wf(n) && |o| <= |n| && n[..|o|] == o
    ensures Extends(o, n)
  {
    forall inp, l | In(o, l) ensures LV(n, inp, l) == LV(o, inp, l) {
      PrefixValue(o, n, inp, l.node);
    }
  }

  lemma WVSnoc(ns: Nodes, inp: seq<bool>, w: Word, l: Lit)
    ensures WV(ns, inp, w + [l]) == WV(ns, inp, w) + [LV(ns, inp, l)]
  {
  }

  // ---------- the arena ----------

  class Aig {
    var nodes: Nodes

    constructor ()
      ensures nodes == [False]
    {
      nodes := [False];
    }

    method PushInput(k: nat) returns (l: Lit)
      requires Wf(nodes)
      modifies this
      ensures Extends(old(nodes), nodes) && nodes == old(nodes) + [Input(k)]
      ensures l == Lit(|old(nodes)|, false)
      ensures forall inp :: LV(nodes, inp, l) == InputBit(inp, k)
    {
      l := Lit(|nodes|, false);
      nodes := nodes + [Input(k)];
      AppendExtends(old(nodes), nodes);
    }

    method PushAnd(x: Lit, y: Lit) returns (l: Lit)
      requires Wf(nodes) && In(nodes, x) && In(nodes, y)
      modifies this
      ensures Gates(old(nodes), nodes) && nodes == old(nodes) + [And(x, y)]
      ensures l == Lit(|old(nodes)|, false) && In(nodes, l)
      ensures forall inp :: LV(nodes, inp, l) == (LV(old(nodes), inp, x) && LV(old(nodes), inp, y))
    {
      l := Lit(|nodes|, false);
      nodes := nodes + [And(x, y)];
      AppendExtends(old(nodes), nodes);
      assert forall inp :: LV(nodes, inp, l) == (LV(nodes, inp, x) && LV(nodes, inp, y));
    }

    /** Or by De Morgan: one gate. */
    method PushOr(x: Lit, y: Lit) returns (l: Lit)
      requires Wf(nodes) && In(nodes, x) && In(nodes, y)
      modifies this
      ensures Gates(old(nodes), nodes) && nodes == old(nodes) + [And(Not(x), Not(y))]
      ensures l == Lit(|old(nodes)|, true) && In(nodes, l)
      ensures forall inp :: LV(nodes, inp, l) == (LV(old(nodes), inp, x) || LV(old(nodes), inp, y))
    {
      var g := PushAnd(Not(x), Not(y));
      l := Not(g);
      assert forall inp :: LV(nodes, inp, l) == !LV(nodes, inp, g);
    }

    /** Exclusive or: three gates. */
    method PushXor(x: Lit, y: Lit) returns (l: Lit)
      requires Wf(nodes) && In(nodes, x) && In(nodes, y)
      modifies this
      ensures Gates(old(nodes), nodes)
      ensures var n := |old(nodes)|;
              nodes == old(nodes) + [And(x, Not(y)), And(Not(x), y), And(Lit(n, true), Lit(n + 1, true))] &&
              l == Lit(n + 2, true)
      ensures In(nodes, l)
      ensures forall inp :: LV(nodes, inp, l) == (LV(old(nodes), inp, x) != LV(old(nodes), inp, y))
    {
      var p := PushAnd(x, Not(y));
      var q := PushAnd(Not(x), y);
      l := PushOr(p, q);
    }

    /** sel ? t : e, three gates. */
    method PushMux(sel: Lit, t: Lit, e: Lit) returns (l: Lit)
      requires Wf(nodes) && In(nodes, sel) && In(nodes, t) && In(nodes, e)
      modifies this
      ensures Gates(old(nodes), nodes)
      ensures var n := |old(nodes)|;
              nodes == old(nodes) + [And(sel, t), And(Not(sel), e), And(Lit(n, true), Lit(n + 1, true))] &&
              l == Lit(n + 2, true)
      ensures In(nodes, l)
      ensures forall inp :: LV(nodes, inp, l) ==
                            if LV(old(nodes), inp, sel) then LV(old(nodes), inp, t) else LV(old(nodes), inp, e)
    {
      var p := PushAnd(sel, t);
      var q := PushAnd(Not(sel), e);
      l := PushOr(p, q);
    }
  }

  /** A literal's value read off a table of node values. */
  function EvalLit(vals: seq<bool>, l: Lit): bool
    requires l.node < |vals|
  {
    if l.neg then !vals[l.node] else vals[l.node]
  }

  /** How many inputs an assignment must supply: it covers every input read. */
  predicate Covers(ns: Nodes, inp: seq<bool>)
  {
    forall i :: 0 <= i < |ns| && ns[i].Input? ==> ns[i].k < |inp|
  }

  /** One forward pass computes the value of every node. */
  method Simulate(ns: Nodes, inp: seq<bool>) returns (vals: seq<bool>)
    requires Wf(ns) && Covers(ns, inp)
    ensures |vals| == |ns|
    ensures forall i :: 0 <= i < |ns| ==> vals[i] == NodeValue(ns, inp, i)
    ensures forall l :: In(ns, l) ==> EvalLit(vals, l) == LV(ns, inp, l)
  {
    vals := [];
    for i := 0 to |ns|
      invariant |vals| == i
      invariant forall k :: 0 <= k < i ==> vals[k] == NodeValue(ns, inp, k)
    {
      assert InPlace(ns[i], i);
      var v;
      match ns[i] {
        case False => v := false;
        case Input(k) => v := inp[k];
        case And(x, y) => v := EvalLit(vals, x) && EvalLit(vals, y);
      }
      vals := vals + [v];
    }
  }
}
