/** The solver's hash-consed and-inverter graph, the untrusted pass that turns
    its hash table into hints, and the agreement of the two: compaction along
    those hints rebuilds the hash-consed arena gate for gate. */
module Strash {
  import opened AigGraph
  import opened Compact

  /** A node of the hash-consed arena; its inputs are numbered by order. */
  datatype HNode = HConst | HInput | HAnd(x: Lit, y: Lit)

  /** The arena and its structural-hash table. */
  datatype State = State(nodes: seq<HNode>, table: map<(Lit, Lit), Lit>)

  /** Which simplifications an AND applies: folding, and structural hashing. */
  datatype Options = Options(fold: bool, strash: bool)

  const DEFAULT: Options := Options(true, true)

  // ---------- the hash-consed arena ----------

  /** An AND under the options: the fold, a known gate, or a new one. */
  function GateAnd(o: Options, s: State, a: Lit, b: Lit): (State, Lit)
  {
    if o.fold && Folded(a, b).Some? then (s, Folded(a, b).value)
    else
      var p, q := First(a, b), Second(a, b);
      if o.strash && (p, q) in s.table then (s, s.table[(p, q)])
      else
        var l := Lit(|s.nodes|, false);
        (State(s.nodes + [HAnd(p, q)], if o.strash then s.table[(p, q) := l] else s.table), l)
  }

  /** EXACTLY WHAT AN OPTION DOES: folding catches constants and operands on one
      variable, hashing a recorded pair in either order; anything else is a new
      gate over the two operands, recorded exactly when hashing is on. */
  lemma GateExact(o: Options, s: State, a: Lit, b: Lit)
    ensures var (s', l) := GateAnd(o, s, a, b);
            var (p, q) := if LitLe(a, b) then (a, b) else (b, a);
            if o.fold && (a.node == 0 || b.node == 0 || a.node == b.node) then s' == s && l in [LIT_FALSE, a, b]
            else if o.strash && (p, q) in s.table then s' == s && l == s.table[(p, q)]
            else s'.nodes == s.nodes + [HAnd(p, q)] && l == Lit(|s.nodes|, false) &&
                 s'.table == if o.strash then s.table[(p, q) := l] else s.table
    ensures GateAnd(o, s, a, b) == GateAnd(o, s, b, a) || (o.fold && (a.node == 0 || b.node == 0 || a.node == b.node))
  {
    FoldExact(a, b);
    FoldExact(b, a);
    LitOrder(a, b);
  }

  lemma LitOrder(a: Lit, b: Lit)
    ensures LitLe(a, b) || LitLe(b, a)
    ensures LitLe(a, b) && LitLe(b, a) ==> a == b
  {
  }

  /** Folding and hashing both on, as the solver runs it. */
  function HashAnd(s: State, a: Lit, b: Lit): (State, Lit) { GateAnd(DEFAULT, s, a, b) }

  /** A stored gate: ordered operands, neither a constant nor on one variable. */
  predicate Normal(p: Lit, q: Lit, i: nat) { 0 < p.node < q.node < i }

  /** What every reachable arena keeps: the table is exactly the set of gates,
      every gate is in normal form, and no operand pair occurs twice. */
  ghost predicate Valid(s: State)
  {
    && |s.nodes| > 0 && s.nodes[0] == HConst
    && (forall i :: 0 < i < |s.nodes| ==> s.nodes[i] != HConst)
    && (forall i :: 0 <= i < |s.nodes| && s.nodes[i].HAnd? ==>
          Normal(s.nodes[i].x, s.nodes[i].y, i) &&
          (s.nodes[i].x, s.nodes[i].y) in s.table && s.table[(s.nodes[i].x, s.nodes[i].y)] == Lit(i, false))
    && (forall key :: key in s.table ==>
          !s.table[key].neg && s.table[key].node < |s.nodes| && s.nodes[s.table[key].node] == HAnd(key.0, key.1))
  }

  /** What every arena keeps under any options: operands before their gate,
      and a table that finds only gates with the operands asked for. */
  ghost predicate Sound(s: State)
  {
    && |s.nodes| > 0 && s.nodes[0] == HConst
    && (forall i :: 0 < i < |s.nodes| ==> s.nodes[i] != HConst)
    && (forall i :: 0 <= i < |s.nodes| && s.nodes[i].HAnd? ==> s.nodes[i].x.node < i && s.nodes[i].y.node < i)
    && (forall key :: key in s.table ==>
          !s.table[key].neg && s.table[key].node < |s.nodes| && s.nodes[s.table[key].node] == HAnd(key.0, key.1))
  }

  ghost predicate Kept(o: Options, s: State) { Sound(s) && (o == DEFAULT ==> Valid(s)) }

  class HashedAig {
    var nodes: seq<HNode>
    var strash: map<(Lit, Lit), Lit>
    var numInputs: nat
    const options: Options

    ghost function View(): State
      reads this
    {
      State(nodes, strash)
    }

    constructor (options: Options)
      ensures View() == State([HConst], map[]) && Kept(options, View()) && numInputs == 0 && this.options == options
    {
      nodes := [HConst];
      strash := map[];
      numInputs := 0;
      this.options := options;
    }

    method NewInput() returns (l: Lit)
      requires Kept(options, View())
      modifies this
      ensures Kept(options, View()) && nodes == old(nodes) + [HInput] && strash == old(strash)
      ensures l == Lit(|old(nodes)|, false) && numInputs == old(numInputs) + 1
    {
      l := Lit(|nodes|, false);
      nodes := nodes + [HInput];
      numInputs := numInputs + 1;
    }

    /** AND with constant folding and structural hashing, each as enabled. */
    method AndGate(a: Lit, b: Lit) returns (l: Lit)
      requires Kept(options, View()) && a.node < |nodes| && b.node < |nodes|
      modifies this
      ensures (View(), l) == GateAnd(options, old(View()), a, b)
      ensures Kept(options, View()) && numInputs == old(numInputs) && l.node < |nodes| && old(nodes) <= nodes
      ensures forall inp :: HLV(nodes, inp, l) == (HLV(old(nodes), inp, a) && HLV(old(nodes), inp, b))
    {
      hide Kept, HLV;
      GateKept(options, View(), a, b);
      if options.fold {
        if a == LIT_FALSE || b == LIT_FALSE || a == Not(b) { return LIT_FALSE; }
        if a == LIT_TRUE { return b; }
        if b == LIT_TRUE || a == b { return a; }
      }
      var x, y := a, b;
      if !LitLe(a, b) { x, y := b, a; }
      if options.strash && (x, y) in strash { return strash[(x, y)]; }
      l := Lit(|nodes|, false);
      nodes := nodes + [HAnd(x, y)];
      if options.strash { strash := strash[(x, y) := l]; }
    }
  }

  // ---------- what the arena computes ----------

  /** The inputs among the first i nodes; an input reads the bit of its rank. */
  function InputsBefore(nodes: seq<HNode>, i: nat): nat
    requires i <= |nodes|
  {
    if i == 0 then 0 else InputsBefore(nodes, i - 1) + if nodes[i - 1].HInput? then 1 else 0
  }

  ghost function HValue(nodes: seq<HNode>, inp: seq<bool>, i: nat): bool
    decreases i
  {
    if i >= |nodes| then false else
    match nodes[i]
    case HConst => false
    case HInput => InputBit(inp, InputsBefore(nodes, i))
    case HAnd(x, y) =>
      && x.node < i && HValue(nodes, inp, x.node) != x.neg
      && y.node < i && HValue(nodes, inp, y.node) != y.neg
  }

  ghost function HLV(nodes: seq<HNode>, inp: seq<bool>, l: Lit): bool { HValue(nodes, inp, l.node) != l.neg }

  lemma {:induction false} InputsBeforePrefix(o: seq<HNode>, n: seq<HNode>, i: nat)
    requires o <= n && i <= |o|
    ensures InputsBefore(n, i) == InputsBefore(o, i)
  {
    if i > 0 {
      InputsBeforePrefix(o, n, i - 1);
      assert n[i - 1] == o[i - 1];
    }
  }

  lemma {:induction false} HPrefixValue(o: seq<HNode>, n: seq<HNode>, inp: seq<bool>, i: nat)
    requires o <= n && i < |o|
    ensures HValue(n, inp, i) == HValue(o, inp, i)
    decreases i
  {
    assert n[i] == o[i];
    match n[i] {
      case HConst =>
      case HInput => InputsBeforePrefix(o, n, i);
      case HAnd(x, y) =>
        if x.node < i { HPrefixValue(o, n, inp, x.node); }
        if y.node < i { HPrefixValue(o, n, inp, y.node); }
    }
  }

  lemma FoldMeans(nodes: seq<HNode>, inp: seq<bool>, a: Lit, b: Lit)
    requires |nodes| > 0 && nodes[0] == HConst && Folded(a, b).Some?
    ensures HLV(nodes, inp, Folded(a, b).value) == (HLV(nodes, inp, a) && HLV(nodes, inp, b))
  {
    assert !HLV(nodes, inp, LIT_FALSE) && HLV(nodes, inp, LIT_TRUE);
  }

  /** UNDER ANY OPTIONS an AND is the conjunction, and keeps every value. */
  lemma GateMeans(o: Options, s: State, a: Lit, b: Lit, inp: seq<bool>)
    requires Sound(s) && a.node < |s.nodes| && b.node < |s.nodes|
    ensures var (s', l) := GateAnd(o, s, a, b);
            && Sound(s') && s.nodes <= s'.nodes && l.node < |s'.nodes|
            && HLV(s'.nodes, inp, l) == (HLV(s.nodes, inp, a) && HLV(s.nodes, inp, b))
  {
    hide GateAnd, Sound, HLV, Folded;
    GateSound(o, s, a, b);
    GateCases(o, s, a, b);
    var (s', l) := GateAnd(o, s, a, b);
    if o.fold && Folded(a, b).Some? {
      SoundHead(s);
      FoldMeans(s.nodes, inp, a, b);
    } else {
      PairMeans(s', a, b, l, inp);
      HPrefixValue(s.nodes, s'.nodes, inp, a.node);
      HPrefixValue(s.nodes, s'.nodes, inp, b.node);
      LitKept(s.nodes, s'.nodes, inp, a);
      LitKept(s.nodes, s'.nodes, inp, b);
    }
  }

  lemma SoundHead(s: State)
    requires Sound(s)
    ensures |s.nodes| > 0 && s.nodes[0] == HConst
  {
  }

  lemma LitKept(o: seq<HNode>, n: seq<HNode>, inp: seq<bool>, l: Lit)
    requires HValue(n, inp, l.node) == HValue(o, inp, l.node)
    ensures HLV(n, inp, l) == HLV(o, inp, l)
  {
  }

  /** Without a fold the result is a gate over the two operands. */
  lemma GateCases(o: Options, s: State, a: Lit, b: Lit)
    requires Sound(s)
    ensures var (s', l) := GateAnd(o, s, a, b);
            if o.fold && Folded(a, b).Some? then s' == s && l == Folded(a, b).value
            else !l.neg && l.node < |s'.nodes| && s'.nodes[l.node] == HAnd(First(a, b), Second(a, b))
  {
    hide Folded, First, Second;
  }

  /** A gate over two literals, in either order, is their conjunction. */
  lemma PairMeans(s: State, a: Lit, b: Lit, l: Lit, inp: seq<bool>)
    requires Sound(s) && !l.neg && l.node < |s.nodes| && s.nodes[l.node] == HAnd(First(a, b), Second(a, b))
    ensures HLV(s.nodes, inp, l) == (HLV(s.nodes, inp, a) && HLV(s.nodes, inp, b))
  {
    hide LitLe;
  }

  lemma GateSound(o: Options, s: State, a: Lit, b: Lit)
    requires Sound(s) && a.node < |s.nodes| && b.node < |s.nodes|
    ensures var (s', l) := GateAnd(o, s, a, b); Sound(s') && s.nodes <= s'.nodes && l.node < |s'.nodes|
  {
    hide LitLe;
  }

  /** So an AND keeps the arena and is the conjunction under every input. */
  lemma GateKept(o: Options, s: State, a: Lit, b: Lit)
    requires Kept(o, s) && a.node < |s.nodes| && b.node < |s.nodes|
    ensures var (s', l) := GateAnd(o, s, a, b);
            && Kept(o, s') && s.nodes <= s'.nodes && l.node < |s'.nodes|
            && forall inp :: HLV(s'.nodes, inp, l) == (HLV(s.nodes, inp, a) && HLV(s.nodes, inp, b))
  {
    hide GateAnd, Sound, Valid, HLV;
    if o == DEFAULT { HashAndValid(s, a, b); }
    GateMeans(o, s, a, b, []);
    forall inp
      ensures HLV(GateAnd(o, s, a, b).0.nodes, inp, GateAnd(o, s, a, b).1) == (HLV(s.nodes, inp, a) && HLV(s.nodes, inp, b))
    {
      GateMeans(o, s, a, b, inp);
    }
  }

  /** Every AND keeps the arena hash-consed. */
  lemma HashAndValid(s: State, a: Lit, b: Lit)
    requires Valid(s) && a.node < |s.nodes| && b.node < |s.nodes|
    ensures Valid(HashAnd(s, a, b).0) && HashAnd(s, a, b).1.node < |HashAnd(s, a, b).0.nodes|
    ensures s.nodes <= HashAnd(s, a, b).0.nodes
  {
    if Folded(a, b).None? {
      var p, q := First(a, b), Second(a, b);
      OperandsNormal(a, b, |s.nodes|);
      var s' := HashAnd(s, a, b).0;
      if (p, q) !in s.table {
        forall i | 0 <= i < |s'.nodes| && s'.nodes[i].HAnd?
          ensures Normal(s'.nodes[i].x, s'.nodes[i].y, i) && (s'.nodes[i].x, s'.nodes[i].y) in s'.table
          ensures s'.table[(s'.nodes[i].x, s'.nodes[i].y)] == Lit(i, false)
        {
        }
      }
    }
  }

  lemma OperandsNormal(a: Lit, b: Lit, n: nat)
    requires Folded(a, b).None? && a.node < n && b.node < n
    ensures Normal(First(a, b), Second(a, b), n)
  {
    assert a != LIT_FALSE && a != LIT_TRUE && b != LIT_FALSE && b != LIT_TRUE;
  }

  // ---------- replaying a raw arena ----------

  ghost function ReplayStep(o: Options, s: State, image: Word, nd: Node): (State, Lit)
    requires InPlace(nd, |image|)
  {
    match nd
    case False => (s, LIT_FALSE)
    case Input(k) => (s.(nodes := s.nodes + [HInput]), Lit(|s.nodes|, false))
    case And(x, y) => GateAnd(o, s, MapLit(image, x), MapLit(image, y))
  }

  /** The raw arena rebuilt through the AND of the options, node by node. */
  ghost function Replayed(o: Options, ns: Nodes, n: nat): (r: (State, Word))
    requires n <= |ns| && forall i :: 0 <= i < |ns| ==> InPlace(ns[i], i)
    ensures |r.1| == n
  {
    if n == 0 then (State([HConst], map[]), []) else
    var (s, image) := Replayed(o, ns, n - 1);
    var (s', l) := ReplayStep(o, s, image, ns[n - 1]);
    (s', image + [l])
  }

  function Erased(nd: Node): HNode
  {
    match nd
    case False => HConst
    case Input(_) => HInput
    case And(x, y) => HAnd(x, y)
  }

  function AllErased(ns: Nodes): (nodes: seq<HNode>)
    ensures |nodes| == |ns| && forall i :: 0 <= i < |ns| ==> nodes[i] == Erased(ns[i])
  {
    seq(|ns|, i requires 0 <= i < |ns| => Erased(ns[i]))
  }

  /** The replay so far computes what the raw arena does. */
  ghost predicate Computes(ns: Nodes, n: nat, inp: seq<bool>, s: State, image: Word)
    requires n <= |ns|
  {
    && Sound(s) && |image| == n && InputsBefore(s.nodes, |s.nodes|) == InputsBefore(AllErased(ns), n)
    && forall i :: 0 <= i < n ==>
         image[i].node < |s.nodes| && HLV(s.nodes, inp, image[i]) == HValue(AllErased(ns), inp, i)
  }

  /** A step that keeps the arena's prefix and whose literal has the node's
      value. */
  lemma ComputesGrow(ns: Nodes, n: nat, inp: seq<bool>, s: State, image: Word, s': State, l: Lit)
    requires n < |ns| && Computes(ns, n, inp, s, image) && Sound(s') && s.nodes <= s'.nodes
    requires InputsBefore(s'.nodes, |s'.nodes|) == InputsBefore(AllErased(ns), n + 1)
    requires l.node < |s'.nodes| && HLV(s'.nodes, inp, l) == HValue(AllErased(ns), inp, n)
    ensures Computes(ns, n + 1, inp, s', image + [l])
  {
    hide Sound, AllErased, HValue;
    forall i | 0 <= i < n
      ensures image[i].node < |s'.nodes| && HLV(s'.nodes, inp, image[i]) == HValue(AllErased(ns), inp, i)
    {
      HPrefixValue(s.nodes, s'.nodes, inp, image[i].node);
    }
  }

  lemma ReplayStepComputes(o: Options, ns: Nodes, n: nat, inp: seq<bool>, s: State, image: Word)
    requires Wf(ns) && n < |ns| && Computes(ns, n, inp, s, image)
    requires InPlace(ns[n], n)
    ensures var (s', l) := ReplayStep(o, s, image, ns[n]); Computes(ns, n + 1, inp, s', image + [l])
  {
    hide Wf;
    var (s', l) := ReplayStep(o, s, image, ns[n]);
    match ns[n] {
      case False =>
      case Input(_) => InputsBeforePrefix(s.nodes, s'.nodes, |s.nodes|);
      case And(x, y) => ReplayGate(o, ns, n, inp, s, image, x, y);
    }
    ComputesGrow(ns, n, inp, s, image, s', l);
  }

  lemma ReplayGate(o: Options, ns: Nodes, n: nat, inp: seq<bool>, s: State, image: Word, x: Lit, y: Lit)
    requires n < |ns| && Computes(ns, n, inp, s, image) && ns[n] == And(x, y) && InPlace(ns[n], n)
    ensures var (s', l) := GateAnd(o, s, MapLit(image, x), MapLit(image, y));
            && Sound(s') && s.nodes <= s'.nodes && l.node < |s'.nodes|
            && InputsBefore(s'.nodes, |s'.nodes|) == InputsBefore(AllErased(ns), n + 1)
            && HLV(s'.nodes, inp, l) == HValue(AllErased(ns), inp, n)
  {
    hide Sound, GateAnd;
    var a, b := MapLit(image, x), MapLit(image, y);
    GateMeans(o, s, a, b, inp);
    GateInputs(o, s, a, b);
  }

  lemma GateInputs(o: Options, s: State, a: Lit, b: Lit)
    ensures var s' := GateAnd(o, s, a, b).0; InputsBefore(s'.nodes, |s'.nodes|) == InputsBefore(s.nodes, |s.nodes|)
  {
    var s' := GateAnd(o, s, a, b).0;
    InputsBeforePrefix(s.nodes, s'.nodes, |s.nodes|);
  }

  lemma {:induction false} ReplayComputes(o: Options, ns: Nodes, n: nat, inp: seq<bool>)
    requires Wf(ns) && n <= |ns|
    ensures Computes(ns, n, inp, Replayed(o, ns, n).0, Replayed(o, ns, n).1)
  {
    hide Computes, ReplayStep;
    if n > 0 {
      ReplayComputes(o, ns, n - 1, inp);
      assert InPlace(ns[n - 1], n - 1);
      ReplayStepComputes(o, ns, n - 1, inp, Replayed(o, ns, n - 1).0, Replayed(o, ns, n - 1).1);
    } else {
      ReplayNone(ns, inp);
    }
  }

  lemma ReplayNone(ns: Nodes, inp: seq<bool>)
    ensures Computes(ns, 0, inp, State([HConst], map[]), [])
  {
  }

  /** THE OPTIONS ARE INVISIBLE: the same gates asked for under any two options
      give literals that compute the same under every input. */
  lemma OptionsInvisible(o: Options, o': Options, ns: Nodes, inp: seq<bool>, i: nat)
    requires Wf(ns) && i < |ns|
    ensures var (s, image) := Replayed(o, ns, |ns|);
            var (s', image') := Replayed(o', ns, |ns|);
            HLV(s.nodes, inp, image[i]) == HLV(s'.nodes, inp, image'[i]) == HValue(AllErased(ns), inp, i)
  {
    ReplayComputes(o, ns, |ns|, inp);
    ReplayComputes(o', ns, |ns|, inp);
  }

  // ---------- the hints ----------

  /** The hint pass: its own literal map, node count and table from operand
      pair to the source node that first built it. */
  datatype Pass = Pass(hints: seq<nat>, image: Word, outLen: nat, table: map<(Lit, Lit), nat>)

  predicate PassWf(p: Pass)
  {
    && |p.hints| == |p.image|
    && forall key :: key in p.table ==> p.table[key] < |p.image|
  }

  method StrashHints(ns: Nodes) returns (hints: seq<nat>)
    requires Wf(ns)
    ensures hints == HintPass(ns, |ns|).hints
  {
    hints := [];
    var image: Word, outLen, table: map<(Lit, Lit), nat> := [], 1, map[];
    for i := 0 to |ns|
      invariant Pass(hints, image, outLen, table) == HintPass(ns, i)
    {
      assert InPlace(ns[i], i);
      var lit, hint := LIT_FALSE, i;
      match ns[i] {
        case False =>
        case Input(_) =>
          lit := Lit(outLen, false);
          outLen := outLen + 1;
        case And(x, y) =>
          var rx, ry := MapLit(image, x), MapLit(image, y);
          if rx == LIT_FALSE || ry == LIT_FALSE || rx == Not(ry) {
            lit := LIT_FALSE;
          } else if rx == LIT_TRUE {
            lit := ry;
          } else if ry == LIT_TRUE || rx == ry {
            lit := rx;
          } else {
            var p, q := rx, ry;
            if !LitLe(rx, ry) { p, q := ry, rx; }
            if (p, q) in table {
              lit, hint := image[table[(p, q)]], table[(p, q)];
            } else {
              table := table[(p, q) := i];
              lit := Lit(outLen, false);
              outLen := outLen + 1;
            }
          }
      }
      image := image + [lit];
      hints := hints + [hint];
    }
  }

  ghost function HintStep(p: Pass, nd: Node): (r: Pass)
    requires PassWf(p) && InPlace(nd, |p.image|)
    ensures PassWf(r) && |r.image| == |p.image| + 1 && p.hints <= r.hints
  {
    var i := |p.image|;
    match nd
    case False => Pass(p.hints + [i], p.image + [LIT_FALSE], p.outLen, p.table)
    case Input(_) => Pass(p.hints + [i], p.image + [Lit(p.outLen, false)], p.outLen + 1, p.table)
    case And(x, y) =>
      var rx, ry := MapLit(p.image, x), MapLit(p.image, y);
      match Folded(rx, ry)
      case Some(l) => Pass(p.hints + [i], p.image + [l], p.outLen, p.table)
      case None =>
        var key := (First(rx, ry), Second(rx, ry));
        if key in p.table then Pass(p.hints + [p.table[key]], p.image + [p.image[p.table[key]]], p.outLen, p.table)
        else Pass(p.hints + [i], p.image + [Lit(p.outLen, false)], p.outLen + 1, p.table[key := i])
  }

  ghost function HintPass(ns: Nodes, n: nat): (p: Pass)
    requires n <= |ns| && forall i :: 0 <= i < |ns| ==> InPlace(ns[i], i)
    ensures PassWf(p) && |p.image| == n
  {
    if n == 0 then Pass([], [], 1, map[]) else HintStep(HintPass(ns, n - 1), ns[n - 1])
  }

  // ---------- agreement ----------

  /** Two arenas are the same up to the numbers on the inputs. */
  predicate SameGates(out: Nodes, nodes: seq<HNode>)
  {
    |out| == |nodes| && forall i :: 0 <= i < |out| ==> Erased(out[i]) == nodes[i]
  }

  /** The pass, the compaction along its hints and the replay in lockstep. */
  ghost predicate Lockstep(p: Pass, out: Nodes, image: Word, s: State)
  {
    && PassWf(p) && p.image == image && p.outLen == |out| && SameGates(out, s.nodes)
    && Valid(s) && AllIn(out, image)
    && p.table.Keys == s.table.Keys
    && forall key :: key in p.table ==> image[p.table[key]] == s.table[key]
  }

  lemma LockstepStep(p: Pass, out: Nodes, image: Word, s: State, nd: Node)
    requires Lockstep(p, out, image, s) && InPlace(nd, |image|)
    ensures var p' := HintStep(p, nd);
            var (out', l) := NodeStep(out, image, nd, p'.hints[|image|]);
            var (s', h) := ReplayStep(DEFAULT, s, image, nd);
            l == h && Lockstep(p', out', image + [l], s')
  {
    LockstepBounds(p, out, image, s);
    hide Lockstep, Valid, SameGates;
    match nd {
      case False => LockstepSame(p, out, image, s, LIT_FALSE, |image|);
      case Input(k) => LockstepInput(p, out, image, s, k);
      case And(x, y) => LockstepGate(p, out, image, s, x, y);
    }
  }

  lemma LockstepGate(p: Pass, out: Nodes, image: Word, s: State, x: Lit, y: Lit)
    requires Lockstep(p, out, image, s) && InPlace(And(x, y), |image|)
    ensures var p' := HintStep(p, And(x, y));
            var (out', l) := NodeStep(out, image, And(x, y), p'.hints[|image|]);
            var (s', h) := ReplayStep(DEFAULT, s, image, And(x, y));
            l == h && Lockstep(p', out', image + [l], s')
  {
    LockstepBounds(p, out, image, s);
    hide Lockstep, Valid, SameGates, LitLe, First, Second;
    var rx, ry := MapLit(image, x), MapLit(image, y);
    assert In(out, image[x.node]) && In(out, image[y.node]);
    var key := (First(rx, ry), Second(rx, ry));
    if Folded(rx, ry).Some? {
      LockstepSame(p, out, image, s, Folded(rx, ry).value, |image|);
    } else if key in s.table {
      LockstepHit(p, out, image, s, key);
      LockstepSame(p, out, image, s, s.table[key], p.table[key]);
    } else {
      LockstepMiss(p, out, image, s, rx, ry);
    }
  }

  lemma LockstepBounds(p: Pass, out: Nodes, image: Word, s: State)
    requires Lockstep(p, out, image, s)
    ensures |out| == |s.nodes| == p.outLen && |out| > 0 && AllIn(out, image) && p.image == image
    ensures p.table.Keys == s.table.Keys
    ensures forall key :: key in s.table ==> s.table[key].node < |out|
  {
  }

  /** A node that adds no gate: a fold, a constant or a hit. */
  lemma LockstepSame(p: Pass, out: Nodes, image: Word, s: State, l: Lit, hint: nat)
    requires Lockstep(p, out, image, s) && In(out, l)
    ensures Lockstep(Pass(p.hints + [hint], image + [l], p.outLen, p.table), out, image + [l], s)
  {
  }

  lemma LockstepInput(p: Pass, out: Nodes, image: Word, s: State, k: nat)
    requires Lockstep(p, out, image, s)
    ensures var l := Lit(|out|, false);
            Lockstep(Pass(p.hints + [|image|], image + [l], p.outLen + 1, p.table),
                     out + [Input(k)], image + [l], s.(nodes := s.nodes + [HInput]))
  {
  }

  /** A known pair: the hint names a source node whose gate matches. */
  lemma LockstepHit(p: Pass, out: Nodes, image: Word, s: State, key: (Lit, Lit))
    requires Lockstep(p, out, image, s) && key in s.table
    ensures key in p.table && HintMatches(out, image[p.table[key]], key.0, key.1)
    ensures image[p.table[key]] == s.table[key]
  {
    var g := s.table[key].node;
    assert Erased(out[g]) == s.nodes[g];
  }

  lemma HashMiss(s: State, a: Lit, b: Lit)
    requires Folded(a, b).None? && (First(a, b), Second(a, b)) !in s.table
    ensures var l := Lit(|s.nodes|, false);
            HashAnd(s, a, b) == (State(s.nodes + [HAnd(First(a, b), Second(a, b))], s.table[(First(a, b), Second(a, b)) := l]), l)
  {
  }

  /** A new pair: all three append the same gate and record it. */
  lemma LockstepMiss(p: Pass, out: Nodes, image: Word, s: State, rx: Lit, ry: Lit)
    requires Lockstep(p, out, image, s) && Folded(rx, ry).None? && In(out, rx) && In(out, ry)
    requires (First(rx, ry), Second(rx, ry)) !in s.table
    ensures var x, y, l := First(rx, ry), Second(rx, ry), Lit(|out|, false);
            Lockstep(Pass(p.hints + [|image|], image + [l], p.outLen + 1, p.table[(x, y) := |image|]),
                     out + [And(x, y)], image + [l], HashAnd(s, rx, ry).0)
  {
    hide HashAnd, Folded, First, Second, Valid, LitLe;
    assert Valid(HashAnd(s, rx, ry).0) by { HashAndValid(s, rx, ry); }
    HashMiss(s, rx, ry);
    var x, y, l := First(rx, ry), Second(rx, ry), Lit(|out|, false);
    MissTables(p.table, s.table, image, (x, y), l);
  }

  /** Both tables record the new pair, at the new node and its literal. */
  lemma MissTables(mine: map<(Lit, Lit), nat>, theirs: map<(Lit, Lit), Lit>, image: Word, pair: (Lit, Lit), l: Lit)
    requires mine.Keys == theirs.Keys && forall key :: key in mine ==> mine[key] < |image| && image[mine[key]] == theirs[key]
    ensures var mine', theirs' := mine[pair := |image|], theirs[pair := l];
            && mine'.Keys == theirs'.Keys
            && forall key :: key in mine' ==> mine'[key] < |image| + 1 && (image + [l])[mine'[key]] == theirs'[key]
  {
    var mine', theirs' := mine[pair := |image|], theirs[pair := l];
    assert mine'.Keys == mine.Keys + {pair} == theirs'.Keys;
    forall key | key in mine' ensures mine'[key] < |image| + 1 && (image + [l])[mine'[key]] == theirs'[key] {
      if key != pair { assert key in mine; }
    }
  }

  lemma {:induction false} LockstepAlways(ns: Nodes, hints: seq<nat>, n: nat)
    requires Wf(ns) && n <= |ns| && HintPass(ns, n).hints <= hints
    ensures Compacted(ns, hints, n).1 == Replayed(DEFAULT, ns, n).1
    ensures Lockstep(HintPass(ns, n), Compacted(ns, hints, n).0, Compacted(ns, hints, n).1, Replayed(DEFAULT, ns, n).0)
  {
    hide Lockstep, HintStep, NodeStep, ReplayStep;
    if n > 0 {
      assert InPlace(ns[n - 1], n - 1);
      assert HintPass(ns, n - 1).hints <= HintPass(ns, n).hints;
      LockstepAlways(ns, hints, n - 1);
      LockstepImage(HintPass(ns, n - 1), Compacted(ns, hints, n - 1).0, Compacted(ns, hints, n - 1).1,
                    Replayed(DEFAULT, ns, n - 1).0);
      assert hints[n - 1] == HintPass(ns, n).hints[n - 1] == HintAt(hints, n - 1);
      LockstepStep(HintPass(ns, n - 1), Compacted(ns, hints, n - 1).0, Compacted(ns, hints, n - 1).1,
                   Replayed(DEFAULT, ns, n - 1).0, ns[n - 1]);
    } else {
      LockstepNone();
    }
  }

  lemma LockstepImage(p: Pass, out: Nodes, image: Word, s: State)
    requires Lockstep(p, out, image, s)
    ensures p.image == image && |p.hints| == |image|
  {
  }

  lemma LockstepNone()
    ensures Lockstep(Pass([], [], 1, map[]), [False], [], State([HConst], map[]))
  {
  }

  /** Compaction along the hints of the hash pass is the hash-consed replay,
      gate for gate and literal for literal. */
  lemma CompactionIsReplay(ns: Nodes)
    requires Wf(ns)
    ensures var hints := HintPass(ns, |ns|).hints;
            && SameGates(Compacted(ns, hints, |ns|).0, Replayed(DEFAULT, ns, |ns|).0.nodes)
            && Compacted(ns, hints, |ns|).1 == Replayed(DEFAULT, ns, |ns|).1
            && Valid(Replayed(DEFAULT, ns, |ns|).0)
  {
    LockstepAlways(ns, HintPass(ns, |ns|).hints, |ns|);
  }

  /** In a reachable arena no two gates have the same operands. */
  lemma NoDuplicateGates(s: State, i: nat, j: nat)
    requires Valid(s) && i < |s.nodes| && j < |s.nodes|
    requires s.nodes[i].HAnd? && s.nodes[i] == s.nodes[j]
    ensures i == j
  {
    assert s.table[(s.nodes[i].x, s.nodes[i].y)] == Lit(i, false);
    assert s.table[(s.nodes[j].x, s.nodes[j].y)] == Lit(j, false);
  }
}
