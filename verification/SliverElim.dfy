/** The read-over-write elimination of an extended query, written out: stores
    become conditionals, base reads and calls become fresh variables, and every
    pair of table entries gets its congruence root. */
module SliverElim {
  import opened Wrappers
  import opened BvOps
  import opened Dag
  import opened Sliver
  import T = TermCheck

  /** An extended query on its own. */
  datatype Goal = Goal(e: seq<ExtNode>, bits: seq<bool>, side: seq<nat>, roots: seq<nat>)

  function Empty(g: Goal): Input { Input([], g.bits, g.side, [], [], [], [], [], [], g.bits, []) }

  // ---------- table lookups ----------

  /** The first read entry from p on for an array at an index node. */
  function FindRead(x: Input, aid: nat, xj: nat, p: nat): (r: nat)
    requires p <= Reads(x)
    ensures p <= r <= Reads(x) && (r < Reads(x) ==> RArray(x, r) == aid && RIndex(x, r) == xj)
    ensures forall q :: p <= q < r ==> !(RArray(x, q) == aid && RIndex(x, q) == xj)
    decreases Reads(x) - p
  {
    if p == Reads(x) || (RArray(x, p) == aid && RIndex(x, p) == xj) then p else FindRead(x, aid, xj, p + 1)
  }

  predicate CallIs(x: Input, p: nat, fid: nat, args: seq<nat>)
    requires p < Calls(x)
  {
    CFunc(x, p) == fid && ArgsInRange(x, p) && CArgs(x, p) == args
  }

  /** The first call entry from p on for a function on its argument nodes. */
  function FindCall(x: Input, fid: nat, args: seq<nat>, p: nat): (r: nat)
    requires p <= Calls(x)
    ensures p <= r <= Calls(x) && (r < Calls(x) ==> CallIs(x, r, fid, args))
    ensures forall q :: p <= q < r ==> !CallIs(x, q, fid, args)
    decreases Calls(x) - p
  {
    if p == Calls(x) || CallIs(x, p, fid, args) then p else FindCall(x, fid, args, p + 1)
  }

  // ---------- nodes ----------

  /** The variable of an array at an index node: listed, or a fresh byte. */
  function ReadVar(x: Input, aid: nat, xj: nat): (Input, nat)
  {
    var p := FindRead(x, aid, xj, 0);
    if p < Reads(x) then (x, RVar(x, p)) else (x.(t := x.t + [Var(8)], rtab := x.rtab + [|x.t|, aid, xj]), |x.t|)
  }

  /** The bits of a constant extended node. */
  function ConstBits(x: Input, k: nat): Option<seq<bool>>
  {
    if k < |x.e| && x.e[k].Core? && x.e[k].nd.Const? && x.e[k].nd.s + x.e[k].nd.w <= |x.ebits|
      then Some(x.ebits[x.e[k].nd.s..x.e[k].nd.s + x.e[k].nd.w]) else None
  }

  /** A read through k stores: one whose constant index is the constant read
      index decides it, one whose constant index differs is skipped, any other
      becomes a conditional; at the bottom stands the base array's variable. */
  function ReadThrough(x: Input, aid: nat, j: nat, off: nat, k: nat): (Input, nat)
    decreases k
  {
    if k == 0 then ReadVar(x, aid, T.MapAt(x.m, j)) else
    var at, want := ConstBits(x, SideAt(x.eside, off)), ConstBits(x, j);
    var stored := T.MapAt(x.m, SideAt(x.eside, off + 1));
    if at.Some? && want.Some? then
      if at == want then (x, stored) else ReadThrough(x, aid, j, off + 2, k - 1)
    else
      var (y, rest) := ReadThrough(x, aid, j, off + 2, k - 1);
      var c := |y.t|;
      (y.(t := y.t + [Cmp(Eq, T.MapAt(x.m, SideAt(x.eside, off)), T.MapAt(x.m, j)), Ite(c, stored, rest)]), c + 1)
  }

  /** The variable of a call: listed, or fresh. */
  function CallVar(x: Input, fid: nat, w: nat, args: seq<nat>): (Input, nat)
  {
    var p := FindCall(x, fid, args, 0);
    if p < Calls(x) then (x, CVar(x, p))
    else (x.(t := x.t + [Var(w)], ctab := x.ctab + [|x.t|, fid, |x.cargs|, |args|], cargs := x.cargs + args), |x.t|)
  }

  /** The core node an extended node becomes, after whatever it needs. */
  function Image(x: Input, node: ExtNode): (Input, nat)
  {
    match node
    case Core(nd) => (x.(t := x.t + [T.MapNode(x.m, nd)]), |x.t|)
    case Select(aid, j, s, n) => ReadThrough(x, aid, j, s, n)
    case Call(fid, w, s, n) => CallVar(x, fid, w, ArgImages(x, s, n))
  }

  function AddNode(x: Input, node: ExtNode): Input
  {
    var (y, d) := Image(x, node);
    y.(e := y.e + [node], m := y.m + [d])
  }

  function AddNodes(g: Goal, n: nat): Input
    requires n <= |g.e|
  {
    if n == 0 then Empty(g) else AddNode(AddNodes(g, n - 1), g.e[n - 1])
  }

  // ---------- congruence roots ----------

  /** ante implies vp = vq, as the last node. */
  function Clause(t: Dag, ante: nat, vp: nat, vq: nat): Dag
  {
    t + [Not(ante), Cmp(Eq, vp, vq), BoolOr(|t|, |t| + 1)]
  }

  /** The conjunction of k argument equalities, as the last node. */
  function Equalities(t: Dag, cargs: seq<nat>, sp: nat, sq: nat, k: nat): (t': Dag)
    requires k >= 1 && sp + k <= |cargs| && sq + k <= |cargs|
    ensures t <= t' && |t| < |t'|
  {
    var eq := Cmp(Eq, cargs[sp + k - 1], cargs[sq + k - 1]);
    if k == 1 then t + [eq] else
      var t' := Equalities(t, cargs, sp, sq, k - 1);
      t' + [eq, BoolAnd(|t'| - 1, |t'|)]
  }

  /** Both entries are in the table, calls with arguments in range and one
      arity. */
  predicate Paired(x: Input, o: Owed)
  {
    if o.OwedRead? then o.p < Reads(x) && o.q < Reads(x)
    else o.p < Calls(x) && o.q < Calls(x) && ArgsInRange(x, o.p) && ArgsInRange(x, o.q) && CArity(x, o.p) == CArity(x, o.q)
  }

  /** The congruence root of a pair of entries, as the last node. */
  function OwedClause(x: Input, o: Owed): (t': Dag)
    requires Paired(x, o)
    ensures x.t <= t' && |x.t| < |t'|
  {
    match o
    case OwedRead(p, q) =>
      Clause(x.t + [Cmp(Eq, RIndex(x, p), RIndex(x, q))], |x.t|, RVar(x, p), RVar(x, q))
    case OwedCall(p, q) =>
      if CArity(x, p) == 0 then x.t + [Cmp(Eq, CVar(x, p), CVar(x, q))] else
      var t' := Equalities(x.t, x.cargs, CFirst(x, p), CFirst(x, q), CArity(x, p));
      Clause(t', |t'| - 1, CVar(x, p), CVar(x, q))
  }

  /** The clauses of a list of pairs, appended in order. */
  function AddRoots(x: Input, os: seq<Owed>): (y: Input)
    ensures x.t <= y.t && y == x.(t := y.t, troots := y.troots)
  {
    if os == [] then x else
    var y := AddRoots(x, os[..|os| - 1]);
    if !Paired(y, os[|os| - 1]) then y else
    var t' := OwedClause(y, os[|os| - 1]);
    y.(t := t', troots := y.troots + [|t'| - 1])
  }

  /** The nodes, with the roots' images. */
  function Rooted(g: Goal): (x: Input)
    ensures x.eroots == g.roots && |x.troots| == |g.roots|
    ensures forall k :: 0 <= k < |g.roots| ==> x.troots[k] == T.MapAt(x.m, g.roots[k])
  {
    var x := AddNodes(g, |g.e|);
    x.(eroots := g.roots, troots := seq(|g.roots|, k requires 0 <= k < |g.roots| => T.MapAt(x.m, g.roots[k])))
  }

  /** THE ELIMINATION of an extended query: its nodes in order, its roots'
      images, and a clause for every pair that owes one. */
  function Eliminated(g: Goal): Input { AddRoots(Rooted(g), AllOwed(Rooted(g))) }
}
