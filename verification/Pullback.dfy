/** The extended model read off a core model: finite tables of numbers, built
    entry by entry, and exactly when they lose nothing. */
module Pullback {
  import opened Wrappers
  import opened Bits
  import opened BvOps
  import opened Dag
  import opened Sliver
  import opened SliverSound
  import opened ModelInputs
  import AigGraph
  import T = TermCheck

  // ---------- tables filled in order ----------

  /** The table after the first k insertions, later ones overwriting. */
  ghost function Inserted<K>(keys: seq<K>, vals: seq<nat>, k: nat): map<K, nat>
    requires k <= |keys| == |vals|
  {
    if k == 0 then map[] else Inserted(keys, vals, k - 1)[keys[k - 1] := vals[k - 1]]
  }

  /** Insertion k finds its key with another value. */
  ghost predicate Overwrites<K>(keys: seq<K>, vals: seq<nat>, k: nat)
    requires k < |keys| == |vals|
  {
    var before := Inserted(keys, vals, k);
    keys[k] in before && before[keys[k]] != vals[k]
  }

  /** Insertions p and q have one key and two values. */
  ghost predicate Clash<K>(keys: seq<K>, vals: seq<nat>, p: nat, q: nat)
  {
    p < q < |keys| == |vals| && keys[p] == keys[q] && vals[p] != vals[q]
  }

  /** The last insertion of a key before k is what the table holds. */
  lemma {:induction false} LastInsertion<K>(keys: seq<K>, vals: seq<nat>, k: nat, key: K) returns (p: nat)
    requires k <= |keys| == |vals| && key in Inserted(keys, vals, k)
    ensures p < k && keys[p] == key && vals[p] == Inserted(keys, vals, k)[key]
    ensures forall r :: p < r < k ==> keys[r] != key
    decreases k
  {
    if keys[k - 1] == key { p := k - 1; } else { p := LastInsertion(keys, vals, k - 1, key); }
  }

  lemma {:induction false} InsertedHas<K>(keys: seq<K>, vals: seq<nat>, k: nat, p: nat)
    requires p < k <= |keys| == |vals|
    ensures keys[p] in Inserted(keys, vals, k)
    decreases k
  {
    if p < k - 1 { InsertedHas(keys, vals, k - 1, p); }
  }

  lemma {:induction false} ClashOverwrites<K>(keys: seq<K>, vals: seq<nat>, p: nat, q: nat)
    requires Clash(keys, vals, p, q)
    ensures exists k: nat :: p < k <= q && Overwrites(keys, vals, k)
    decreases q
  {
    InsertedHas(keys, vals, q, p);
    var r := LastInsertion(keys, vals, q, keys[q]);
    if vals[r] != vals[q] {
      assert Overwrites(keys, vals, q);
    } else {
      ClashOverwrites(keys, vals, p, r);
    }
  }

  ghost predicate AnyClash<K>(keys: seq<K>, vals: seq<nat>) { exists p: nat, q: nat :: Clash(keys, vals, p, q) }

  ghost predicate AnyOverwrite<K>(keys: seq<K>, vals: seq<nat>)
    requires |keys| == |vals|
  {
    exists k: nat :: k < |keys| && Overwrites(keys, vals, k)
  }

  /** Every insertion is in the final table, and nothing else is. */
  ghost predicate Keeps<K>(table: map<K, nat>, keys: seq<K>, vals: seq<nat>)
    requires |keys| == |vals|
  {
    && (forall p :: 0 <= p < |keys| ==> keys[p] in table && table[keys[p]] == vals[p])
    && (forall key :: key in table ==> key in keys)
  }

  /** EXACTLY WHEN A TABLE LOSES AN ENTRY: some insertion overwrites another
      value, which is when two insertions have one key and two values, which is
      when the final table does not hold them all. */
  lemma TableExact<K>(keys: seq<K>, vals: seq<nat>)
    requires |keys| == |vals|
    ensures AnyOverwrite(keys, vals) <==> AnyClash(keys, vals)
    ensures Keeps(Inserted(keys, vals, |keys|), keys, vals) <==> !AnyClash(keys, vals)
  {
    var table := Inserted(keys, vals, |keys|);
    if AnyOverwrite(keys, vals) {
      var k: nat :| k < |keys| && Overwrites(keys, vals, k);
      var p := LastInsertion(keys, vals, k, keys[k]);
      assert Clash(keys, vals, p, k);
    }
    if AnyClash(keys, vals) {
      var p: nat, q: nat :| Clash(keys, vals, p, q);
      ClashOverwrites(keys, vals, p, q);
    } else {
      forall p: nat | p < |keys| ensures keys[p] in table && table[keys[p]] == vals[p] {
        InsertedHas(keys, vals, |keys|, p);
        var r := LastInsertion(keys, vals, |keys|, keys[p]);
        if r != p { assert !Clash(keys, vals, p, r); }
      }
    }
    forall key | key in table ensures key in keys { var p := LastInsertion(keys, vals, |keys|, key); }
  }

  // ---------- numbers the tables hold ----------

  /** The number of a word's low 128 bits. */
  function Cut(v: Bv): nat { ToNat(if |v| > MODEL_BITS then v[..MODEL_BITS] else v) }

  function Cuts(vs: seq<Bv>): (ns: seq<nat>)
    ensures |ns| == |vs| && forall l :: 0 <= l < |vs| ==> ns[l] == Cut(vs[l])
  {
    if vs == [] then [] else Cuts(vs[..|vs| - 1]) + [Cut(vs[|vs| - 1])]
  }

  lemma CutIsModulo(v: Bv)
    ensures Cut(v) == ToNat(v) % Pow2(MODEL_BITS)
  {
    hide Pow2, ToNat;
    if |v| > MODEL_BITS {
      ToNatSplit(v, MODEL_BITS);
      ToNatBound(v[..MODEL_BITS]);
      DivModUnique(ToNat(v), Pow2(MODEL_BITS), ToNat(v[MODEL_BITS..]), Cut(v));
    } else {
      ToNatBound(v);
      Pow2Mono(|v|, MODEL_BITS);
      DivModUnique(ToNat(v), Pow2(MODEL_BITS), 0, ToNat(v));
    }
  }

  /** What the extended query is named by: its variables, and its array and
      function names by id. */
  datatype Block = Block(vars: VarTable, arrays: seq<Name>, funcs: seq<Name>)

  function NameAt(names: seq<Name>, i: nat): Name { if i < |names| then names[i] else [] }

  /** Every entry's array or function has a name. */
  predicate Listed(x: Input, b: Block)
  {
    && (forall p: nat :: p < Reads(x) ==> RArray(x, p) < |b.arrays|)
    && (forall p: nat :: p < Calls(x) ==> CFunc(x, p) < |b.funcs|)
  }

  /** No two ids have one name. */
  predicate Once(names: seq<Name>) { forall i: nat, j: nat :: i < j < |names| ==> names[i] != names[j] }

  predicate NamesOnce(b: Block) { Once(b.arrays) && Once(b.funcs) }

  type Cells = map<(Name, nat), nat>
  type Results = map<(Name, seq<nat>), nat>

  /** A read entry's index and value, as the table holds them. */
  ghost function IndexNumber(x: Input, env: Env, p: nat): nat
    requires p < Reads(x)
  {
    Cut(IndexVal(x, env, p)) % Pow2(32)
  }

  ghost function CellNumber(x: Input, env: Env, p: nat): nat
    requires p < Reads(x)
  {
    Cut(At(env, RVar(x, p))) % Pow2(8)
  }

  /** The cell of each read entry, as (array name, index number). */
  ghost function CellKeys(x: Input, b: Block, env: Env, k: nat): (keys: seq<(Name, nat)>)
    requires k <= Reads(x)
    ensures |keys| == k
    ensures forall p :: 0 <= p < k ==> keys[p] == (NameAt(b.arrays, RArray(x, p)), IndexNumber(x, env, p))
  {
    seq(k, p requires 0 <= p < k => (NameAt(b.arrays, RArray(x, p)), IndexNumber(x, env, p)))
  }

  ghost function CellNumbers(x: Input, env: Env, k: nat): (vals: seq<nat>)
    requires k <= Reads(x)
    ensures |vals| == k && forall p :: 0 <= p < k ==> vals[p] == CellNumber(x, env, p)
  {
    seq(k, p requires 0 <= p < k => CellNumber(x, env, p))
  }

  /** The tuple of each call entry, as (function name, argument numbers). */
  ghost function CallKeys(x: Input, b: Block, env: Env, k: nat): (keys: seq<(Name, seq<nat>)>)
    requires k <= Calls(x)
    ensures |keys| == k
    ensures forall p :: 0 <= p < k ==> keys[p] == (NameAt(b.funcs, CFunc(x, p)), Cuts(CallVals(x, env, p)))
  {
    seq(k, p requires 0 <= p < k => (NameAt(b.funcs, CFunc(x, p)), Cuts(CallVals(x, env, p))))
  }

  ghost function ResultNumbers(x: Input, env: Env, k: nat): (vals: seq<nat>)
    requires k <= Calls(x)
    ensures |vals| == k && forall p :: 0 <= p < k ==> vals[p] == Cut(At(env, CVar(x, p)))
  {
    seq(k, p requires 0 <= p < k => Cut(At(env, CVar(x, p))))
  }

  ghost function CellTable(x: Input, b: Block, env: Env): Cells
  {
    Inserted(CellKeys(x, b, env, Reads(x)), CellNumbers(x, env, Reads(x)), Reads(x))
  }

  ghost function ResultTable(x: Input, b: Block, env: Env): Results
  {
    Inserted(CallKeys(x, b, env, Calls(x)), ResultNumbers(x, env, Calls(x)), Calls(x))
  }

  /** Every read entry is in the final table with its value. */
  ghost predicate CellsKept(x: Input, b: Block, env: Env)
  {
    Keeps(CellTable(x, b, env), CellKeys(x, b, env, Reads(x)), CellNumbers(x, env, Reads(x)))
  }

  ghost predicate ResultsKept(x: Input, b: Block, env: Env)
  {
    Keeps(ResultTable(x, b, env), CallKeys(x, b, env, Calls(x)), ResultNumbers(x, env, Calls(x)))
  }

  /** The core assignment satisfies every core root. */
  ghost predicate CoreModel(x: Input, env: Env)
  {
    EnvOk(x.t, env) && (forall k :: 0 <= k < |x.troots| ==> x.troots[k] < |x.t|) && RootsTrue(x.t, x.tbits, env, x.troots)
  }

  lemma CoreModelMeans(x: Input, env: Env)
    requires CoreModel(x, env)
    ensures EnvOk(x.t, env) && (forall k :: 0 <= k < |x.troots| ==> x.troots[k] < |x.t|)
    ensures RootsTrue(x.t, x.tbits, env, x.troots)
  {
  }

  // ---------- the tables, entry by entry ----------

  /** The simulated bits of a word. */
  method WordOf(vals: seq<bool>, word: AigGraph.Word, ghost z: Bv) returns (v: Bv)
    requires T.WordIs(vals, word, z)
    ensures v == z
  {
    v := [];
    for j := 0 to |word|
      invariant v == z[..j]
    {
      v := v + [AigGraph.EvalLit(vals, word[j])];
    }
  }

  /** The words of every node, by encoding and simulating the core. */
  method Values(x: Input, inp: seq<bool>) returns (vs: seq<Bv>)
    requires DagWf(x.t, |x.tbits|) && Offset(x.t, |x.t|) <= |inp|
    ensures vs == DagVals(x.t, x.tbits, EnvOf(x.t, inp), |x.t|)
  {
    hide DagWf, T.WordIs, DagVals, EnvOf, Widths;
    var W := MaxWidth(Widths(x.t, |x.t|));
    var vals, words := T.Simulated(x.t, x.tbits, inp, W);
    ghost var zs := DagVals(x.t, x.tbits, EnvOf(x.t, inp), |x.t|);
    vs := [];
    for i := 0 to |words|
      invariant vs == zs[..i]
    {
      var word := WordOf(vals, words[i], zs[i]);
      vs := vs + [word];
    }
  }

  /** What an entry reads of the simulated words. */
  lemma EntryWords(x: Input, env: Env, vs: seq<Bv>)
    requires Accepted(x) && EnvOk(x.t, env) && vs == DagVals(x.t, x.tbits, env, |x.t|)
    ensures forall p: nat :: p < Reads(x) ==>
              RIndex(x, p) < |vs| && RVar(x, p) < |vs| &&
              vs[RIndex(x, p)] == IndexVal(x, env, p) && vs[RVar(x, p)] == At(env, RVar(x, p))
    ensures forall p: nat :: p < Calls(x) ==>
              CVar(x, p) < |vs| && vs[CVar(x, p)] == At(env, CVar(x, p)) && ArgsInRange(x, p)
  {
    forall p: nat | p < Reads(x)
      ensures RIndex(x, p) < |vs| && RVar(x, p) < |vs|
      ensures vs[RIndex(x, p)] == IndexVal(x, env, p) && vs[RVar(x, p)] == At(env, RVar(x, p))
    {
      assert ReadEntryOk(x, p);
      VarValue(x, env, RVar(x, p));
      DagValAt(x.t, x.tbits, env, RVar(x, p), |x.t|);
      DagValAt(x.t, x.tbits, env, RIndex(x, p), |x.t|);
    }
    forall p: nat | p < Calls(x)
      ensures CVar(x, p) < |vs| && vs[CVar(x, p)] == At(env, CVar(x, p)) && ArgsInRange(x, p)
    {
      assert CallEntryOk(x, p);
      VarValue(x, env, CVar(x, p));
      DagValAt(x.t, x.tbits, env, CVar(x, p), |x.t|);
    }
  }

  method PullbackCells(x: Input, b: Block, vs: seq<Bv>, ghost env: Env) returns (r: Option<Cells>)
    requires Accepted(x) && EnvOk(x.t, env) && vs == DagVals(x.t, x.tbits, env, |x.t|)
    ensures r.None? <==> exists p: nat :: p < Reads(x) && RArray(x, p) >= |b.arrays|
    ensures r.Some? ==> r.value == CellTable(x, b, env)
  {
    hide Accepted, IndexVal, Cut, Pow2, CellKeys, CellNumbers, DagVals;
    EntryWords(x, env, vs);
    ghost var keys, vals := CellKeys(x, b, env, Reads(x)), CellNumbers(x, env, Reads(x));
    var cells: Cells := map[];
    for k := 0 to Reads(x)
      invariant cells == Inserted(keys, vals, k)
      invariant forall p: nat :: p < k ==> RArray(x, p) < |b.arrays|
    {
      if RArray(x, k) >= |b.arrays| { return None; }
      var index: nat, value: nat := Cut(vs[RIndex(x, k)]) % Pow2(32), Cut(vs[RVar(x, k)]) % Pow2(8);
      cells := cells[(b.arrays[RArray(x, k)], index) := value];
    }
    return Some(cells);
  }

  method CutArgs(args: seq<nat>, vs: seq<Bv>) returns (argv: seq<nat>)
    requires forall l :: 0 <= l < |args| ==> args[l] < |vs|
    ensures |argv| == |args| && forall l :: 0 <= l < |args| ==> argv[l] == Cut(vs[args[l]])
  {
    hide Cut;
    argv := [];
    for l := 0 to |args|
      invariant |argv| == l && forall o :: 0 <= o < l ==> argv[o] == Cut(vs[args[o]])
    {
      argv := argv + [Cut(vs[args[l]])];
    }
  }

  lemma CallNumbers(x: Input, env: Env, vs: seq<Bv>, k: nat, argv: seq<nat>)
    requires k < Calls(x) && ArgsInRange(x, k) && vs == DagVals(x.t, x.tbits, env, |x.t|)
    requires |argv| == CArity(x, k) && forall l :: 0 <= l < |argv| ==> argv[l] == Cut(vs[CArgs(x, k)[l]])
    ensures argv == Cuts(CallVals(x, env, k))
  {
    hide Cut, DagVals, ToNat;
    forall l | 0 <= l < |argv| ensures argv[l] == Cuts(CallVals(x, env, k))[l] {
      assert CallVals(x, env, k)[l] == vs[CArgs(x, k)[l]];
    }
  }

  method PullbackResults(x: Input, b: Block, vs: seq<Bv>, ghost env: Env) returns (r: Option<Results>)
    requires Accepted(x) && EnvOk(x.t, env) && vs == DagVals(x.t, x.tbits, env, |x.t|)
    ensures r.None? <==> exists p: nat :: p < Calls(x) && CFunc(x, p) >= |b.funcs|
    ensures r.Some? ==> r.value == ResultTable(x, b, env)
  {
    hide Accepted, Cut, Cuts, CallVals, DagVals, CFunc, CVar, CArgs, CallKeys, ResultNumbers;
    EntryWords(x, env, vs);
    ghost var keys, vals := CallKeys(x, b, env, Calls(x)), ResultNumbers(x, env, Calls(x));
    var results: Results := map[];
    for k := 0 to Calls(x)
      invariant results == Inserted(keys, vals, k)
      invariant forall p: nat :: p < k ==> CFunc(x, p) < |b.funcs|
    {
      if CFunc(x, k) >= |b.funcs| { return None; }
      var argv := CutArgs(CArgs(x, k), vs);
      CallNumbers(x, env, vs, k, argv);
      results := results[(b.funcs[CFunc(x, k)], argv) := Cut(vs[CVar(x, k)])];
    }
    return Some(results);
  }

  // ---------- when cells are lost ----------

  /** A word of its width or less is its number. */
  lemma CutWhole(v: Bv, w: nat)
    requires |v| <= w <= MODEL_BITS
    ensures Cut(v) == ToNat(v) && Cut(v) % Pow2(w) == ToNat(v)
  {
    hide Pow2, ToNat;
    ToNatBound(v);
    Pow2Mono(|v|, w);
    DivModUnique(ToNat(v), Pow2(w), 0, ToNat(v));
  }

  /** A read entry's cell number is its index word, its value its variable's. */
  lemma CellWords(x: Input, env: Env, p: nat)
    requires Accepted(x) && EnvOk(x.t, env) && p < Reads(x)
    ensures |IndexVal(x, env, p)| == 32 && |At(env, RVar(x, p))| == 8
    ensures IndexNumber(x, env, p) == ToNat(IndexVal(x, env, p)) && CellNumber(x, env, p) == ToNat(At(env, RVar(x, p)))
  {
    hide ExtWf, CallsOk, Congruent, ExtRootsCorr, StepOk, Pow2, ToNat, DagVal, Widths;
    assert ReadEntryOk(x, p);
    ValWidth(x.t, x.tbits, env, RIndex(x, p));
    CutWhole(IndexVal(x, env, p), 32);
    CutWhole(At(env, RVar(x, p)), 8);
  }

  /** Entries p and q read arrays of one name at one index number and hold two
      numbers. */
  ghost predicate CellClash(x: Input, b: Block, env: Env, p: nat, q: nat)
  {
    && p < q < Reads(x) && NameAt(b.arrays, RArray(x, p)) == NameAt(b.arrays, RArray(x, q))
    && IndexNumber(x, env, p) == IndexNumber(x, env, q) && CellNumber(x, env, p) != CellNumber(x, env, q)
  }

  /** EXACTLY WHEN A CELL IS OVERWRITTEN with another value, for every input,
      naming and assignment; exactly then the table misses an entry. */
  lemma CellsExact(x: Input, b: Block, env: Env)
    ensures AnyOverwrite(CellKeys(x, b, env, Reads(x)), CellNumbers(x, env, Reads(x))) <==>
            exists p: nat, q: nat :: CellClash(x, b, env, p, q)
    ensures CellsKept(x, b, env) <==> !exists p: nat, q: nat :: CellClash(x, b, env, p, q)
  {
    hide IndexNumber, CellNumber;
    var keys, vals := CellKeys(x, b, env, Reads(x)), CellNumbers(x, env, Reads(x));
    TableExact(keys, vals);
    forall p: nat, q: nat ensures Clash(keys, vals, p, q) <==> CellClash(x, b, env, p, q) {}
  }

  /** Entries p and q read two arrays of one name at one index, where the core
      model gives them different values. */
  ghost predicate SharedCell(x: Input, b: Block, env: Env, p: nat, q: nat)
  {
    && p < q < Reads(x) && RArray(x, p) != RArray(x, q) && NameAt(b.arrays, RArray(x, p)) == NameAt(b.arrays, RArray(x, q))
    && IndexVal(x, env, p) == IndexVal(x, env, q) && At(env, RVar(x, p)) != At(env, RVar(x, q))
  }

  /** AFTER AN ACCEPTED CHECK, in a core model, one array never loses a cell:
      only two arrays of one name do. */
  lemma CellClashShared(x: Input, b: Block, env: Env, p: nat, q: nat)
    requires Accepted(x) && CoreModel(x, env)
    ensures CellClash(x, b, env, p, q) <==> SharedCell(x, b, env, p, q)
  {
    hide Accepted, IndexVal, IndexNumber, CellNumber, RootsTrue, ToNat, NameAt;
    if p < q < Reads(x) {
      CellWords(x, env, p);
      CellWords(x, env, q);
      if IndexNumber(x, env, p) == IndexNumber(x, env, q) { ToNatInjective(IndexVal(x, env, p), IndexVal(x, env, q)); }
      if CellNumber(x, env, p) == CellNumber(x, env, q) { ToNatInjective(At(env, RVar(x, p)), At(env, RVar(x, q))); }
      if RArray(x, p) == RArray(x, q) && IndexVal(x, env, p) == IndexVal(x, env, q) { ReadsFunctional(x, env, p, q); }
    }
  }

  /** So with every array named once no cell is ever lost, at any core width. */
  lemma CellsNeverLost(x: Input, b: Block, env: Env)
    requires Accepted(x) && CoreModel(x, env)
    ensures CellsKept(x, b, env) <==> !exists p: nat, q: nat :: SharedCell(x, b, env, p, q)
    ensures Listed(x, b) && NamesOnce(b) ==> CellsKept(x, b, env)
  {
    hide Accepted, CoreModel, CellsKept, CellClash, IndexVal;
    CellsExact(x, b, env);
    forall p: nat, q: nat ensures CellClash(x, b, env, p, q) <==> SharedCell(x, b, env, p, q) {
      CellClashShared(x, b, env, p, q);
    }
  }

  // ---------- when results are lost ----------

  /** Entries p and q are calls of functions of one name whose arguments agree
      in their low 128 bits and whose results do not. */
  ghost predicate CutClash(x: Input, b: Block, env: Env, p: nat, q: nat)
  {
    && p < q < Calls(x) && NameAt(b.funcs, CFunc(x, p)) == NameAt(b.funcs, CFunc(x, q))
    && Cuts(CallVals(x, env, p)) == Cuts(CallVals(x, env, q)) && Cut(At(env, CVar(x, p))) != Cut(At(env, CVar(x, q)))
  }

  /** EXACTLY WHEN A CALL RESULT IS OVERWRITTEN with another value, for every
      input, naming and assignment; exactly then the table misses an entry. */
  lemma ResultsExact(x: Input, b: Block, env: Env)
    ensures AnyOverwrite(CallKeys(x, b, env, Calls(x)), ResultNumbers(x, env, Calls(x))) <==>
            exists p: nat, q: nat :: CutClash(x, b, env, p, q)
    ensures ResultsKept(x, b, env) <==> !exists p: nat, q: nat :: CutClash(x, b, env, p, q)
  {
    hide Cut, Cuts, CallVals;
    var keys, vals := CallKeys(x, b, env, Calls(x)), ResultNumbers(x, env, Calls(x));
    TableExact(keys, vals);
    forall p: nat, q: nat ensures Clash(keys, vals, p, q) <==> CutClash(x, b, env, p, q) {}
  }

  /** The caller's test: no argument or result of a call entry is wider than
      the numbers the table holds. */
  predicate NarrowCalls(x: Input) { forall p: nat :: p < Calls(x) ==> NarrowEntry(x, p) }

  predicate NarrowEntry(x: Input, p: nat)
    requires p < Calls(x)
  {
    && (CVar(x, p) < |x.t| ==> Widths(x.t, |x.t|)[CVar(x, p)] <= MODEL_BITS)
    && (ArgsInRange(x, p) ==> forall l :: 0 <= l < CArity(x, p) ==> Widths(x.t, |x.t|)[CArgs(x, p)[l]] <= MODEL_BITS)
  }

  /** A narrow entry's numbers are its words. */
  lemma CallWords(x: Input, env: Env, p: nat)
    requires Accepted(x) && EnvOk(x.t, env) && p < Calls(x) && NarrowEntry(x, p)
    ensures CVar(x, p) < |x.t| && x.t[CVar(x, p)] == Var(|At(env, CVar(x, p))|)
    ensures Cut(At(env, CVar(x, p))) == ToNat(At(env, CVar(x, p)))
    ensures forall l :: 0 <= l < |CallVals(x, env, p)| ==> Cut(CallVals(x, env, p)[l]) == ToNat(CallVals(x, env, p)[l])
    ensures ArgsInRange(x, p) && |CallVals(x, env, p)| == CArity(x, p)
    ensures forall l :: 0 <= l < CArity(x, p) ==> |CallVals(x, env, p)[l]| == Widths(x.t, |x.t|)[CArgs(x, p)[l]]
  {
    hide ExtWf, ReadsOk, Congruent, ExtRootsCorr, StepOk, Pow2, ToNat, Cut, Widths, DagVals;
    assert CallEntryOk(x, p);
    VarValue(x, env, CVar(x, p));
    ValWidth(x.t, x.tbits, env, CVar(x, p));
    CutWhole(At(env, CVar(x, p)), MODEL_BITS);
    ValWidths(x.t, x.tbits, env, |x.t|);
    forall l | 0 <= l < CArity(x, p)
      ensures |CallVals(x, env, p)[l]| == Widths(x.t, |x.t|)[CArgs(x, p)[l]]
      ensures Cut(CallVals(x, env, p)[l]) == ToNat(CallVals(x, env, p)[l])
    {
      assert CallVals(x, env, p)[l] == DagVals(x.t, x.tbits, env, |x.t|)[CArgs(x, p)[l]];
      CutWhole(CallVals(x, env, p)[l], MODEL_BITS);
    }
  }

  /** The two sides of an equality node have one width. */
  lemma EqWidths(x: Input, r: nat, a: nat, b: nat)
    requires DagWf(x.t, |x.tbits|) && r < |x.t| && x.t[r] == Cmp(Eq, a, b)
    ensures a < |x.t| && b < |x.t| && Widths(x.t, |x.t|)[a] == Widths(x.t, |x.t|)[b]
  {
    hide Widths;
    assert WfAt(x.t, |x.tbits|, r);
    WidthsPrefix(x.t, r, |x.t|);
    var ws := Widths(x.t, |x.t|);
    assert ws[..r][a] == ws[a] && ws[..r][b] == ws[b];
  }

  lemma {:induction false} AnteWidths(x: Input, sp: nat, sq: nat, k: nat, a: nat, l: nat)
    requires DagWf(x.t, |x.tbits|) && k >= 1 && sp + k <= |x.cargs| && sq + k <= |x.cargs| && AnteOk(x, sp, sq, k, a)
    requires l < k
    ensures x.cargs[sp + l] < |x.t| && x.cargs[sq + l] < |x.t|
    ensures Widths(x.t, |x.t|)[x.cargs[sp + l]] == Widths(x.t, |x.t|)[x.cargs[sq + l]]
    decreases k
  {
    hide DagWf, Widths;
    if k == 1 {
      EqWidths(x, a, x.cargs[sp], x.cargs[sq]);
    } else if l == k - 1 {
      EqWidths(x, x.t[a].b, x.cargs[sp + l], x.cargs[sq + l]);
    } else {
      AnteWidths(x, sp, sq, k - 1, x.t[a].a, l);
    }
  }

  /** A congruence root relates arguments of one width. */
  lemma CallRootWidths(x: Input, p: nat, q: nat, r: nat, l: nat)
    requires DagWf(x.t, |x.tbits|) && CallRootOk(x, p, q, r) && l < CArity(x, p)
    ensures Widths(x.t, |x.t|)[CArgs(x, p)[l]] == Widths(x.t, |x.t|)[CArgs(x, q)[l]]
  {
    hide DagWf, Widths, AnteOk, Implication;
    var ante: nat :| ante < |x.t| && Implication(x, r, ante, CVar(x, p), CVar(x, q)) &&
                     AnteOk(x, CFirst(x, p), CFirst(x, q), CArity(x, p), ante);
    AnteWidths(x, CFirst(x, p), CFirst(x, q), CArity(x, p), ante, l);
  }

  /** An accepted core never relates calls of one function and arity at two
      argument widths: their congruence root would be ill-formed. */
  lemma ArgumentWidths(x: Input, p: nat, q: nat, l: nat)
    requires Accepted(x) && p < Calls(x) && q < Calls(x) && CallPair(x, p, q) && l < CArity(x, p)
    ensures ArgsInRange(x, p) && ArgsInRange(x, q)
    ensures Widths(x.t, |x.t|)[CArgs(x, p)[l]] == Widths(x.t, |x.t|)[CArgs(x, q)[l]]
  {
    hide ExtWf, ReadsOk, ExtRootsCorr, StepOk, Widths, AllOwed, CallRootOk, ReadRootOk, DagWf, ArgsInRange;
    assert CallEntryOk(x, p) && CallEntryOk(x, q);
    if p != q {
      var o := if p < q then OwedCall(p, q) else OwedCall(q, p);
      OwedListed(x, o);
      var n :| 0 <= n < |AllOwed(x)| && AllOwed(x)[n] == o;
      assert RootOk(x, o, x.troots[|x.eroots| + n]);
      CallRootWidths(x, o.p, o.q, x.troots[|x.eroots| + n], l);
    }
  }

  /** AFTER AN ACCEPTED CHECK, in a core model, one narrow function never
      loses a result: only two functions of one name do. */
  lemma NarrowClash(x: Input, b: Block, env: Env, p: nat, q: nat)
    requires Accepted(x) && CoreModel(x, env) && NarrowCalls(x) && CutClash(x, b, env, p, q)
    ensures CFunc(x, p) != CFunc(x, q)
  {
    hide Accepted, Cut, ToNat, Widths, NarrowEntry, RootsTrue, CallVals;
    if CFunc(x, p) == CFunc(x, q) {
      CallWords(x, env, p);
      CallWords(x, env, q);
      SameArguments(x, env, p, q);
      CallsFunctional(x, env, p, q);
    }
  }

  /** So with every function named once and no wide call no result is ever
      lost. */
  lemma NarrowNeverLost(x: Input, b: Block, env: Env)
    requires Accepted(x) && CoreModel(x, env) && NarrowCalls(x) && Listed(x, b) && NamesOnce(b)
    ensures ResultsKept(x, b, env)
  {
    hide Accepted, CoreModel, NarrowCalls, ResultsKept, Cut, Cuts, CallVals;
    ResultsExact(x, b, env);
    forall p: nat, q: nat ensures !CutClash(x, b, env, p, q) {
      if CutClash(x, b, env, p, q) { NarrowClash(x, b, env, p, q); }
    }
  }

  /** Equal argument numbers of one function are equal argument words. */
  lemma SameArguments(x: Input, env: Env, p: nat, q: nat)
    requires Accepted(x) && EnvOk(x.t, env) && p < Calls(x) && q < Calls(x) && NarrowEntry(x, p) && NarrowEntry(x, q)
    requires CFunc(x, p) == CFunc(x, q) && Cuts(CallVals(x, env, p)) == Cuts(CallVals(x, env, q))
    ensures CallVals(x, env, p) == CallVals(x, env, q)
  {
    hide Accepted, Cut, ToNat, Widths, NarrowEntry, CallVals;
    CallWords(x, env, p);
    CallWords(x, env, q);
    var us, vs := CallVals(x, env, p), CallVals(x, env, q);
    assert |us| == |Cuts(us)| == |Cuts(vs)| == |vs|;
    forall l | 0 <= l < |us| ensures us[l] == vs[l] {
      assert Cuts(us)[l] == Cuts(vs)[l];
      ArgumentWidths(x, p, q, l);
      ToNatInjective(us[l], vs[l]);
    }
  }

  // ---------- the interpretation the tables denote ----------

  function Numbers(vs: seq<Bv>): (ns: seq<nat>)
    ensures |ns| == |vs| && forall l :: 0 <= l < |vs| ==> ns[l] == ToNat(vs[l])
  {
    if vs == [] then [] else Numbers(vs[..|vs| - 1]) + [ToNat(vs[|vs| - 1])]
  }

  /** Arrays and functions read their numbers off the tables by name; what is
      not listed is zero. */
  ghost function FromTables(b: Block, env: Env, cells: Cells, results: Results): Model
  {
    Model(env,
      imap key: (nat, Bv) | (NameAt(b.arrays, key.0), ToNat(key.1)) in cells ::
        FromInt(cells[(NameAt(b.arrays, key.0), ToNat(key.1))], 8),
      imap key: (nat, nat, seq<Bv>) | (NameAt(b.funcs, key.0), Numbers(key.2)) in results ::
        FromInt(results[(NameAt(b.funcs, key.0), Numbers(key.2))], key.1))
  }

  /** A model that gives the listed cells and tuples their listed numbers. */
  ghost predicate TablesHeld(x: Input, b: Block, mdl: Model, env: Env)
  {
    && (forall p: nat :: p < Reads(x) ==> CellListed(x, b, mdl, env, p))
    && (forall p: nat :: p < Calls(x) ==> ResultListed(x, b, mdl, env, p))
  }

  ghost predicate CellListed(x: Input, b: Block, mdl: Model, env: Env, p: nat)
    requires p < Reads(x)
  {
    var key := (NameAt(b.arrays, RArray(x, p)), ToNat(IndexVal(x, env, p)));
    key in CellTable(x, b, env) &&
    ArrayAt(mdl, RArray(x, p), IndexVal(x, env, p)) == FromInt(CellTable(x, b, env)[key], 8)
  }

  ghost predicate ResultListed(x: Input, b: Block, mdl: Model, env: Env, p: nat)
    requires p < Calls(x)
  {
    var key := (NameAt(b.funcs, CFunc(x, p)), Numbers(CallVals(x, env, p)));
    CVar(x, p) < |x.t| && x.t[CVar(x, p)].Var? && key in ResultTable(x, b, env) &&
    FunAt(mdl, CFunc(x, p), x.t[CVar(x, p)].w, CallVals(x, env, p)) ==
      FromInt(ResultTable(x, b, env)[key], x.t[CVar(x, p)].w)
  }

  /** What a caller can test beforehand: entries and names only. */
  predicate Tellable(x: Input, b: Block) { Listed(x, b) && NamesOnce(b) && NarrowCalls(x) }

  /** Entry p's cell is in the table with its variable's value. */
  lemma CellInTable(x: Input, b: Block, env: Env, p: nat)
    requires Accepted(x) && CoreModel(x, env) && CellsKept(x, b, env) && p < Reads(x)
    ensures var key := (NameAt(b.arrays, RArray(x, p)), ToNat(IndexVal(x, env, p)));
            key in CellTable(x, b, env) && FromInt(CellTable(x, b, env)[key], 8) == At(env, RVar(x, p))
  {
    hide Accepted, IndexVal, IndexNumber, CellNumber, RootsTrue, ToNat, FromInt, CellTable;
    CellWords(x, env, p);
    assert CellKeys(x, b, env, Reads(x))[p] == (NameAt(b.arrays, RArray(x, p)), ToNat(IndexVal(x, env, p)));
    FromIntToNat(At(env, RVar(x, p)));
  }

  lemma ResultInTable(x: Input, b: Block, env: Env, p: nat)
    requires Accepted(x) && CoreModel(x, env) && NarrowCalls(x) && ResultsKept(x, b, env) && p < Calls(x)
    ensures CVar(x, p) < |x.t| && x.t[CVar(x, p)].Var?
    ensures var key := (NameAt(b.funcs, CFunc(x, p)), Numbers(CallVals(x, env, p)));
            key in ResultTable(x, b, env) &&
            FromInt(ResultTable(x, b, env)[key], x.t[CVar(x, p)].w) == At(env, CVar(x, p))
  {
    hide Accepted, CallVals, Pow2, Cut, RootsTrue, ToNat, FromInt, ResultTable, NarrowEntry;
    assert NarrowEntry(x, p);
    CallWords(x, env, p);
    assert Cuts(CallVals(x, env, p)) == Numbers(CallVals(x, env, p));
    assert CallKeys(x, b, env, Calls(x))[p] == (NameAt(b.funcs, CFunc(x, p)), Numbers(CallVals(x, env, p)));
    FromIntToNat(At(env, CVar(x, p)));
  }

  /** Listed numbers are the entries' values. */
  lemma TablesAreEntries(x: Input, b: Block, mdl: Model, env: Env)
    requires Accepted(x) && CoreModel(x, env) && Tellable(x, b) && TablesHeld(x, b, mdl, env)
    ensures forall p: nat :: p < Reads(x) ==> CellHeld(x, mdl, env, p)
    ensures forall p: nat :: p < Calls(x) ==> CallHeld(x, mdl, env, p)
  {
    hide Accepted, CoreModel, NarrowCalls, ToNat, FromInt, CellTable, ResultTable, IndexVal, CallVals, CellsKept, ResultsKept;
    hide Listed, NamesOnce;
    CellsNeverLost(x, b, env);
    NarrowNeverLost(x, b, env);
    forall p: nat | p < Reads(x) ensures CellHeld(x, mdl, env, p) {
      assert CellListed(x, b, mdl, env, p);
      CellInTable(x, b, env, p);
    }
    forall p: nat | p < Calls(x) ensures CallHeld(x, mdl, env, p) {
      assert ResultListed(x, b, mdl, env, p);
      ResultInTable(x, b, env, p);
    }
  }

  /** The denoted interpretation gives the listed numbers. */
  lemma FromTablesHeld(x: Input, b: Block, ext: Env, env: Env)
    requires Accepted(x) && CoreModel(x, env) && Tellable(x, b)
    ensures TablesHeld(x, b, FromTables(b, ext, CellTable(x, b, env), ResultTable(x, b, env)), env)
  {
    hide Accepted, CoreModel, NarrowCalls, ToNat, FromInt, CellTable, ResultTable, IndexVal, CallVals, Numbers, CellsKept;
    hide ResultsKept, Listed, NamesOnce;
    CellsNeverLost(x, b, env);
    NarrowNeverLost(x, b, env);
    var mdl := FromTables(b, ext, CellTable(x, b, env), ResultTable(x, b, env));
    forall p: nat | p < Reads(x) ensures CellListed(x, b, mdl, env, p) {
      CellInTable(x, b, env, p);
      assert (RArray(x, p), IndexVal(x, env, p)) in mdl.arrays;
    }
    forall p: nat | p < Calls(x) ensures ResultListed(x, b, mdl, env, p) {
      ResultInTable(x, b, env, p);
      assert (CFunc(x, p), x.t[CVar(x, p)].w, CallVals(x, env, p)) in mdl.funs;
    }
  }

  // ---------- the variables, by name ----------

  /** The first named variable from k on that is node i. */
  function VarEntry(vars: VarTable, i: nat, k: nat): (r: nat)
    requires k <= |vars|
    ensures k <= r <= |vars| && (r < |vars| ==> vars[r].2 == i)
    decreases |vars| - k
  {
    if k == |vars| || vars[k].2 == i then k else VarEntry(vars, i, k + 1)
  }

  predicate QueryVar(x: Input, i: nat) { i < |x.e| && x.e[i].Core? && x.e[i].nd.Var? }

  /** The query's variables as the values name them; a variable node no entry
      names has its image's value. */
  ghost function NamedEnv(x: Input, b: Block, env: Env, values: map<Name, nat>): (ext: Env)
    requires |x.e| == |x.m|
    ensures |ext| == |x.e|
  {
    seq(|x.e|, i requires 0 <= i < |x.e| =>
      if !QueryVar(x, i) then [] else
      var k := VarEntry(b.vars, i, 0);
      if k < |b.vars| then ModelWord(Lookup(values, b.vars[k].0), x.e[i].nd.w) else At(Pulled(x, env).env, i))
  }

  /** Every named variable with an image has there the value it is named. */
  predicate VarsAgree(x: Input, b: Block, env: Env, values: map<Name, nat>)
    requires |x.e| == |x.m|
  {
    forall k :: 0 <= k < |b.vars| ==> VarAgrees(x, env, values, b.vars[k].0, b.vars[k].2)
  }

  predicate VarAgrees(x: Input, env: Env, values: map<Name, nat>, name: Name, i: nat)
    requires |x.e| == |x.m|
  {
    QueryVar(x, i) && Mapped(x, i) ==> At(env, x.m[i]) == ModelWord(Lookup(values, name), x.e[i].nd.w)
  }

  /** The image of a named variable has its name in the core. */
  predicate NamesCarried(x: Input, b: Block, vars: VarTable)
    requires |x.e| == |x.m|
  {
    forall k :: 0 <= k < |b.vars| ==> NameCarried(x, vars, b.vars[k].0, b.vars[k].2)
  }

  predicate NameCarried(x: Input, vars: VarTable, name: Name, i: nat)
    requires |x.e| == |x.m|
  {
    QueryVar(x, i) && Mapped(x, i) ==> NameOfNode(vars, x.m[i]) == Some(name)
  }

  /** A map that carries names gives values that agree, whatever the model. */
  lemma CarriedAgree(x: Input, b: Block, vars: VarTable, model: Bindings)
    requires Accepted(x) && |x.t| <= USIZE_MAX && NamesCarried(x, b, vars)
    ensures VarsAgree(x, b, ModelEnv(x.t, vars, model), NamedValues(b.vars, model, |b.vars|))
  {
    hide ExtWf, DagWf, ReadsOk, CallsOk, Congruent, ExtRootsCorr, Binding, ModelWord, NamedValues;
    NamedValuesAre(b.vars, model, |b.vars|);
    forall k | 0 <= k < |b.vars|
      ensures VarAgrees(x, ModelEnv(x.t, vars, model), NamedValues(b.vars, model, |b.vars|), b.vars[k].0, b.vars[k].2)
    {
      var i := b.vars[k].2;
      assert NameCarried(x, vars, b.vars[k].0, i);
      if QueryVar(x, i) && Mapped(x, i) { assert StepOk(x, i); }
    }
  }

  lemma MapFits(x: Input)
    requires Accepted(x)
    ensures |x.e| == |x.m|
  {
  }

  /** The named interpretation satisfies the extended roots. */
  lemma TablesSatisfy(x: Input, b: Block, env: Env, values: map<Name, nat>)
    requires Accepted(x) && |x.t| <= USIZE_MAX && CoreModel(x, env) && Tellable(x, b) && VarsAgree(x, b, env, values)
    requires forall k :: 0 <= k < |x.eroots| ==> x.eroots[k] < |x.e|
    ensures ExtRootsTrue(x, FromTables(b, NamedEnv(x, b, env, values), CellTable(x, b, env), ResultTable(x, b, env)))
  {
    hide RootsTrue, CellTable, ResultTable, Tellable, ExtRootsTrue, TablesHeld, Accepted, CoreModel, CellHeld, CallHeld;
    MapFits(x);
    var ext := NamedEnv(x, b, env, values);
    var mdl := FromTables(b, ext, CellTable(x, b, env), ResultTable(x, b, env));
    CoreModelMeans(x, env);
    FromTablesHeld(x, b, ext, env);
    TablesAreEntries(x, b, mdl, env);
    forall i: nat | QueryVar(x, i) ensures |ext[i]| == x.e[i].nd.w && (Mapped(x, i) ==> ext[i] == At(env, x.m[i])) {
      NamedImage(x, b, env, values, i);
    }
    assert Interprets(x, mdl, env);
    InterpretationSatisfies(x, mdl, env);
  }

  lemma NamedImage(x: Input, b: Block, env: Env, values: map<Name, nat>, i: nat)
    requires Accepted(x) && |x.t| <= USIZE_MAX && EnvOk(x.t, env) && VarsAgree(x, b, env, values) && QueryVar(x, i)
    ensures |NamedEnv(x, b, env, values)[i]| == x.e[i].nd.w
    ensures Mapped(x, i) ==> NamedEnv(x, b, env, values)[i] == At(env, x.m[i])
  {
    hide ExtWf, DagWf, ReadsOk, CallsOk, Congruent, ExtRootsCorr, AnyRead, AnyCall, ModelWord;
    var k := VarEntry(b.vars, i, 0);
    if k < |b.vars| {
      assert VarAgrees(x, env, values, b.vars[k].0, b.vars[k].2);
    } else if Mapped(x, i) {
      assert StepOk(x, i);
    }
  }

  // ---------- the model read back ----------

  /** The tables a core assignment gives: none if an entry's array or function
      has no name, else the insertions in order. */
  method PullbackTables(x: Input, b: Block, inp: seq<bool>) returns (r: Option<(Cells, Results)>)
    requires Accepted(x) && Offset(x.t, |x.t|) <= |inp|
    ensures r.None? <==> !Listed(x, b)
    ensures r.Some? ==> r.value == (CellTable(x, b, EnvOf(x.t, inp)), ResultTable(x, b, EnvOf(x.t, inp)))
  {
    hide CellTable, ResultTable, ExtWf, DagWf, ReadsOk, CallsOk, Congruent, ExtRootsCorr, StepOk;
    ghost var env := EnvOf(x.t, inp);
    var vs := Values(x, inp);
    var cells := PullbackCells(x, b, vs, env);
    if cells.None? { return None; }
    var results := PullbackResults(x, b, vs, env);
    if results.None? { return None; }
    return Some((cells.value, results.value));
  }

  /** The extended model by name. */
  datatype ReadBack = ReadBack(env: map<Name, nat>, cells: Cells, results: Results)

  /** The interpretation a model read back denotes. */
  ghost function Denotes(x: Input, b: Block, core: Env, out: ReadBack): Model
    requires |x.e| == |x.m|
  {
    FromTables(b, NamedEnv(x, b, core, out.env), out.cells, out.results)
  }

  /** THE MODEL READ BACK from a model of the core by name: the named values
      and the two tables, or nothing when an entry has no name.  In a core
      model every cell and every result is kept exactly when no two entries
      clash; when the entries are named once and narrow, and the named
      variables agree with their images, the interpretation denoted satisfies
      every extended root. */
  method PullbackModel(x: Input, b: Block, vars: VarTable, model: Bindings) returns (r: Option<ReadBack>)
    requires Accepted(x) && |x.t| <= USIZE_MAX
    ensures forall k :: 0 <= k < |x.eroots| ==> x.eroots[k] < |x.e|
    ensures r.None? <==> !Listed(x, b)
    ensures r.Some? ==> var env := ModelEnv(x.t, vars, model);
              r.value == ReadBack(NamedValues(b.vars, model, |b.vars|), CellTable(x, b, env), ResultTable(x, b, env))
    ensures r.Some? ==> var env := ModelEnv(x.t, vars, model);
              && (CellsKept(x, b, env) <==> !exists p: nat, q: nat :: CellClash(x, b, env, p, q))
              && (ResultsKept(x, b, env) <==> !exists p: nat, q: nat :: CutClash(x, b, env, p, q))
    ensures r.Some? && NamesOnce(b) && NarrowCalls(x) ==> var env := ModelEnv(x.t, vars, model);
              CoreModel(x, env) && VarsAgree(x, b, env, r.value.env) ==> ExtRootsTrue(x, Denotes(x, b, env, r.value))
    ensures NamesCarried(x, b, vars) && r.Some? ==> VarsAgree(x, b, ModelEnv(x.t, vars, model), r.value.env)
  {
    hide CellTable, ResultTable, Accepted, CellsKept, ResultsKept, CoreModel, NarrowCalls, Listed, NamesOnce, VarsAgree;
    hide ExtRootsTrue, NamedEnv, NamesCarried, FromTables, CellClash, CutClash;
    RootsInRange(x);
    MapFits(x);
    var inp := FromModel(x.t, vars, model);
    var values := ReadValues(b.vars, model);
    var tables := PullbackTables(x, b, inp);
    if tables.None? { return None; }
    ghost var env := ModelEnv(x.t, vars, model);
    CellsExact(x, b, env);
    ResultsExact(x, b, env);
    if NamesCarried(x, b, vars) { CarriedAgree(x, b, vars, model); }
    if NamesOnce(b) && NarrowCalls(x) && CoreModel(x, env) && VarsAgree(x, b, env, values) {
      TablesSatisfy(x, b, env, values);
    }
    return Some(ReadBack(values, tables.value.0, tables.value.1));
  }
}
