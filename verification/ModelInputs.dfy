/** A query's input list read from a model by name, and the model's values of
    named variables. */
module ModelInputs {
  import opened Wrappers
  import opened Bits
  import opened Dag
  import SatWitness
  import Tree

  type Name = Tree.Name

  /** Per variable: its name, its width and its node. */
  type VarTable = seq<(Name, nat, nat)>

  /** The model's bindings, in order. */
  type Bindings = seq<(Name, nat)>

  /** The most bits a binding holds. */
  const MODEL_BITS: nat := 128

  /** The name the table first gives a node. */
  function NameOfNode(vars: VarTable, node: nat): (r: Option<Name>)
    ensures r.Some? ==> exists k :: 0 <= k < |vars| && vars[k].2 == node && vars[k].0 == r.value
    ensures r.None? ==> forall k :: 0 <= k < |vars| ==> vars[k].2 != node
  {
    if vars == [] then None else if vars[0].2 == node then Some(vars[0].0) else NameOfNode(vars[1..], node)
  }

  /** The first binding of a name. */
  function Binding(model: Bindings, name: Name): (r: Option<nat>)
    ensures r.Some? ==> (name, r.value) in model
    ensures r.None? ==> forall v :: (name, v) !in model
  {
    if model == [] then None else if model[0].0 == name then Some(model[0].1) else Binding(model[1..], name)
  }

  /** The first entry of its node names it. */
  lemma {:induction false} FirstNames(vars: VarTable, k: nat)
    requires k < |vars| && forall j :: 0 <= j < k ==> vars[j].2 != vars[k].2
    ensures NameOfNode(vars, vars[k].2) == Some(vars[k].0)
  {
    if k > 0 {
      assert vars[0].2 != vars[k].2;
      FirstNames(vars[1..], k - 1);
    }
  }

  /** The first binding of its name binds it. */
  lemma {:induction false} FirstBinds(model: Bindings, k: nat)
    requires k < |model| && forall j :: 0 <= j < k ==> model[j].0 != model[k].0
    ensures Binding(model, model[k].0) == Some(model[k].1)
  {
    if k > 0 {
      assert model[0].0 != model[k].0;
      FirstBinds(model[1..], k - 1);
    }
  }

  /** The value of a node: its name's binding, zero without one. */
  function ValueOf(vars: VarTable, model: Bindings, node: nat): nat
  {
    var name := NameOfNode(vars, node);
    if name.None? then 0 else
    var bound := Binding(model, name.value);
    if bound.Some? then bound.value else 0
  }

  /** The w low bits of a 128-bit number, zeros above. */
  function ModelWord(value: nat, w: nat): (v: Bv)
    ensures |v| == w && forall j :: 0 <= j < w ==> v[j] == (j < MODEL_BITS && SatWitness.BitOf(value, j))
  {
    seq(w, j requires 0 <= j < w => j < MODEL_BITS && SatWitness.BitOf(value, j))
  }

  /** At a word's own width it is the number's word. */
  lemma ModelWordIs(value: nat, w: nat)
    requires w <= MODEL_BITS
    ensures ModelWord(value, w) == FromInt(value, w)
  {
    forall j | 0 <= j < w ensures ModelWord(value, w)[j] == FromInt(value, w)[j] { FromIntBit(value, w, j); }
  }

  /** The assignment by name: every variable node has its named value. */
  function ModelEnv(t: Dag, vars: VarTable, model: Bindings): (env: Env)
    ensures EnvOk(t, env)
  {
    seq(|t|, d requires 0 <= d < |t| => if t[d].Var? then ModelWord(ValueOf(vars, model, d), t[d].w) else [])
  }

  /** An assignment is read back off its input list. */
  lemma EnvGivenBack(t: Dag, env: Env)
    requires EnvOk(t, env) && forall i :: 0 <= i < |t| && !t[i].Var? ==> env[i] == []
    ensures EnvOf(t, InputsOfEnv(t, env, |t|)) == env
  {
    var back := EnvOf(t, InputsOfEnv(t, env, |t|));
    forall i | 0 <= i < |t| ensures back[i] == env[i] { if t[i].Var? { EnvRoundTrip(t, env, i); } }
  }

  /** The input list, variables in node order, least significant bit first: it
      assigns every variable node its named value. */
  method FromModel(t: Dag, vars: VarTable, model: Bindings) returns (inp: seq<bool>)
    ensures |inp| == Offset(t, |t|) && EnvOf(t, inp) == ModelEnv(t, vars, model)
  {
    ghost var env := ModelEnv(t, vars, model);
    inp := [];
    for i := 0 to |t|
      invariant inp == InputsOfEnv(t, env, i)
    {
      if t[i].Var? {
        var value := ValueOf(vars, model, i);
        ghost var before := inp;
        for j := 0 to t[i].w
          invariant inp == before + env[i][..j]
        {
          inp := inp + [j < MODEL_BITS && value / Pow2(j) % 2 == 1];
        }
        assert env[i][..t[i].w] == env[i];
      }
    }
    EnvGivenBack(t, env);
  }

  /** The bindings of the first k named variables. */
  ghost function NamedValues(vars: VarTable, model: Bindings, k: nat): map<Name, nat>
    requires k <= |vars|
  {
    if k == 0 then map[] else
    var bound := Binding(model, vars[k - 1].0);
    if bound.None? then NamedValues(vars, model, k - 1) else NamedValues(vars, model, k - 1)[vars[k - 1].0 := bound.value]
  }

  function Lookup(values: map<Name, nat>, name: Name): nat { if name in values then values[name] else 0 }

  /** Exactly the bound variables are listed, with their bindings. */
  lemma {:induction false} NamedValuesAre(vars: VarTable, model: Bindings, k: nat)
    requires k <= |vars|
    ensures forall name :: name in NamedValues(vars, model, k) <==>
              Binding(model, name).Some? && exists j :: 0 <= j < k && vars[j].0 == name
    ensures forall name :: name in NamedValues(vars, model, k) ==>
              Some(NamedValues(vars, model, k)[name]) == Binding(model, name)
  {
    hide Binding;
    if k > 0 { NamedValuesAre(vars, model, k - 1); }
  }

  method ReadValues(vars: VarTable, model: Bindings) returns (values: map<Name, nat>)
    ensures values == NamedValues(vars, model, |vars|)
  {
    values := map[];
    for k := 0 to |vars|
      invariant values == NamedValues(vars, model, k)
    {
      var bound := Binding(model, vars[k].0);
      if bound.Some? { values := values[vars[k].0 := bound.value]; }
    }
  }
}
