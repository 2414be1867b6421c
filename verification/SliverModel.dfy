/** The sliver certificates: the correspondence stacked on the term and query
    re-checks. */
module SliverModel {
  import opened Wrappers
  import opened Dag
  import opened Sliver
  import opened SliverSound
  import SliverCheck
  import T = TermCheck
  import TS = TermSound
  import Lrat
  import Query

  /** The refutation of an extended query: no assignment, array contents or
      function interpretation makes every extended root true. */
  method CheckSliverUnsat(x: Input, m: seq<nat>, ns: Dag, bits: seq<bool>, roots: seq<nat>, hints: seq<nat>,
                          steps: seq<Lrat.Step>) returns (ok: bool, ghost a: Option<Query.Arena>)
    requires |x.t| <= USIZE_MAX && |ns| <= USIZE_MAX
    ensures Query.ArenaFor(a, ns, bits, roots)
    ensures ok <==> Accepted(x) && TS.Certified(x.t, x.tbits, x.troots, m, ns, bits, roots) &&
                    Query.Refutes(a, hints, steps)
    ensures ok ==> forall k :: 0 <= k < |x.eroots| ==> x.eroots[k] < |x.e|
    ensures ok ==> !ExtSat(x)
  {
    var sliver := SliverCheck.CheckSliverLowering(x);
    var term, arena := TS.CheckTermUnsat(x.t, x.tbits, x.troots, m, ns, bits, roots, hints, steps);
    a := arena;
    ok := sliver.Ok? && term;
    if ok { SliverSatIffCoreSat(x); }
  }

  /** The input list as an assignment of the core, through the term map. */
  ghost function CoreEnv(x: Input, m: seq<nat>, ns: Dag, bits: seq<bool>, inp: seq<bool>): Env
    requires |m| == |x.t| && |ns| <= USIZE_MAX
  {
    TS.Pulled(T.PairOf(x.t, x.tbits, m, ns, bits), EnvOf(ns, inp))
  }

  /** The model of an extended query, pulled back from the DAG's inputs. */
  method CheckSliverModel(x: Input, m: seq<nat>, ns: Dag, bits: seq<bool>, roots: seq<nat>, inp: seq<bool>)
    returns (ok: bool)
    requires |x.t| <= USIZE_MAX && |ns| <= USIZE_MAX
    ensures ok <==> Accepted(x) && TS.Certified(x.t, x.tbits, x.troots, m, ns, bits, roots) &&
                    Query.ModelOk(ns, bits, roots, inp)
    ensures ok ==> (forall k :: 0 <= k < |x.eroots| ==> x.eroots[k] < |x.e|) && |x.e| == |x.m| && |m| == |x.t|
    ensures ok ==> ExtSat(x) && ExtRootsTrue(x, Pulled(x, CoreEnv(x, m, ns, bits, inp)))
  {
    var sliver := SliverCheck.CheckSliverLowering(x);
    var term := TS.CheckTermModel(x.t, x.tbits, x.troots, m, ns, bits, roots, inp);
    ok := sliver.Ok? && term;
    if ok {
      SliverSatIffCoreSat(x);
      PullBack(x, CoreEnv(x, m, ns, bits, inp));
    }
  }

  /** No extended query has both certificates. */
  method SliverVerdictsExclusive(x: Input, m: seq<nat>, ns: Dag, bits: seq<bool>, roots: seq<nat>, hints: seq<nat>,
                                 steps: seq<Lrat.Step>, m': seq<nat>, ns': Dag, bits': seq<bool>, roots': seq<nat>,
                                 inp: seq<bool>) returns (refuted: bool, modelled: bool)
    requires |x.t| <= USIZE_MAX && |ns| <= USIZE_MAX && |ns'| <= USIZE_MAX
    ensures !(refuted && modelled)
  {
    var ok, _ := CheckSliverUnsat(x, m, ns, bits, roots, hints, steps);
    refuted := ok;
    modelled := CheckSliverModel(x, m', ns', bits', roots', inp);
  }
}
