/** The Markov Decision Process record: states S, terminal flags T, initial
    distribution I, actions A, transition tensor P[s][a][s'], reward matrix
    R[s][s'], discount and name. The record is immutable once built. */
module MarkovDecisionProcess {
  import opened Numeric

  /** Fields in the order the constructor takes them. `name` defaults to
      "no name"; nothing is validated. */
  datatype Mdp<St> = Mdp(
    S: seq<St>,
    T: seq<bool>,
    I: seq<real>,
    A: seq<string>,
    P: seq<seq<seq<real>>>,
    R: seq<seq<real>>,
    discount: real,
    name: string := "no name")

  /** `isTerminalState`: the terminal flag of state `s`. */
  function IsTerminalState<St>(m: Mdp<St>, s: nat): (r: bool)
    requires s < |m.T|
    ensures Shaped(m) && Normalized(m) && s < |m.S| && |m.A| > 0 ==> (r <==> ZeroRows(m, s))
  {
    if Shaped(m) && Normalized(m) && s < |m.S| && |m.A| > 0 then
      if m.T[s] then TerminalRowsAreZero(m, s); true
      else NonTerminalHasWayOut(m, s); false
    else m.T[s]
  }

  /** The table shapes the docstrings promise: P is |S| x |A| x |S|, R is
      |S| x |S|, T and I have one entry per state. */
  predicate Shaped<St>(m: Mdp<St>)
  {
    var n := |m.S|;
    && |m.T| == n && |m.I| == n && |m.P| == n && |m.R| == n
    && (forall s :: 0 <= s < n ==> |m.P[s]| == |m.A| && |m.R[s]| == n)
    && (forall s, a :: 0 <= s < n && 0 <= a < |m.A| ==> |m.P[s][a]| == n)
  }

  /** The probability invariant of a well-formed MDP: every entry of P and I
      is non-negative, every transition row of a non-terminal state sums to 1,
      every row of a terminal state sums to 0, and I sums to 1. */
  predicate Normalized<St>(m: Mdp<St>)
    requires Shaped(m)
  {
    var n := |m.S|;
    && (forall s, a, t :: 0 <= s < n && 0 <= a < |m.A| && 0 <= t < n ==> m.P[s][a][t] >= 0.0)
    && (forall s, a :: 0 <= s < n && 0 <= a < |m.A| ==>
          Sum(m.P[s][a]) == if m.T[s] then 0.0 else 1.0)
    && (forall s :: 0 <= s < n ==> m.I[s] >= 0.0)
    && Sum(m.I) == 1.0
  }

  /** Every transition row of state `s` is all zeros. */
  predicate ZeroRows<St>(m: Mdp<St>, s: nat)
    requires Shaped(m) && s < |m.S|
  {
    forall a, t :: 0 <= a < |m.A| && 0 <= t < |m.S| ==> m.P[s][a][t] == 0.0
  }

  /** In a normalized MDP every transition row of a terminal state is zero. */
  lemma TerminalRowsAreZero<St>(m: Mdp<St>, s: nat)
    requires Shaped(m) && Normalized(m) && s < |m.S| && m.T[s]
    ensures ZeroRows(m, s)
  {
    forall a | 0 <= a < |m.A|
      ensures forall t :: 0 <= t < |m.S| ==> m.P[s][a][t] == 0.0
    {
      SumNonNegZero(m.P[s][a]);
    }
  }

  /** In a normalized MDP a non-terminal state has a transition of positive
      probability under every action, so its rows are not all zero. */
  lemma NonTerminalHasWayOut<St>(m: Mdp<St>, s: nat)
    requires Shaped(m) && Normalized(m) && s < |m.S| && |m.A| > 0 && !m.T[s]
    ensures !ZeroRows(m, s)
  {
    if ZeroRows(m, s) {
      SumAllZero(m.P[s][0]);
    }
  }

  /** The constructor accepts tables that break the probability invariant:
      here a transition row sums to 2 and the initial distribution to 3. */
  lemma ConstructionDoesNotValidate()
    ensures var m := Mdp([0], [false], [3.0], ["a"], [[[2.0]]], [[0.0]], 1.0);
            Shaped(m) && !Normalized(m) && m.name == "no name"
  {
    var m := Mdp([0], [false], [3.0], ["a"], [[[2.0]]], [[0.0]], 1.0);
    assert Sum(m.I) == 3.0;
  }
}
