/** Finite sequences of steps. */
module Paths {

  /** The steps lead from one state to the other. */
  ghost predicate Path<S(!new)>(next: (S, S) -> bool, ss: seq<S>, s: S, t: S) {
    && ss != [] && ss[0] == s && ss[|ss| - 1] == t
    && forall i, j :: 0 <= i && j == i + 1 && j < |ss| ==> next(ss[i], ss[j])
  }

  ghost predicate Leads<S(!new)>(next: (S, S) -> bool, s: S, t: S) {
    exists ss: seq<S> :: Path(next, ss, s, t)
  }

  lemma LeadsNowhere<S(!new)>(next: (S, S) -> bool, s: S)
    ensures Leads(next, s, s)
  {
    assert Path(next, [s], s, s);
  }

  lemma LeadsByStep<S(!new)>(next: (S, S) -> bool, s: S, t: S)
    requires next(s, t)
    ensures Leads(next, s, t)
  {
    assert Path(next, [s, t], s, t);
  }

  lemma LeadsOn<S(!new)>(next: (S, S) -> bool, s: S, t: S, u: S)
    requires Leads(next, s, t) && Leads(next, t, u)
    ensures Leads(next, s, u)
  {
    var a :| Path(next, a, s, t);
    var b :| Path(next, b, t, u);
    assert Path(next, a + b[1..], s, u);
  }
}
