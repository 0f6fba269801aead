/** Leftmost-match search: what a regular expression's `exec` does with a
    pattern that is tried at each position in turn. The matcher is a
    parameter, so what is proved here holds for any pattern. */
module Search {
  import opened Options

  /** The first position of `from..last` (both included) at which `f` matches,
      with what it reports there. */
  function FirstMatch<T>(f: nat -> Option<T>, from: nat, last: nat): (r: Option<(nat, T)>)
    ensures r.Some? ==> from <= r.value.0 <= last && f(r.value.0) == Some(r.value.1)
    decreases last + 1 - from
  {
    if from > last then None
    else match f(from)
      case Some(x) => Some((from, x))
      case None => FirstMatch(f, from + 1, last)
  }

  /** Every position the search passes over before its result fails to match. */
  lemma {:induction false} FirstMatchSkips<T>(f: nat -> Option<T>, from: nat, last: nat, j: nat)
    requires from <= j <= last
    requires FirstMatch(f, from, last).None? || j < FirstMatch(f, from, last).value.0
    ensures f(j).None?
    decreases j - from
  {
    if j > from {
      assert f(from).None?;
      FirstMatchSkips(f, from + 1, last, j);
    }
  }

  /** The result is the leftmost match; no result means no match anywhere. */
  lemma FirstMatchLeftmost<T>(f: nat -> Option<T>, from: nat, last: nat)
    ensures FirstMatch(f, from, last).Some? ==> forall j :: from <= j < FirstMatch(f, from, last).value.0 ==> f(j).None?
    ensures FirstMatch(f, from, last).None? ==> forall j :: from <= j <= last ==> f(j).None?
  {
    forall j | from <= j <= last && (FirstMatch(f, from, last).None? || j < FirstMatch(f, from, last).value.0)
      ensures f(j).None?
    {
      FirstMatchSkips(f, from, last, j);
    }
  }

  /** A match with none before it is what the search reports. */
  lemma {:induction false} FirstMatchIs<T>(f: nat -> Option<T>, from: nat, last: nat, i: nat, x: T)
    requires from <= i <= last && f(i) == Some(x)
    requires forall j :: from <= j < i ==> f(j).None?
    ensures FirstMatch(f, from, last) == Some((i, x))
    decreases i - from
  {
    if from < i {
      FirstMatchIs(f, from + 1, last, i, x);
    }
  }

  /** With no match anywhere, the search reports nothing. */
  lemma {:induction false} FirstMatchNone<T>(f: nat -> Option<T>, from: nat, last: nat)
    requires forall j :: from <= j <= last ==> f(j).None?
    ensures FirstMatch(f, from, last).None?
    decreases last + 1 - from
  {
    if from <= last {
      FirstMatchNone(f, from + 1, last);
    }
  }
}
