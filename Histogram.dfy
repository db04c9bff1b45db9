/**
 * Counting dictionaries: the `counts[key] = (counts[key] || 0) + 1` pattern
 * run over a list of labels, and the sum of such a dictionary's counts.
 */
module Histogram {

  /** One more occurrence of `key`: a missing key starts from zero. */
  function Bump(counts: map<string, nat>, key: string): (r: map<string, nat>)
    ensures r.Keys == counts.Keys + {key}
    ensures r[key] == (if key in counts then counts[key] else 0) + 1
    ensures forall k :: k in counts && k != key ==> r[k] == counts[k]
  {
    counts[key := (if key in counts then counts[key] else 0) + 1]
  }

  /** The dictionary built by bumping every label in order, starting empty. */
  function Tally(labels: seq<string>): map<string, nat>
    decreases |labels|
  {
    if |labels| == 0 then map[]
    else Bump(Tally(labels[..|labels| - 1]), labels[|labels| - 1])
  }

  /**
   * A tally's keys are exactly the labels that occur, and each key maps to
   * its number of occurrences, so every count is at least one.
   */
  lemma {:induction false} TallyCounts(labels: seq<string>)
    ensures forall k :: k in Tally(labels) <==> k in labels
    ensures forall k :: k in Tally(labels) ==> Tally(labels)[k] == multiset(labels)[k]
    ensures forall k :: k in Tally(labels) ==> Tally(labels)[k] >= 1
    decreases |labels|
  {
    if |labels| > 0 {
      var init, last := labels[..|labels| - 1], labels[|labels| - 1];
      assert labels == init + [last];
      TallyCounts(init);
    }
  }

  /** Tallying one more label bumps that label's count. */
  lemma TallySnoc(labels: seq<string>, key: string)
    ensures Tally(labels + [key]) == Bump(Tally(labels), key)
  {
    var all := labels + [key];
    assert all[..|all| - 1] == labels;
  }

  /** The sum of all counts in a dictionary. */
  ghost function Total(m: map<string, nat>): nat
    decreases |m|
  {
    if m == map[] then 0
    else
      var k :| k in m;
      m[k] + Total(m - {k})
  }

  /** The sum may be taken starting from any key. */
  lemma {:induction false} TotalWithout(m: map<string, nat>, k: string)
    requires k in m
    ensures Total(m) == m[k] + Total(m - {k})
    decreases |m|
  {
    var j :| j in m && Total(m) == m[j] + Total(m - {j});
    if j != k {
      TotalWithout(m - {j}, k);
      TotalWithout(m - {k}, j);
      assert m - {j} - {k} == m - {k} - {j};
    }
  }

  /** Bumping a key adds exactly one to the sum. */
  lemma BumpTotal(counts: map<string, nat>, key: string)
    ensures Total(Bump(counts, key)) == Total(counts) + 1
  {
    var r := Bump(counts, key);
    TotalWithout(r, key);
    if key in counts {
      TotalWithout(counts, key);
      assert r - {key} == counts - {key};
    } else {
      assert r - {key} == counts;
    }
  }

  /** The counts of a tally add up to the number of labels tallied. */
  lemma {:induction false} TallyTotal(labels: seq<string>)
    ensures Total(Tally(labels)) == |labels|
    decreases |labels|
  {
    if |labels| > 0 {
      var init, last := labels[..|labels| - 1], labels[|labels| - 1];
      TallyTotal(init);
      BumpTotal(Tally(init), last);
    }
  }
}
