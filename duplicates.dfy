/**
  The duplicate-name check as intended: keep each name only where it first
  occurs, and report an error when that drops anything. The table component
  compares the filtered names with its displayed columns instead; that check
  as written is stated in the component's module.
 */
module Duplicates {
  import opened ArrayOps

  /** Some name occurs at two different positions. */
  predicate HasDuplicates(names: seq<string>) {
    exists i, j :: 0 <= i < j < |names| && names[i] == names[j]
  }

  /** The filter callback `(value, index) => index === self.findIndex(v => v === value)`,
      with `self` the full list of names. */
  function FirstOccurrenceTest(names: seq<string>): (string, nat) -> bool {
    (value: string, index: nat) => index == IndexOf(names, value)
  }

  /** The names kept by the first-occurrence filter. */
  function FirstOccurrences(names: seq<string>): seq<string> {
    Filter(names, FirstOccurrenceTest(names))
  }

  /** The duplicate check as intended: the filtered list is shorter than the
      list of names. */
  predicate DuplicateError(names: seq<string>) {
    |FirstOccurrences(names)| < |names|
  }

  /** Name `k` passes the test exactly when it does not occur earlier. */
  lemma FirstOccurrenceAt(names: seq<string>, k: nat)
    requires k < |names|
    ensures FirstOccurrenceTest(names)(names[k], k) <==> names[k] !in names[..k]
  {
  }

  /** What the filter keeps from the first `k` names: no repeats, the same
      set of names, and the full prefix exactly when that prefix is free of
      duplicates. */
  lemma {:induction false} FirstOccurrencesPrefix(names: seq<string>, k: nat)
    requires k <= |names|
    ensures var d := Filter(names[..k], FirstOccurrenceTest(names));
      && NoDuplicates(d)
      && (forall x :: x in d <==> x in names[..k])
      && (|d| == k <==> !HasDuplicates(names[..k]))
  {
    var test := FirstOccurrenceTest(names);
    if k > 0 {
      FirstOccurrencesPrefix(names, k - 1);
      FilterPrefixStep(names, test, k - 1);
      FirstOccurrenceAt(names, k - 1);
      var d0, x := Filter(names[..k - 1], test), names[k - 1];
      assert names[..k] == names[..k - 1] + [x];
      if x !in names[..k - 1] {
        assert !HasDuplicates(names[..k]) <==> !HasDuplicates(names[..k - 1]) by {
          if HasDuplicates(names[..k]) {
            var i, j :| 0 <= i < j < k && names[..k][i] == names[..k][j];
            assert names[..k][i] == names[..k - 1][i] && names[..k - 1][i] in names[..k - 1];
            assert names[..k - 1][i] == names[..k - 1][j];
          }
          if HasDuplicates(names[..k - 1]) {
            var i, j :| 0 <= i < j < k - 1 && names[..k - 1][i] == names[..k - 1][j];
            assert names[..k][i] == names[..k][j];
          }
        }
      } else {
        var i :| 0 <= i < k - 1 && names[..k - 1][i] == x;
        assert names[..k][i] == names[..k][k - 1];
      }
    } else {
      assert !HasDuplicates(names[..0]);
    }
  }

  /** The first-occurrence filter yields a duplicate-free subsequence holding
      every name of the input. */
  lemma FirstOccurrencesSound(names: seq<string>)
    ensures IsSubsequence(FirstOccurrences(names), names)
    ensures NoDuplicates(FirstOccurrences(names))
    ensures forall x :: x in FirstOccurrences(names) <==> x in names
  {
    FilterIsSubsequence(names, FirstOccurrenceTest(names));
    FirstOccurrencesPrefix(names, |names|);
    assert names[..|names|] == names;
  }

  /** The error is raised exactly when some name is declared twice. */
  lemma DuplicateErrorIff(names: seq<string>)
    ensures DuplicateError(names) <==> HasDuplicates(names)
  {
    FirstOccurrencesPrefix(names, |names|);
    assert names[..|names|] == names;
  }
}
