/** Docker labels and the exact-ownership test on them. */
module OwnershipLabels {
  type Labels = map<string, string>

  /** Reading a missing key of a Go map yields the empty string. */
  function Lookup(labels: Labels, key: string): string {
    if key in labels then labels[key] else ""
  }

  /** exactLabels. */
  predicate ExactLabels(actual: Labels, expected: Labels) {
    |actual| == |expected| && forall key :: key in expected ==> Lookup(actual, key) == expected[key]
  }

  ghost predicate AcceptsOnlyItself(expected: Labels) {
    forall actual :: ExactLabels(actual, expected) ==> actual == expected
  }

  /** The ownership test means equality exactly when no expected value is empty: an expected key with
      an empty value may be missing, and any other key may stand in its place. */
  lemma ExactLabelsIsEqualityIff(expected: Labels)
    ensures AcceptsOnlyItself(expected) <==> forall key :: key in expected ==> expected[key] != ""
  {
    if forall key :: key in expected ==> expected[key] != "" {
      forall actual | ExactLabels(actual, expected) ensures actual == expected {
        assert forall key :: key in expected ==> key in actual && actual[key] == expected[key];
        SubsetOfSameSize(expected.Keys, actual.Keys);
      }
    } else {
      var key :| key in expected && expected[key] == "";
      var other := FreshKey(expected.Keys);
      var actual := (expected - {key})[other := "x"];
      assert actual.Keys == expected.Keys - {key} + {other};
      assert |actual| == |actual.Keys| == |expected.Keys| == |expected|;
      assert ExactLabels(actual, expected);
      assert other in actual && other !in expected;
    }
  }

  lemma SubsetOfSameSize(small: set<string>, large: set<string>)
    requires small <= large && |small| == |large|
    ensures small == large
  {
    assert |large - small| == |large| - |small|;
  }

  ghost function LongestOf(keys: set<string>): (bound: nat)
    ensures forall key :: key in keys ==> |key| <= bound
  {
    if keys == {} then 0
    else
      var key :| key in keys;
      var rest := LongestOf(keys - {key});
      if |key| > rest then |key| else rest
  }

  ghost function FreshKey(keys: set<string>): (key: string)
    ensures key !in keys
  {
    seq(LongestOf(keys) + 1, _ => 'x')
  }
}
