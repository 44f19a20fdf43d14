/**
 Set inclusion over slices of strings, two ways: by linear search
 (`StringInStringSlice`, `StringSliceInStringSlice`) and by first filling a
 map whose keys are the strings of a slice (`StringInStringSliceUsingMap`,
 `StringSliceInStringSliceUsingMap`).

 A Go slice that is only read is modelled as a `seq<string>`, and Go's
 `map[string]struct{}` as a `map<string, ()>`. The pure functions
 `Contains` and `AllContained` are the reference definitions of the linear
 search; every method is proved equal to one of them, so the map-backed
 methods agree with their linear twins on all inputs.
 */
module Membership {

  /** The linear search, as a recursive function: does `s` equal some element? */
  function Contains(s: string, slice: seq<string>): bool
  {
    |slice| > 0 && (slice[0] == s || Contains(s, slice[1..]))
  }

  /** Every string of `slice1`, in order, passes `Contains` against `slice2`. */
  function AllContained(slice1: seq<string>, slice2: seq<string>): bool
  {
    |slice1| == 0 || (Contains(slice1[0], slice2) && AllContained(slice1[1..], slice2))
  }

  /** The set of strings that occur in `slice`. */
  ghost function Elements(slice: seq<string>): set<string>
  {
    set x | x in slice
  }

  /**
   The map left by inserting every string of `slice`, in order, as a key with
   the empty value, starting from an empty map.
   */
  function Inserted(slice: seq<string>): map<string, ()>
  {
    if slice == [] then map[] else Inserted(slice[..|slice| - 1])[slice[|slice| - 1] := ()]
  }

  /** The linear search finds `s` exactly when `s` occurs in `slice`. */
  lemma {:induction false} ContainsIsOccurrence(s: string, slice: seq<string>)
    ensures Contains(s, slice) <==> s in slice
  {
    if |slice| > 0 {
      ContainsIsOccurrence(s, slice[1..]);
      assert slice == [slice[0]] + slice[1..];
    }
  }

  /** `AllContained` holds exactly when every element of `slice1` occurs in `slice2`. */
  lemma {:induction false} AllContainedIsInclusion(slice1: seq<string>, slice2: seq<string>)
    ensures AllContained(slice1, slice2) <==> forall i :: 0 <= i < |slice1| ==> slice1[i] in slice2
    ensures AllContained(slice1, slice2) <==> Elements(slice1) <= Elements(slice2)
  {
    if |slice1| > 0 {
      AllContainedIsInclusion(slice1[1..], slice2);
      ContainsIsOccurrence(slice1[0], slice2);
      assert forall i :: 1 <= i < |slice1| ==> slice1[i] == slice1[1..][i - 1];
      assert Elements(slice1) == {slice1[0]} + Elements(slice1[1..]) by {
        assert slice1 == [slice1[0]] + slice1[1..];
      }
    }
  }

  /** An empty `slice1` is always included; a non-empty one never is in an empty `slice2`. */
  lemma EmptyBoundaries(slice1: seq<string>, slice2: seq<string>)
    ensures slice1 == [] ==> AllContained(slice1, slice2)
    ensures slice1 != [] && slice2 == [] ==> !AllContained(slice1, slice2)
  {
  }

  /**
   The keys of the filled map are exactly the strings of the slice, with no
   extra key; duplicates in the slice give one key each, so the map has at
   most as many keys as the slice has elements, and exactly as many when the
   slice has no duplicates.
   */
  lemma {:induction false} InsertedKeys(slice: seq<string>)
    ensures Inserted(slice).Keys == Elements(slice)
    ensures |Inserted(slice)| <= |slice|
    ensures (forall i, j :: 0 <= i < j < |slice| ==> slice[i] != slice[j]) ==> |Inserted(slice)| == |slice|
  {
    if slice != [] {
      var init, last := slice[..|slice| - 1], slice[|slice| - 1];
      InsertedKeys(init);
      assert slice == init + [last];
      assert Elements(slice) == Elements(init) + {last};
      if forall i, j :: 0 <= i < j < |slice| ==> slice[i] != slice[j] {
        assert last !in init;
      }
    }
  }

  /** `StringInStringSlice`: a linear search that returns on the first match. */
  method StringInStringSlice(s: string, slice: seq<string>) returns (found: bool)
    ensures found == Contains(s, slice)
    ensures found <==> s in slice
  {
    ContainsIsOccurrence(s, slice);
    for i := 0 to |slice|
      invariant Contains(s, slice) == Contains(s, slice[i..])
    {
      if s == slice[i] {
        return true;
      }
      assert slice[i..][1..] == slice[i + 1..];
    }
    return false;
  }

  /** `StringSliceInStringSlice`: one linear search per string of `slice1`; stops at the first miss. */
  method StringSliceInStringSlice(slice1: seq<string>, slice2: seq<string>) returns (all: bool)
    ensures all == AllContained(slice1, slice2)
    ensures all <==> forall i :: 0 <= i < |slice1| ==> slice1[i] in slice2
  {
    AllContainedIsInclusion(slice1, slice2);
    for i := 0 to |slice1|
      invariant AllContained(slice1, slice2) == AllContained(slice1[i..], slice2)
    {
      var inSlice := StringInStringSlice(slice1[i], slice2);
      if !inSlice {
        return false;
      }
      assert slice1[i..][1..] == slice1[i + 1..];
    }
    return true;
  }

  /**
   `StringInStringSliceUsingMap`: fills a map with the strings of `slice`,
   one key per iteration, then looks `s` up. Agrees with the linear search.
   */
  method StringInStringSliceUsingMap(s: string, slice: seq<string>) returns (found: bool)
    ensures found == Contains(s, slice)
    ensures found <==> s in slice
  {
    var stringmap: map<string, ()> := map[];
    for i := 0 to |slice|
      invariant stringmap == Inserted(slice[..i])
    {
      assert slice[..i + 1][..i] == slice[..i];
      stringmap := stringmap[slice[i] := ()];
    }
    assert slice[..|slice|] == slice;
    InsertedKeys(slice);
    ContainsIsOccurrence(s, slice);
    if s in stringmap {
      return true;
    }
    return false;
  }

  /**
   `StringSliceInStringSliceUsingMap`: fills one map from `slice2`, then looks
   up every string of `slice1`, stopping at the first miss. Agrees with the
   linear `StringSliceInStringSlice`, duplicates in `slice2` included.
   */
  method StringSliceInStringSliceUsingMap(slice1: seq<string>, slice2: seq<string>) returns (all: bool)
    ensures all == AllContained(slice1, slice2)
    ensures all <==> forall i :: 0 <= i < |slice1| ==> slice1[i] in slice2
  {
    AllContainedIsInclusion(slice1, slice2);
    var stringmap: map<string, ()> := map[];
    for i := 0 to |slice2|
      invariant stringmap == Inserted(slice2[..i])
    {
      assert slice2[..i + 1][..i] == slice2[..i];
      stringmap := stringmap[slice2[i] := ()];
    }
    assert slice2[..|slice2|] == slice2;
    InsertedKeys(slice2);
    for i := 0 to |slice1|
      invariant AllContained(slice1, slice2) == AllContained(slice1[i..], slice2)
    {
      if slice1[i] !in stringmap {
        ContainsIsOccurrence(slice1[i], slice2);
        return false;
      }
      ContainsIsOccurrence(slice1[i], slice2);
      assert slice1[i..][1..] == slice1[i + 1..];
    }
    return true;
  }

  /**
   A caller's view: the linear and the map-backed predicates give the same
   answers, and each predicate asked the same question a second time gives
   the same answer, since none of them changes its input slices.
   */
  method LinearAndMapAgree(s: string, slice1: seq<string>, slice2: seq<string>)
    returns (one: bool, oneAgain: bool, oneUsingMap: bool, oneUsingMapAgain: bool,
             all: bool, allAgain: bool, allUsingMap: bool, allUsingMapAgain: bool)
    ensures one == oneAgain == oneUsingMap == oneUsingMapAgain
    ensures all == allAgain == allUsingMap == allUsingMapAgain
  {
    one := StringInStringSlice(s, slice2);
    oneUsingMap := StringInStringSliceUsingMap(s, slice2);
    all := StringSliceInStringSlice(slice1, slice2);
    allUsingMap := StringSliceInStringSliceUsingMap(slice1, slice2);
    oneAgain := StringInStringSlice(s, slice2);
    oneUsingMapAgain := StringInStringSliceUsingMap(s, slice2);
    allAgain := StringSliceInStringSlice(slice1, slice2);
    allUsingMapAgain := StringSliceInStringSliceUsingMap(slice1, slice2);
  }
}
