/**
 The benchmark's input generator, `makeShortStringSlice(numStrings,
 moduloSkip)`: it walks the candidates `1000 + i` for `i` from 0 up to
 `numStrings`, skips every candidate that `moduloSkip` divides, and appends
 the decimal rendering of the others.

 `Kept` states, over the integers, which candidates survive; the method is
 proved to return their renderings in order, and the lemmas below say what
 that sequence is: exactly the non-multiples in range, strictly increasing,
 no longer than `numStrings`, and free of duplicates.
 */
module Generator {
  import Decimal
  import Membership

  /** The first candidate value. */
  const Base: nat := 1000

  /** The skip rule: a candidate that `moduloSkip` divides is left out. */
  predicate Skipped(candidate: int, moduloSkip: int)
    requires moduloSkip != 0
  {
    candidate % moduloSkip == 0
  }

  /**
   The candidates among the first `count` that survive the skip rule, in the
   order the generator meets them. A `count` of zero or less gives none, as
   Go's counted loop then runs no iteration.
   */
  function Kept(count: int, moduloSkip: int): seq<nat>
    requires moduloSkip != 0
  {
    if count <= 0 then []
    else
      var candidate: nat := Base + count - 1;
      Kept(count - 1, moduloSkip) + (if Skipped(candidate, moduloSkip) then [] else [candidate])
  }

  /** The decimal rendering of each value, in the same order. */
  function RenderAll(values: seq<nat>): (strings: seq<string>)
    ensures |strings| == |values|
    ensures forall i :: 0 <= i < |values| ==> strings[i] == Decimal.Render(values[i])
  {
    if values == [] then [] else RenderAll(values[..|values| - 1]) + [Decimal.Render(values[|values| - 1])]
  }

  /**
   A value is kept exactly when it is a candidate (between `Base` and
   `Base + count`) that `moduloSkip` does not divide. Divisibility does not
   depend on whether `%` truncates (Go) or is Euclidean (Dafny).
   */
  lemma {:induction false} KeptExactly(count: int, moduloSkip: int)
    requires moduloSkip != 0
    ensures forall v :: v in Kept(count, moduloSkip) <==> Base <= v < Base + count && !Skipped(v, moduloSkip)
  {
    if count > 0 {
      KeptExactly(count - 1, moduloSkip);
    }
  }

  /** The kept values are strictly increasing, so in numeric order and distinct. */
  lemma {:induction false} KeptIncreasing(count: int, moduloSkip: int)
    requires moduloSkip != 0
    ensures forall i, j :: 0 <= i < j < |Kept(count, moduloSkip)| ==>
      Kept(count, moduloSkip)[i] < Kept(count, moduloSkip)[j]
  {
    if count > 0 {
      var before := Kept(count - 1, moduloSkip);
      KeptIncreasing(count - 1, moduloSkip);
      KeptExactly(count - 1, moduloSkip);
      assert forall i :: 0 <= i < |before| ==> before[i] in before;
    }
  }

  /** At most one value is kept per candidate. */
  lemma {:induction false} KeptLength(count: int, moduloSkip: int)
    requires moduloSkip != 0
    ensures |Kept(count, moduloSkip)| <= if count < 0 then 0 else count
  {
    if count > 0 {
      KeptLength(count - 1, moduloSkip);
    }
  }

  /** A number's rendering is among the renderings exactly when the number is among the values. */
  lemma RenderAllMembership(values: seq<nat>, v: nat)
    ensures Decimal.Render(v) in RenderAll(values) <==> v in values
  {
    var strings := RenderAll(values);
    if Decimal.Render(v) in strings {
      var i :| 0 <= i < |strings| && strings[i] == Decimal.Render(v);
      Decimal.RenderInjective(values[i], v);
    }
    if v in values {
      var i :| 0 <= i < |values| && values[i] == v;
      assert strings[i] == Decimal.Render(v);
    }
  }

  /** Each rendering reads back as one of the values, and is that value's rendering. */
  lemma RenderAllReadBack(values: seq<nat>)
    ensures forall x :: x in RenderAll(values) ==>
      Decimal.AllDigits(x) && Decimal.Parse(x) in values && x == Decimal.Render(Decimal.Parse(x))
  {
    var strings := RenderAll(values);
    forall x | x in strings
      ensures Decimal.AllDigits(x) && Decimal.Parse(x) in values && x == Decimal.Render(Decimal.Parse(x))
    {
      var i :| 0 <= i < |strings| && strings[i] == x;
      Decimal.ParseRender(values[i]);
    }
  }

  /** Renderings of strictly increasing values read back strictly increasing, hence distinct. */
  lemma RenderAllIncreasing(values: seq<nat>)
    requires forall i, j :: 0 <= i < j < |values| ==> values[i] < values[j]
    ensures var strings := RenderAll(values);
      forall i, j :: 0 <= i < j < |strings| ==>
        Decimal.Parse(strings[i]) < Decimal.Parse(strings[j]) && strings[i] != strings[j]
  {
    var strings := RenderAll(values);
    forall i, j | 0 <= i < j < |strings|
      ensures Decimal.Parse(strings[i]) < Decimal.Parse(strings[j]) && strings[i] != strings[j]
    {
      Decimal.ParseRender(values[i]);
      Decimal.ParseRender(values[j]);
    }
  }

  /** The "short" strings: while at most 9000 candidates are walked, every one renders as four digits. */
  lemma GeneratedStringsAreShort(numStrings: int, moduloSkip: int)
    requires moduloSkip != 0 && numStrings <= 9000
    ensures forall x :: x in RenderAll(Kept(numStrings, moduloSkip)) ==> |x| == 4
  {
    var values := Kept(numStrings, moduloSkip);
    var strings := RenderAll(values);
    KeptExactly(numStrings, moduloSkip);
    forall x | x in strings
      ensures |x| == 4
    {
      var i :| 0 <= i < |strings| && strings[i] == x;
      assert values[i] in values;
      Decimal.RenderFourDigits(values[i]);
    }
  }

  /**
   What the generated slice is: the renderings of exactly the non-multiples
   of `moduloSkip` from `Base` up to `Base + numStrings`, nothing else,
   strictly increasing in numeric value, no more of them than `numStrings`,
   and no string twice.
   */
  lemma GeneratedSlice(numStrings: int, moduloSkip: int)
    requires moduloSkip != 0
    ensures |RenderAll(Kept(numStrings, moduloSkip))| <= if numStrings < 0 then 0 else numStrings
    ensures forall v: nat :: Decimal.Render(v) in RenderAll(Kept(numStrings, moduloSkip)) <==>
      Base <= v < Base + numStrings && !Skipped(v, moduloSkip)
    ensures forall x :: x in RenderAll(Kept(numStrings, moduloSkip)) ==>
      Decimal.AllDigits(x) && x == Decimal.Render(Decimal.Parse(x)) &&
      Base <= Decimal.Parse(x) < Base + numStrings && !Skipped(Decimal.Parse(x), moduloSkip)
    ensures var slice := RenderAll(Kept(numStrings, moduloSkip));
      forall i, j :: 0 <= i < j < |slice| ==>
        Decimal.Parse(slice[i]) < Decimal.Parse(slice[j]) && slice[i] != slice[j]
  {
    var values := Kept(numStrings, moduloSkip);
    var slice := RenderAll(values);
    KeptLength(numStrings, moduloSkip);
    KeptExactly(numStrings, moduloSkip);
    KeptIncreasing(numStrings, moduloSkip);
    RenderAllIncreasing(values);
    forall v: nat
      ensures Decimal.Render(v) in slice <==> Base <= v < Base + numStrings && !Skipped(v, moduloSkip)
    {
      RenderAllMembership(values, v);
    }
    RenderAllReadBack(values);
  }

  /**
   `makeShortStringSlice`: the counted loop with `continue` that appends the
   rendering of every candidate that `moduloSkip` does not divide. Go panics
   on a zero divisor, hence the precondition.
   */
  method MakeShortStringSlice(numStrings: int, moduloSkip: int) returns (slice: seq<string>)
    requires moduloSkip != 0
    ensures slice == RenderAll(Kept(numStrings, moduloSkip))
    ensures |slice| <= if numStrings < 0 then 0 else numStrings
    ensures forall i, j :: 0 <= i < j < |slice| ==> slice[i] != slice[j]
  {
    GeneratedSlice(numStrings, moduloSkip);
    slice := [];
    var count := if numStrings < 0 then 0 else numStrings;
    for i := 0 to count
      invariant slice == RenderAll(Kept(i, moduloSkip))
    {
      var unique := Base + i;
      if Skipped(unique, moduloSkip) {
        continue;
      }
      slice := slice + [Decimal.Render(unique)];
    }
  }

  /** The list the benchmark calls B for ten candidates: skip modulus 2. */
  lemma TenCandidatesSkipTwo()
    ensures RenderAll(Kept(10, 2)) == ["1001", "1003", "1005", "1007", "1009"]
  {
    assert Kept(10, 2) == [1001, 1003, 1005, 1007, 1009];
    assert Decimal.Render(1001) == "1001";
    assert Decimal.Render(1003) == "1003";
    assert Decimal.Render(1005) == "1005";
    assert Decimal.Render(1007) == "1007";
    assert Decimal.Render(1009) == "1009";
  }

  /** The list the benchmark calls C for ten candidates: skip modulus 3. */
  lemma TenCandidatesSkipThree()
    ensures RenderAll(Kept(10, 3)) == ["1000", "1001", "1003", "1004", "1006", "1007", "1009"]
  {
    assert Kept(10, 3) == [1000, 1001, 1003, 1004, 1006, 1007, 1009];
    assert Decimal.Render(1000) == "1000";
    assert Decimal.Render(1001) == "1001";
    assert Decimal.Render(1003) == "1003";
    assert Decimal.Render(1004) == "1004";
    assert Decimal.Render(1006) == "1006";
    assert Decimal.Render(1007) == "1007";
    assert Decimal.Render(1009) == "1009";
  }

  /** The list the benchmark calls D for ten candidates: skip modulus 4. */
  lemma TenCandidatesSkipFour()
    ensures RenderAll(Kept(10, 4)) == ["1001", "1002", "1003", "1005", "1006", "1007", "1009"]
  {
    assert Kept(10, 4) == [1001, 1002, 1003, 1005, 1006, 1007, 1009];
    assert Decimal.Render(1001) == "1001";
    assert Decimal.Render(1002) == "1002";
    assert Decimal.Render(1003) == "1003";
    assert Decimal.Render(1005) == "1005";
    assert Decimal.Render(1006) == "1006";
    assert Decimal.Render(1007) == "1007";
    assert Decimal.Render(1009) == "1009";
  }

  /**
   One generated slice is included in another of the same length exactly when
   every candidate the first keeps, the second keeps too.
   */
  lemma GeneratedInclusion(numStrings: int, skip1: int, skip2: int)
    requires skip1 != 0 && skip2 != 0
    ensures Membership.AllContained(RenderAll(Kept(numStrings, skip1)), RenderAll(Kept(numStrings, skip2))) <==>
      forall v :: Base <= v < Base + numStrings && !Skipped(v, skip1) ==> !Skipped(v, skip2)
  {
    var kept1, kept2 := Kept(numStrings, skip1), Kept(numStrings, skip2);
    var slice1, slice2 := RenderAll(kept1), RenderAll(kept2);
    Membership.AllContainedIsInclusion(slice1, slice2);
    KeptExactly(numStrings, skip1);
    KeptExactly(numStrings, skip2);
    if forall v :: Base <= v < Base + numStrings && !Skipped(v, skip1) ==> !Skipped(v, skip2) {
      forall i | 0 <= i < |slice1|
        ensures slice1[i] in slice2
      {
        assert kept1[i] in kept1;
        RenderAllMembership(kept2, kept1[i]);
      }
    }
    if forall i :: 0 <= i < |slice1| ==> slice1[i] in slice2 {
      forall v | Base <= v < Base + numStrings && !Skipped(v, skip1)
        ensures !Skipped(v, skip2)
      {
        assert v in kept1;
        var i :| 0 <= i < |kept1| && kept1[i] == v;
        assert slice1[i] in slice2;
        RenderAllMembership(kept2, v);
      }
    }
  }

  /**
   The first two pairs the benchmark compares for ten candidates: B (skip
   modulus 2) is not included in C (skip modulus 3), because 1005 is odd and
   a multiple of 3, but B is included in D (skip modulus 4), because every
   multiple of 4 is even.
   */
  lemma TenCandidatePairs()
    ensures !Membership.AllContained(RenderAll(Kept(10, 2)), RenderAll(Kept(10, 3)))
    ensures Membership.AllContained(RenderAll(Kept(10, 2)), RenderAll(Kept(10, 4)))
  {
    assert !Skipped(1005, 2) && Skipped(1005, 3) by {
      assert 1005 == 2 * 502 + 1 && 1005 == 3 * 335;
    }
    forall v | !Skipped(v, 2)
      ensures !Skipped(v, 4)
    {
      var q, r := v / 2, v % 2;
      assert v == 4 * (q / 2) + 2 * (q % 2) + r;
    }
    GeneratedInclusion(10, 2, 3);
    GeneratedInclusion(10, 2, 4);
  }
}
