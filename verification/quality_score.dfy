/** `calculateQualityScore` of `main.py`: the points of a list of graded
    records over five points per record. The quotient is kept exact, as the
    pair of its numerator and denominator. */
module QualityScore {
  import opened Records

  /** The most points one record can earn. */
  const MaxGrade: int := 5

  /** Every record has a grade `int` accepts; otherwise the program raises
      part-way through the list. */
  predicate Gradable(arr: seq<Record>) {
    forall k :: 0 <= k < |arr| ==> GradeOf(arr[k]).Some?
  }

  /** The grades of the records, in order. */
  function Grades(arr: seq<Record>): (g: seq<int>)
    requires Gradable(arr)
    ensures |g| == |arr|
  {
    seq(|arr|, k requires 0 <= k < |arr| => GradeOf(arr[k]).value)
  }

  /** The sum of a list of grades, from the front. */
  function Sum(xs: seq<int>): int {
    if |xs| == 0 then 0 else Sum(xs[..|xs| - 1]) + xs[|xs| - 1]
  }

  /** Every grade lies in 0..5: the rubric's 1..5, or a 0 that a reply
      such as `<grade>0</grade>` can carry. */
  predicate InRange(xs: seq<int>) {
    forall k :: 0 <= k < |xs| ==> 0 <= xs[k] <= MaxGrade
  }

  /** Every grade is the top grade. */
  predicate AllTop(xs: seq<int>) {
    forall k :: 0 <= k < |xs| ==> xs[k] == MaxGrade
  }

  /** The loop of `calculateQualityScore`, returning `points/total` as the
      pair (points, total). The source has no guard for an empty list
      (the division raises) nor for an ungradable record (`int` raises), so
      both are preconditions. */
  method CalculateQualityScore(arr: seq<Record>) returns (points: int, total: int)
    requires |arr| > 0 && Gradable(arr)
    ensures total == MaxGrade * |arr| && total > 0
    ensures points == Sum(Grades(arr))
  {
    ghost var g := Grades(arr);
    points := 0;
    total := 0;
    for i := 0 to |arr|
      invariant total == MaxGrade * i
      invariant points == Sum(g[..i])
    {
      total := total + MaxGrade;
      assert g[..i + 1][..i] == g[..i];
      points := points + GradeOf(arr[i]).value;
    }
    assert g[..|arr|] == g;
  }

  /** With every grade in 0..5, `0 <= points <= total`. */
  lemma {:induction false} SumBounds(xs: seq<int>)
    requires InRange(xs)
    ensures 0 <= Sum(xs) <= MaxGrade * |xs|
  {
    if |xs| > 0 {
      var init := xs[..|xs| - 1];
      assert InRange(init) by {
        assert forall k :: 0 <= k < |init| ==> init[k] == xs[k];
      }
      SumBounds(init);
    }
  }

  /** Top grades throughout give full points. */
  lemma {:induction false} AllTopFull(xs: seq<int>)
    requires AllTop(xs)
    ensures Sum(xs) == MaxGrade * |xs|
  {
    if |xs| > 0 {
      var init := xs[..|xs| - 1];
      assert AllTop(init) by {
        assert forall k :: 0 <= k < |init| ==> init[k] == xs[k];
      }
      AllTopFull(init);
    }
  }

  /** With every grade in 0..5, full points need the top grade throughout. */
  lemma {:induction false} FullAllTop(xs: seq<int>)
    requires InRange(xs) && Sum(xs) == MaxGrade * |xs|
    ensures AllTop(xs)
  {
    if |xs| > 0 {
      var init := xs[..|xs| - 1];
      assert forall k :: 0 <= k < |init| ==> init[k] == xs[k];
      assert InRange(init);
      SumBounds(init);
      FullAllTop(init);
    }
  }

  /** With every grade in 0..5, the points reach the total exactly when
      every grade is 5. */
  lemma SumTop(xs: seq<int>)
    requires InRange(xs)
    ensures Sum(xs) == MaxGrade * |xs| <==> AllTop(xs)
  {
    if AllTop(xs) {
      AllTopFull(xs);
    }
    if Sum(xs) == MaxGrade * |xs| {
      FullAllTop(xs);
    }
  }

  /** The displayed score `points/total` lies in [0, 1] and is 1 exactly
      when every grade is 5. */
  lemma Score(arr: seq<Record>)
    requires |arr| > 0 && Gradable(arr) && InRange(Grades(arr))
    ensures var g := Grades(arr);
            && 0.0 <= Sum(g) as real / (MaxGrade * |arr|) as real <= 1.0
            && (Sum(g) as real / (MaxGrade * |arr|) as real == 1.0 <==> AllTop(g))
  {
    var g := Grades(arr);
    SumBounds(g);
    SumTop(g);
    UnitFraction(Sum(g), MaxGrade * |arr|);
  }

  /** A fraction of naturals with the numerator at most the denominator lies
      in [0, 1] and is 1 only when the two are equal. */
  lemma UnitFraction(p: int, t: int)
    requires 0 <= p <= t && 0 < t
    ensures 0.0 <= p as real / t as real <= 1.0
    ensures p as real / t as real == 1.0 <==> p == t
  {
  }
}
