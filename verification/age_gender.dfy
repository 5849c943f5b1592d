/** Age bucketing: the estimated age (truncated to an integer) is reported as
    a three-year range label. The age and gender models themselves are not
    part of this module. */
module AgeGender {
  import opened Text

  /** Where an age falls: below the first bucket, in the three-year bucket
      starting at `start`, or above the last bucket. */
  datatype AgeBucket = Under18 | Span(start: nat) | Over80

  /** The first bucket starts at 18; the last, starting at 78, ends at 80. */
  const FirstStart: nat := 18
  const LastStart: nat := 78
  const BucketWidth: nat := 3

  /** `start` is one of the values `range(18, 80, 3)` yields. */
  predicate IsBucketStart(start: int) {
    FirstStart <= start <= LastStart && (start - FirstStart) % BucketWidth == 0
  }

  /** The bucket of an age: `18 + 3 * ((age - 18) div 3)` for ages 18 to 80. */
  function BucketOf(age: int): (b: AgeBucket)
    ensures b == Under18 <==> age < 18
    ensures b == Over80 <==> age > 80
    ensures b.Span? ==> IsBucketStart(b.start) && b.start <= age <= b.start + 2
  {
    if age < FirstStart then Under18
    else if age <= LastStart + 2 then Span(FirstStart + BucketWidth * ((age - FirstStart) / BucketWidth))
    else Over80
  }

  /** The text of a bucket: "Below 18", "s-e" with `e = s + 2`, or "80+". */
  function Label(b: AgeBucket): string {
    match b
    case Under18 => "Below 18"
    case Span(s) => NatToString(s) + "-" + NatToString(s + 2)
    case Over80 => "80+"
  }

  /** `get_age_range` as a function of the age. */
  function AgeRange(age: int): string {
    Label(BucketOf(age))
  }

  /** The bucket starting at a valid `start` holds exactly the ages
      `start..start+2`. */
  lemma {:induction false} BucketExact(age: int, start: int)
    requires IsBucketStart(start)
    ensures BucketOf(age) == Span(start) <==> start <= age <= start + 2
  {
    if start <= age <= start + 2 {
      var q := (start - FirstStart) / BucketWidth;
      assert start - FirstStart == BucketWidth * q;
      assert age - FirstStart == BucketWidth * q + (age - start);
      assert (age - FirstStart) / BucketWidth == q;
    }
  }

  /** `get_age_range`: scans the buckets `range(18, 80, 3)` in order and
      returns the first that holds the age. */
  method GetAgeRange(age: int) returns (text: string)
    ensures text == Label(BucketOf(age))
    ensures age < 18 ==> text == "Below 18"
    ensures age > 80 ==> text == "80+"
  {
    if age < FirstStart {
      return "Below 18";
    }
    var start := FirstStart;
    while start < LastStart + 2
      invariant FirstStart <= start <= LastStart + BucketWidth
      invariant (start - FirstStart) % BucketWidth == 0
      invariant start <= age
      decreases LastStart + 2 - start
    {
      var end := start + 2;
      if start <= age <= end {
        BucketExact(age, start);
        return NatToString(start) + "-" + NatToString(end);
      }
      start := start + BucketWidth;
    }
    return "80+";
  }

  /** A higher age never falls in an earlier bucket. */
  lemma BucketMonotone(a1: int, a2: int)
    requires a1 <= a2
    ensures BucketOf(a2) == Under18 ==> BucketOf(a1) == Under18
    ensures BucketOf(a1) == Over80 ==> BucketOf(a2) == Over80
    ensures BucketOf(a1).Span? && BucketOf(a2).Span? ==> BucketOf(a1).start <= BucketOf(a2).start
  {
  }

  /** A bucket label starts with its two-digit start. */
  lemma {:induction false} SpanLabelPrefix(s: nat)
    requires IsBucketStart(s)
    ensures |NatToString(s)| == 2 && |NatToString(s + 2)| == 2
    ensures |Label(Span(s))| == 5
    ensures Label(Span(s))[..2] == NatToString(s)
  {
    TwoDigitLength(s);
    TwoDigitLength(s + 2);
  }

  /** Distinct buckets have distinct labels, so every age gets exactly one
      label and two ages share a label exactly when they share a bucket. */
  lemma AgeRangeSameIff(a1: int, a2: int)
    ensures AgeRange(a1) == AgeRange(a2) <==> BucketOf(a1) == BucketOf(a2)
  {
    var b1, b2 := BucketOf(a1), BucketOf(a2);
    if Label(b1) == Label(b2) {
      if b1.Span? {
        SpanLabelPrefix(b1.start);
      }
      if b2.Span? {
        SpanLabelPrefix(b2.start);
      }
      if b1.Span? && b2.Span? {
        ParseNatToString(b1.start);
        ParseNatToString(b2.start);
      } else {
        assert |Label(b1)| == |Label(b2)|;
      }
    }
  }

  /** The boundary cases: 17, 18, 80 and 81. */
  lemma AgeRangeBoundaries()
    ensures AgeRange(17) == "Below 18"
    ensures AgeRange(18) == "18-20"
    ensures AgeRange(80) == "78-80"
    ensures AgeRange(81) == "80+"
  {
    assert BucketOf(18) == Span(18) by { BucketExact(18, 18); }
    assert BucketOf(80) == Span(78) by { BucketExact(80, 78); }
    assert NatToString(18) == "18";
    assert NatToString(20) == "20";
    assert NatToString(78) == "78";
    assert NatToString(80) == "80";
  }
}
