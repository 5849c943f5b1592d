/** Per-region skin analysis: a strict threshold test that produces a
    detection record, and the five fixed rule tables (forehead, cheek, nose,
    lips, eye). The image statistics themselves (HSV/Lab/gray conversion,
    Laplacian variance, Canny edges, means and deviations) are OpenCV numerics
    and arrive as real numbers in a `Stats` record; Python's `round(x, 2)` is
    an abstract `Rounding`. */
module RoiAnalysis {
  import opened Basics

  /** One verdict of the report: the (rounded) measured value, the threshold
      and comparison applied to it, and the resulting label. */
  datatype Detection = Detection(value: real, threshold: real, comparison: string, detected: string)

  /** The metrics of one region in report order. */
  type Metrics = seq<(string, Detection)>

  /** Python's `round(float(x), 2)`. */
  type Rounding = real -> real

  /** The statistics an analyzer reads from a region patch. */
  datatype Stats = Stats(
    brightness: real,    // mean of the HSV value channel
    laplacianVar: real,  // variance of the Laplacian of the grayscale patch
    lightnessStd: real,  // standard deviation of the Lab L channel
    bMean: real,         // mean of the Lab B channel
    aMean: real,         // mean of the Lab A channel
    edgeDensity: real,   // sum of Canny(100, 200) edge values per pixel
    darkRatio: real,     // fraction of grayscale pixels below 50
    edgeStrength: real,  // sum of Canny(50, 150) edge values per pixel
    grayStd: real)       // standard deviation of the grayscale patch

  /** Which statistic a rule tests. */
  datatype Statistic =
    | Brightness | LaplacianVariance | LightnessSpread | BMean | Discoloration
    | EdgeDensity | DarkRatio | EdgeStrength | GraySpread

  /** One row of a rule table. */
  datatype Rule = Rule(metric: string, statistic: Statistic, threshold: real, comparison: string)

  const Yes: string := "Yes"
  const No: string := "No"

  /** The Lab A value lips are compared against. */
  const LipsReferenceA: real := 150.0

  function Abs(x: real): real { if x < 0.0 then -x else x }

  /** The default labels of a verdict. */
  function Label(positive: bool): string { if positive then Yes else No }

  /** `build_result`: the verdict is the positive label when `value` is
      strictly above `threshold` for the comparison `">"`, or strictly below
      it for any other comparison string; the stored value is rounded, the
      decision is not. */
  function BuildResult(value: real, threshold: real, comparison: string,
                       labelPositive: string, labelNegative: string, round2: Rounding): (d: Detection)
    ensures d.value == round2(value) && d.threshold == threshold && d.comparison == comparison
    ensures comparison == ">" && value > threshold ==> d.detected == labelPositive
    ensures comparison == ">" && value <= threshold ==> d.detected == labelNegative
    ensures comparison != ">" && value < threshold ==> d.detected == labelPositive
    ensures comparison != ">" && value >= threshold ==> d.detected == labelNegative
  {
    var ok := if comparison == ">" then value > threshold else value < threshold;
    Detection(round2(value), threshold, comparison, if ok then labelPositive else labelNegative)
  }

  /** A value equal to the threshold is never flagged, whatever the
      comparison. */
  lemma ThresholdIsStrict(value: real, comparison: string, pos: string, neg: string, round2: Rounding)
    ensures BuildResult(value, value, comparison, pos, neg, round2).detected == neg
  {
  }

  /** The value a rule tests. */
  function Measure(s: Stats, stat: Statistic): (v: real)
    ensures stat == Discoloration ==> v >= 0.0
    ensures stat == Discoloration ==> v == s.aMean - LipsReferenceA || v == LipsReferenceA - s.aMean
  {
    match stat
    case Brightness => s.brightness
    case LaplacianVariance => s.laplacianVar
    case LightnessSpread => s.lightnessStd
    case BMean => s.bMean
    case Discoloration => Abs(s.aMean - LipsReferenceA)
    case EdgeDensity => s.edgeDensity
    case DarkRatio => s.darkRatio
    case EdgeStrength => s.edgeStrength
    case GraySpread => s.grayStd
  }

  /** Runs a rule table: one verdict per rule, in table order, with the
      default labels. */
  function Evaluate(rules: seq<Rule>, s: Stats, round2: Rounding): (m: Metrics)
    ensures |m| == |rules|
    ensures forall k :: 0 <= k < |rules| ==>
      var r, v := rules[k], Measure(s, rules[k].statistic);
      m[k] == (r.metric, Detection(round2(v), r.threshold, r.comparison,
                                   Label(if r.comparison == ">" then v > r.threshold else v < r.threshold)))
  {
    if rules == [] then []
    else
      var r := rules[0];
      [(r.metric, BuildResult(Measure(s, r.statistic), r.threshold, r.comparison, Yes, No, round2))]
        + Evaluate(rules[1..], s, round2)
  }

  /** The Dryness threshold: darker regions get the more permissive 120. */
  function DrynessThreshold(s: Stats): real {
    if s.brightness < 100.0 then 120.0 else 100.0
  }

  function ForeheadRules(s: Stats): seq<Rule> {
    [ Rule("Oiliness", Brightness, 170.0, ">"),
      Rule("Dryness", LaplacianVariance, DrynessThreshold(s), "<"),
      Rule("Pigmentation", LightnessSpread, 12.0, ">"),
      Rule("Redness", BMean, 145.0, ">"),
      Rule("Wrinkles", LaplacianVariance, 350.0, ">") ]
  }

  function CheekRules(s: Stats): seq<Rule> {
    [ Rule("Oiliness", Brightness, 170.0, ">"),
      Rule("Dryness", LaplacianVariance, DrynessThreshold(s), "<"),
      Rule("Acne", EdgeDensity, 0.12, ">"),
      Rule("Pigmentation", LightnessSpread, 12.0, ">"),
      Rule("Redness", BMean, 145.0, ">") ]
  }

  const NoseRules: seq<Rule> := [
    Rule("Shiny Nose", Brightness, 170.0, ">"),
    Rule("Blackheads", DarkRatio, 0.1, ">"),
    Rule("Clogged Pores", LaplacianVariance, 180.0, ">") ]

  const LipsRules: seq<Rule> := [
    Rule("Dry Lips", LaplacianVariance, 120.0, "<"),
    Rule("Discoloration", Discoloration, 15.0, ">") ]

  const EyeRules: seq<Rule> := [
    Rule("Dark Circles", Brightness, 70.0, "<"),
    Rule("Wrinkles (Crow's Feet)", LaplacianVariance, 300.0, ">"),
    Rule("Puffy Eyes", EdgeStrength, 5.0, "<"),
    Rule("Open Pores", GraySpread, 40.0, ">") ]

  /** `analyze_forehead_roi`. */
  function AnalyzeForehead(s: Stats, round2: Rounding): (m: Metrics)
    ensures Keys(m) == ["Oiliness", "Dryness", "Pigmentation", "Redness", "Wrinkles"]
    ensures m[0].1 == Detection(round2(s.brightness), 170.0, ">", Label(s.brightness > 170.0))
    ensures m[1].1.threshold == (if s.brightness < 100.0 then 120.0 else 100.0)
    ensures m[1].1 == Detection(round2(s.laplacianVar), m[1].1.threshold, "<",
                                Label(s.laplacianVar < m[1].1.threshold))
    ensures m[2].1 == Detection(round2(s.lightnessStd), 12.0, ">", Label(s.lightnessStd > 12.0))
    ensures m[3].1 == Detection(round2(s.bMean), 145.0, ">", Label(s.bMean > 145.0))
    ensures m[4].1 == Detection(round2(s.laplacianVar), 350.0, ">", Label(s.laplacianVar > 350.0))
  {
    Evaluate(ForeheadRules(s), s, round2)
  }

  /** `analyze_cheek_roi`. */
  function AnalyzeCheek(s: Stats, round2: Rounding): (m: Metrics)
    ensures Keys(m) == ["Oiliness", "Dryness", "Acne", "Pigmentation", "Redness"]
    ensures m[0].1 == Detection(round2(s.brightness), 170.0, ">", Label(s.brightness > 170.0))
    ensures m[1].1.threshold == (if s.brightness < 100.0 then 120.0 else 100.0)
    ensures m[1].1 == Detection(round2(s.laplacianVar), m[1].1.threshold, "<",
                                Label(s.laplacianVar < m[1].1.threshold))
    ensures m[2].1 == Detection(round2(s.edgeDensity), 0.12, ">", Label(s.edgeDensity > 0.12))
    ensures m[3].1 == Detection(round2(s.lightnessStd), 12.0, ">", Label(s.lightnessStd > 12.0))
    ensures m[4].1 == Detection(round2(s.bMean), 145.0, ">", Label(s.bMean > 145.0))
  {
    Evaluate(CheekRules(s), s, round2)
  }

  /** `analyze_nose_roi`. */
  function AnalyzeNose(s: Stats, round2: Rounding): (m: Metrics)
    ensures Keys(m) == ["Shiny Nose", "Blackheads", "Clogged Pores"]
    ensures m[0].1 == Detection(round2(s.brightness), 170.0, ">", Label(s.brightness > 170.0))
    ensures m[1].1 == Detection(round2(s.darkRatio), 0.1, ">", Label(s.darkRatio > 0.1))
    ensures m[2].1 == Detection(round2(s.laplacianVar), 180.0, ">", Label(s.laplacianVar > 180.0))
  {
    Evaluate(NoseRules, s, round2)
  }

  /** `analyze_lips_roi`: discoloration is the distance of the mean Lab A
      value from 150. */
  function AnalyzeLips(s: Stats, round2: Rounding): (m: Metrics)
    ensures Keys(m) == ["Dry Lips", "Discoloration"]
    ensures m[0].1 == Detection(round2(s.laplacianVar), 120.0, "<", Label(s.laplacianVar < 120.0))
    ensures m[1].1.value == round2(Abs(s.aMean - 150.0))
    ensures m[1].1.threshold == 15.0 && m[1].1.comparison == ">"
    ensures m[1].1.detected == Yes <==> s.aMean > 165.0 || s.aMean < 135.0
  {
    Evaluate(LipsRules, s, round2)
  }

  /** `analyze_eye_roi`. */
  function AnalyzeEye(s: Stats, round2: Rounding): (m: Metrics)
    ensures Keys(m) == ["Dark Circles", "Wrinkles (Crow's Feet)", "Puffy Eyes", "Open Pores"]
    ensures m[0].1 == Detection(round2(s.brightness), 70.0, "<", Label(s.brightness < 70.0))
    ensures m[1].1 == Detection(round2(s.laplacianVar), 300.0, ">", Label(s.laplacianVar > 300.0))
    ensures m[2].1 == Detection(round2(s.edgeStrength), 5.0, "<", Label(s.edgeStrength < 5.0))
    ensures m[3].1 == Detection(round2(s.grayStd), 40.0, ">", Label(s.grayStd > 40.0))
  {
    Evaluate(EyeRules, s, round2)
  }

  /** Forehead Dryness and Wrinkles test the same Laplacian variance against
      disjoint ranges, so a forehead is never flagged for both. */
  lemma ForeheadDrynessExcludesWrinkles(s: Stats, round2: Rounding)
    ensures var m := AnalyzeForehead(s, round2);
      !(m[1].1.detected == Yes && m[4].1.detected == Yes)
  {
  }

  /** A name whose character at position `p` differs from that of every
      name of `names` is not among them. */
  lemma AbsentByChar(name: string, names: seq<string>, p: nat)
    requires p < |name| && forall k :: 0 <= k < |names| ==> p < |names[k]| && names[k][p] != name[p]
    ensures name !in names
  {
  }

  /** "Shiny Nose" and "Oiliness" test the same brightness against the same
      threshold, but never within one region's report: the nose report has
      the first and not the second. */
  lemma NoseReportHasNoOiliness(s: Stats, round2: Rounding)
    ensures "Shiny Nose" in Keys(AnalyzeNose(s, round2))
    ensures "Oiliness" !in Keys(AnalyzeNose(s, round2))
  {
    var nose := Keys(AnalyzeNose(s, round2));
    assert nose[0] == "Shiny Nose";
    AbsentByChar("Oiliness", nose, 0);
  }

  /** Forehead and cheek reports have "Oiliness" and not "Shiny Nose". */
  lemma OilyReportsHaveNoShinyNose(s: Stats, round2: Rounding)
    ensures "Oiliness" in Keys(AnalyzeForehead(s, round2)) && "Shiny Nose" !in Keys(AnalyzeForehead(s, round2))
    ensures "Oiliness" in Keys(AnalyzeCheek(s, round2)) && "Shiny Nose" !in Keys(AnalyzeCheek(s, round2))
  {
    var forehead, cheek := Keys(AnalyzeForehead(s, round2)), Keys(AnalyzeCheek(s, round2));
    assert forehead[0] == "Oiliness" && cheek[0] == "Oiliness";
    AbsentByChar("Shiny Nose", forehead, 0);
    AbsentByChar("Shiny Nose", cheek, 0);
  }

  /** Lip reports have neither verdict. */
  lemma LipsReportHasNeither(s: Stats, round2: Rounding)
    ensures "Shiny Nose" !in Keys(AnalyzeLips(s, round2)) && "Oiliness" !in Keys(AnalyzeLips(s, round2))
  {
    var lips := Keys(AnalyzeLips(s, round2));
    AbsentByChar("Oiliness", lips, 0);
    AbsentByChar("Shiny Nose", lips, 0);
  }

  /** Eye reports have neither verdict. */
  lemma EyeReportHasNeither(s: Stats, round2: Rounding)
    ensures "Shiny Nose" !in Keys(AnalyzeEye(s, round2)) && "Oiliness" !in Keys(AnalyzeEye(s, round2))
  {
    var eye := Keys(AnalyzeEye(s, round2));
    AbsentByChar("Oiliness", eye, 1);
    AbsentByChar("Shiny Nose", eye, 0);
  }

  /** A worked example: a dark cheek (brightness 95)
      uses the Dryness threshold 120, so a Laplacian variance of 110 is
      flagged. */
  lemma DarkCheekDrynessExample(s: Stats, round2: Rounding)
    requires s.brightness == 95.0 && s.laplacianVar == 110.0
    ensures AnalyzeCheek(s, round2)[1].1.threshold == 120.0
    ensures AnalyzeCheek(s, round2)[1].1.detected == Yes
  {
  }
}
