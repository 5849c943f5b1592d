/** The per-view controller of `analyze_images`: skip views without an image
    or without a face, estimate age and gender for the Center view, extract
    the regions, keep the ones the view is allowed to analyze, and dispatch
    each to its analyzer by its canonical name. Image loading, landmark
    detection, the eye-distance computation, mask rasterisation, statistics
    and age/gender inference are collaborators passed in as functions. */
module Pipeline {
  import opened Basics
  import opened Text
  import opened RoiExtraction
  import opened RoiAnalysis

  /** A non-negative real, such as a Euclidean distance. */
  type NonNegReal = r: real | r >= 0.0

  /** The collaborators of the controller. `A` is whatever the age/gender
      estimator returns. */
  datatype Services<A> = Services(
    preprocess: string -> ValidImage,
    estimateAgeGender: ValidImage -> A,
    detect: ValidImage -> Option<seq<Point>>,
    eyeDistance: seq<Point> -> NonNegReal,
    inMask: MaskBuilder,
    measure: Patch -> Stats,
    round2: Rounding)

  /** What one region contributes to a view's report: its metrics, or the
      in-band error record for a region no analyzer handles. */
  datatype RegionReport = Analysis(metrics: Metrics) | AnalysisError(error: string)

  /** One view's report: the age/gender estimate (Center only) and the
      region reports in extraction order. */
  datatype ViewReport<A> = ViewReport(ageGender: Option<A>, regions: seq<(string, RegionReport)>)

  /** The five analyzers, selected by canonical region name. */
  datatype Analyzer = ForeheadAnalyzer | CheekAnalyzer | NoseAnalyzer | LipsAnalyzer | EyeAnalyzer

  const CanonicalNames: set<string> := {"forehead", "cheek", "nose", "lips", "eye"}

  const LeftViewRegions: set<string> := {"forehead", "lips", "nose", "left_eye", "left_cheek"}
  const RightViewRegions: set<string> := {"forehead", "lips", "nose", "right_eye", "right_cheek"}

  const ErrorPrefix: string := "No analysis function defined for region: "

  /** The regions a view analyzes: the Left and Right views have fixed
      sets, any other view analyzes everything extracted. */
  function ValidRegions(view: string, extracted: seq<string>): set<string> {
    if view == "Left" then LeftViewRegions
    else if view == "Right" then RightViewRegions
    else set r | r in extracted
  }

  /** The region name with every `left_` and then every `right_` removed. */
  function Canonical(r: string): string {
    ReplaceAll(ReplaceAll(r, "left_", ""), "right_", "")
  }

  /** The analyzer a canonical name selects, if any. */
  function AnalyzerFor(name: string): (a: Option<Analyzer>)
    ensures a.Some? <==> name in CanonicalNames
  {
    if name == "forehead" then Some(ForeheadAnalyzer)
    else if name == "cheek" then Some(CheekAnalyzer)
    else if name == "nose" then Some(NoseAnalyzer)
    else if name == "lips" then Some(LipsAnalyzer)
    else if name == "eye" then Some(EyeAnalyzer)
    else None
  }

  function Run(a: Analyzer, s: Stats, round2: Rounding): Metrics {
    match a
    case ForeheadAnalyzer => AnalyzeForehead(s, round2)
    case CheekAnalyzer => AnalyzeCheek(s, round2)
    case NoseAnalyzer => AnalyzeNose(s, round2)
    case LipsAnalyzer => AnalyzeLips(s, round2)
    case EyeAnalyzer => AnalyzeEye(s, round2)
  }

  /** Dispatch of one region: its canonical name selects the analyzer, and
      a name no analyzer handles yields the error record carrying the
      original name. */
  function AnalyzeRegion(r: string, s: Stats, round2: Rounding): (rep: RegionReport)
    ensures rep.AnalysisError? <==> Canonical(r) !in CanonicalNames
    ensures rep.AnalysisError? ==> rep.error == ErrorPrefix + r
    ensures Canonical(r) == "forehead" ==> rep == Analysis(AnalyzeForehead(s, round2))
    ensures Canonical(r) == "cheek" ==> rep == Analysis(AnalyzeCheek(s, round2))
    ensures Canonical(r) == "nose" ==> rep == Analysis(AnalyzeNose(s, round2))
    ensures Canonical(r) == "lips" ==> rep == Analysis(AnalyzeLips(s, round2))
    ensures Canonical(r) == "eye" ==> rep == Analysis(AnalyzeEye(s, round2))
  {
    var name := Canonical(r);
    if name in CanonicalNames then Analysis(Run(AnalyzerFor(name).value, s, round2))
    else AnalysisError(ErrorPrefix + r)
  }

  /** The canonical names of the registry regions: the side prefix of the
      eyes and cheeks is dropped, the other names are kept. */
  lemma RegistryCanonicalNames(r: string)
    requires r in RegistryNames
    ensures r == "left_eye" || r == "right_eye" ==> Canonical(r) == "eye"
    ensures r == "left_cheek" || r == "right_cheek" ==> Canonical(r) == "cheek"
    ensures r == "forehead" || r == "nose" || r == "lips" ==> Canonical(r) == r
    ensures Canonical(r) in CanonicalNames
  {
    if r == "left_eye" {
      Prefixed("left_", "eye");
      assert "left_" + "eye" == r;
    } else if r == "right_eye" {
      Prefixed("right_", "eye");
      assert "right_" + "eye" == r;
    } else if r == "left_cheek" {
      Prefixed("left_", "cheek");
      assert "left_" + "cheek" == r;
    } else if r == "right_cheek" {
      Prefixed("right_", "cheek");
      assert "right_" + "cheek" == r;
    } else {
      Unchanged(r);
    }
  }

  /** A name without an underscore is its own canonical name. */
  lemma Unchanged(r: string)
    requires '_' !in r
    ensures ReplaceAll(r, "left_", "") == r && ReplaceAll(r, "right_", "") == r
    ensures Canonical(r) == r
  {
    AbsentCharNoOccurrence(r, "left_", '_');
    RemoveAllShortens(r, "left_");
    AbsentCharNoOccurrence(r, "right_", '_');
    RemoveAllShortens(r, "right_");
  }

  /** `left_x` and `right_x` canonicalise to `x` for a name `x` without an
      underscore or an `l`. */
  lemma Prefixed(side: string, r: string)
    requires side == "left_" || side == "right_"
    requires '_' !in r && 'l' !in r
    ensures Canonical(side + r) == r
  {
    Unchanged(r);
    if side == "left_" {
      RemoveLeading("left_", r);
      assert ReplaceAll(side + r, "left_", "") == r;
    } else {
      assert 'l' !in side + r;
      AbsentCharNoOccurrence(side + r, "left_", 'l');
      RemoveAllShortens(side + r, "left_");
      assert ReplaceAll(side + r, "left_", "") == side + r;
      RemoveLeading("right_", r);
    }
  }

  /** Every registry region has an analyzer, so extracted regions never
      produce the error record. */
  lemma RegistryRegionsHaveAnalyzers(r: string, s: Stats, round2: Rounding)
    requires r in RegistryNames
    ensures AnalyzeRegion(r, s, round2).Analysis?
  {
    RegistryCanonicalNames(r);
  }

  /** A worked example: `chin` has no analyzer. */
  lemma ChinHasNoAnalyzer(s: Stats, round2: Rounding)
    ensures AnalyzeRegion("chin", s, round2)
         == AnalysisError("No analysis function defined for region: chin")
  {
    assert Canonical("chin") == "chin";
  }

  /** The regions a view keeps, in extraction order. */
  function Kept<P(!new)>(rois: seq<(string, P)>, valid: set<string>): seq<(string, P)> {
    Filter(rois, (e: (string, P)) => e.0 in valid)
  }

  /** Every kept region handed to `analyze`, one entry per region. */
  function AnalyzeEach<P, R>(kept: seq<(string, P)>, analyze: (string, P) -> R): seq<(string, R)> {
    seq(|kept|, k requires 0 <= k < |kept| => (kept[k].0, analyze(kept[k].0, kept[k].1)))
  }

  /** The loop over the extracted regions: a region outside `valid` is
      skipped, any other is handed to `analyze` and its result stored under
      the region's own name, in extraction order. */
  function AnalyzeRegions<P(==,!new), R(==)>(rois: seq<(string, P)>, valid: set<string>, analyze: (string, P) -> R)
    : (out: seq<(string, R)>)
    ensures IsSubsequence(Keys(out), Keys(rois))
    ensures forall r :: r in Keys(out) <==> r in Keys(rois) && r in valid
    ensures forall e :: e in rois && e.0 in valid ==> (e.0, analyze(e.0, e.1)) in out
    ensures forall e :: e in out ==> exists roi :: (e.0, roi) in rois && e.1 == analyze(e.0, roi)
    decreases |rois|
  {
    if rois == [] then []
    else
      var rest := AnalyzeRegions(rois[1..], valid, analyze);
      var out := if rois[0].0 in valid then [(rois[0].0, analyze(rois[0].0, rois[0].1))] + rest else rest;
      StepKeys(rois, valid, analyze, rest, out);
      StepEntries(rois, valid, analyze, rest, out);
      out
  }

  /** One step of the loop keeps the key facts: order and membership. */
  lemma StepKeys<P, R>(rois: seq<(string, P)>, valid: set<string>, analyze: (string, P) -> R,
                       rest: seq<(string, R)>, out: seq<(string, R)>)
    requires rois != []
    requires IsSubsequence(Keys(rest), Keys(rois[1..]))
    requires forall r :: r in Keys(rest) <==> r in Keys(rois[1..]) && r in valid
    requires out == if rois[0].0 in valid then [(rois[0].0, analyze(rois[0].0, rois[0].1))] + rest else rest
    ensures IsSubsequence(Keys(out), Keys(rois))
    ensures forall r :: r in Keys(out) <==> r in Keys(rois) && r in valid
  {
    assert Keys(rois)[1..] == Keys(rois[1..]);
    assert Keys(rois) == [rois[0].0] + Keys(rois[1..]);
    if rois[0].0 in valid {
      KeysCons((rois[0].0, analyze(rois[0].0, rois[0].1)), rest);
      SubsequenceKeep(Keys(rest), Keys(rois));
    } else {
      SubsequenceSkip(Keys(rest), Keys(rois));
    }
  }

  /** One step of the loop keeps the entry facts: every kept region's
      analysis is stored, and every stored entry is such an analysis. */
  lemma StepEntries<P(!new), R>(rois: seq<(string, P)>, valid: set<string>, analyze: (string, P) -> R,
                                rest: seq<(string, R)>, out: seq<(string, R)>)
    requires rois != []
    requires forall e :: e in rois[1..] && e.0 in valid ==> (e.0, analyze(e.0, e.1)) in rest
    requires forall e :: e in rest ==> exists roi :: (e.0, roi) in rois[1..] && e.1 == analyze(e.0, roi)
    requires out == if rois[0].0 in valid then [(rois[0].0, analyze(rois[0].0, rois[0].1))] + rest else rest
    ensures forall e :: e in rois && e.0 in valid ==> (e.0, analyze(e.0, e.1)) in out
    ensures forall e :: e in out ==> exists roi :: (e.0, roi) in rois && e.1 == analyze(e.0, roi)
  {
    forall e | e in rois && e.0 in valid ensures (e.0, analyze(e.0, e.1)) in out {
      if e != rois[0] {
        var i :| 0 <= i < |rois| && rois[i] == e;
        assert rois[1..][i - 1] == e;
      }
    }
    forall e | e in out ensures exists roi :: (e.0, roi) in rois && e.1 == analyze(e.0, roi) {
      if e in rest {
        var roi :| (e.0, roi) in rois[1..] && e.1 == analyze(e.0, roi);
        assert (e.0, roi) in rois;
      } else {
        assert rois[0] in rois;
      }
    }
  }

  /** Analyzing the first region before the rest is analyzing each in turn. */
  lemma AnalyzeEachCons<P, R>(h: (string, P), kept: seq<(string, P)>, analyze: (string, P) -> R)
    ensures AnalyzeEach([h] + kept, analyze) == [(h.0, analyze(h.0, h.1))] + AnalyzeEach(kept, analyze)
  {
  }

  /** The loop does what a filter followed by a map does: keep the regions
      of `valid`, then analyze each one. */
  lemma {:induction false} AnalyzeRegionsFilterMap<P(!new), R>(
    rois: seq<(string, P)>, valid: set<string>, analyze: (string, P) -> R)
    ensures AnalyzeRegions(rois, valid, analyze) == AnalyzeEach(Kept(rois, valid), analyze)
    decreases |rois|
  {
    if rois != [] {
      AnalyzeRegionsFilterMap(rois[1..], valid, analyze);
      if rois[0].0 in valid {
        AnalyzeEachCons(rois[0], Kept(rois[1..], valid), analyze);
      }
    }
  }

  /** A path is used only when it is present and non-empty. */
  predicate HasPath(path: Option<string>) {
    path.Some? && path.value != ""
  }

  /** The landmarks of an image, or nothing when no face was found. */
  function Face<A>(svc: Services<A>, img: ValidImage): (lms: Option<seq<Point>>)
    ensures lms.Some? ==> lms.value != []
    ensures lms.Some? <==> svc.detect(img).Some? && svc.detect(img).value != []
    ensures lms.Some? ==> lms == svc.detect(img)
  {
    match svc.detect(img)
    case Some(lms) => if lms == [] then None else Some(lms)
    case None => None
  }

  /** The region reports of one view: the extracted regions the view keeps,
      in extraction order, each dispatched by name on the statistics of its
      own patch. No extracted region gets the error record. */
  function ViewRegions(view: string, rois: seq<(string, Patch)>, measure: Patch -> Stats, round2: Rounding)
    : (regions: seq<(string, RegionReport)>)
    requires IsSubsequence(Keys(rois), RegistryNames)
    ensures IsSubsequence(Keys(regions), Keys(rois))
    ensures forall r :: r in Keys(regions) <==>
      && r in Keys(rois)
      && (view == "Left" ==> r in LeftViewRegions)
      && (view == "Right" ==> r in RightViewRegions)
    ensures forall e :: e in rois && e.0 in Keys(regions) ==>
      (e.0, AnalyzeRegion(e.0, measure(e.1), round2)) in regions
    ensures forall e :: e in regions ==>
      exists roi :: (e.0, roi) in rois && e.1 == AnalyzeRegion(e.0, measure(roi), round2)
    ensures forall k :: 0 <= k < |regions| ==> regions[k].1.Analysis?
  {
    var valid := ValidRegions(view, Keys(rois));
    var regions := AnalyzeRegions(rois, valid, (r, roi) => AnalyzeRegion(r, measure(roi), round2));
    SubsequenceElements(Keys(rois), RegistryNames);
    forall k | 0 <= k < |regions| ensures regions[k].1.Analysis? {
      assert regions[k] in regions;
      var roi :| (regions[k].0, roi) in rois && regions[k].1 == AnalyzeRegion(regions[k].0, measure(roi), round2);
      EntryKey(rois, (regions[k].0, roi));
      RegistryRegionsHaveAnalyzers(regions[k].0, measure(roi), round2);
    }
    regions
  }

  /** One iteration of the view loop: no report when no face is found (the
      Center view's age/gender estimate is discarded with it), otherwise
      the age/gender estimate for Center and, in extraction order, the
      regions the view keeps, each with the report its analyzer gives for
      the statistics of its patch. */
  function AnalyzeView<A>(view: string, path: string, svc: Services<A>): (rep: Option<ViewReport<A>>)
    ensures rep.Some? <==> Face(svc, svc.preprocess(path)).Some?
    ensures rep.Some? ==> (rep.value.ageGender.Some? <==> view == "Center")
    ensures rep.Some? && view == "Center" ==>
      rep.value.ageGender == Some(svc.estimateAgeGender(svc.preprocess(path)))
    ensures rep.Some? ==>
      var img := svc.preprocess(path);
      var lms := Face(svc, img).value;
      var rois := ExtractRois(img, lms, svc.eyeDistance(lms), svc.inMask);
      && IsSubsequence(Keys(rep.value.regions), Keys(rois))
      && (forall r :: r in Keys(rep.value.regions) <==>
           && r in Keys(rois)
           && (view == "Left" ==> r in LeftViewRegions)
           && (view == "Right" ==> r in RightViewRegions))
      && (forall e :: e in rois && e.0 in Keys(rep.value.regions) ==>
           (e.0, AnalyzeRegion(e.0, svc.measure(e.1), svc.round2)) in rep.value.regions)
      && (forall e :: e in rep.value.regions ==>
           exists roi :: (e.0, roi) in rois && e.1 == AnalyzeRegion(e.0, svc.measure(roi), svc.round2))
    ensures rep.Some? ==> forall k :: 0 <= k < |rep.value.regions| ==> rep.value.regions[k].1.Analysis?
  {
    var img := svc.preprocess(path);
    var ageGender := if view == "Center" then Some(svc.estimateAgeGender(img)) else None;
    match Face(svc, img)
    case None => None
    case Some(lms) =>
      var rois := ExtractRois(img, lms, svc.eyeDistance(lms), svc.inMask);
      Some(ViewReport(ageGender, ViewRegions(view, rois, svc.measure, svc.round2)))
  }

  /** A view is reported when it has a path and its image shows a face. */
  predicate Reported<A>(entry: (string, Option<string>), svc: Services<A>) {
    HasPath(entry.1) && Face(svc, svc.preprocess(entry.1.value)).Some?
  }

  /** The input views that are reported, in input order. */
  function ReportedViews<A>(images: seq<(string, Option<string>)>, svc: Services<A>)
    : (shown: seq<(string, Option<string>)>)
    ensures IsSubsequence(shown, images)
    ensures forall e :: e in shown <==> e in images && Reported(e, svc)
  {
    Filter(images, e => Reported(e, svc))
  }

  /** `analyze_images`: the report of every view that has a path and a face,
      in the order the views are given. */
  function AnalyzeImages<A>(images: seq<(string, Option<string>)>, svc: Services<A>)
    : (report: seq<(string, ViewReport<A>)>)
    ensures Keys(report) == Keys(ReportedViews(images, svc))
  {
    var shown := ReportedViews(images, svc);
    seq(|shown|, k requires 0 <= k < |shown| =>
      assert shown[k] in shown;
      (shown[k].0, AnalyzeView(shown[k].0, shown[k].1.value, svc).value))
  }

  /** The report lists views in input order. */
  lemma AnalyzeImagesOrder<A>(images: seq<(string, Option<string>)>, svc: Services<A>)
    ensures IsSubsequence(Keys(AnalyzeImages(images, svc)), Keys(images))
  {
    SubsequenceKeys(ReportedViews(images, svc), images);
  }

  /** With distinct view names, the name of an input view is among the
      reported names only when that very view is reported. */
  lemma ReportedName<A>(images: seq<(string, Option<string>)>, svc: Services<A>, i: nat)
    requires Distinct(Keys(images))
    requires i < |images|
    ensures images[i].0 in Keys(ReportedViews(images, svc)) <==> Reported(images[i], svc)
  {
    var shown := ReportedViews(images, svc);
    if images[i].0 in Keys(shown) {
      DistinctKeyEntry(images, shown, i);
    }
    if Reported(images[i], svc) {
      EntryKey(shown, images[i]);
    }
  }

  /** View names being the keys of a dictionary, hence distinct, a view is
      in the report exactly when it has a path and its image shows a face. */
  lemma AnalyzeImagesMembership<A>(images: seq<(string, Option<string>)>, svc: Services<A>, i: nat)
    requires Distinct(Keys(images))
    requires i < |images|
    ensures images[i].0 in Keys(AnalyzeImages(images, svc)) <==>
      HasPath(images[i].1) && Face(svc, svc.preprocess(images[i].1.value)).Some?
  {
    ReportedName(images, svc, i);
  }

  /** Every reported view is the controller's report of an input view with
      a path: only the Center view carries an age/gender estimate, and no
      region carries the error record. */
  lemma AnalyzeImagesEntries<A>(images: seq<(string, Option<string>)>, svc: Services<A>, k: nat)
    requires k < |AnalyzeImages(images, svc)|
    ensures var e := AnalyzeImages(images, svc)[k];
      && (exists i :: 0 <= i < |images| && images[i].0 == e.0 && HasPath(images[i].1)
            && AnalyzeView(e.0, images[i].1.value, svc) == Some(e.1))
      && (e.1.ageGender.Some? <==> e.0 == "Center")
      && forall j :: 0 <= j < |e.1.regions| ==> e.1.regions[j].1.Analysis?
  {
    var shown := ReportedViews(images, svc);
    assert shown[k] in images;
    var i :| 0 <= i < |images| && images[i] == shown[k];
  }
}
