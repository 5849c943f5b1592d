# Face analysis core, modelled in Dafny

This project models the deterministic logic of a face-analysis pipeline.
Given up to three photographs (Center, Left, Right), the pipeline:

- finds facial landmarks;
- cuts masked patches for seven facial regions out of each photo;
- runs one of five fixed threshold tables on each patch;
- reports verdicts such as "Oiliness: Yes".

It also maps an estimated age to a three-year bucket label, and its upload
endpoint accepts only image file names.

Everything numeric that comes from OpenCV or from the machine-learning models
enters as an uninterpreted input. This covers the landmark detector, the
eye-distance norm, the hull mask, the channel statistics, Python's `round(x, 2)`
and the age/gender estimator. The model states and proves what the
surrounding control logic does with those inputs. The one deliberate departure
is the crop of a region lying beyond the top or left image edge, which the
model clamps instead of wrapping around (see "Findings").

Modules (one file each):

- `Basics` (`basics.dfy`): shared types and helpers.
  - `Option`, points, pixels and images.
  - The subsequence relation, which states that a result keeps the order of its source.
  - `Filter`.
  - Ordered dictionaries as entry lists (`Keys`, `Collect`).
- `Text` (`text.dfy`): the string operations the core relies on.
  - ASCII `lower()`.
  - Decimal rendering of numbers.
  - Python's `str.replace` with an empty replacement.
- `RoiExtraction` (`roi_extraction.dfy`, modelling `roi_extraction.py`): region extraction.
  - The landmark registry.
  - Selecting a region's landmarks that are in range.
  - The synthetic forehead point.
  - The padding shared by all regions.
  - The clamped crop rectangle.
  - Masking, and numpy's slice of the masked image.
- `RoiAnalysis` (`roi_analysis.dfy`, modelling `roi_analysis.py`): `build_result` and the five rule tables.
- `Pipeline` (`pipeline.dfy`, modelling `main.py`): the view loop of `analyze_images`.
  - Skipping views that have no path or no face.
  - The age/gender entry for Center.
  - The regions each view is allowed to analyze.
  - Name normalisation and dispatch, including the in-band error record.
- `AgeGender` (`age_gender.dfy`, modelling `age_gender.py`): `get_age_range`, as a function and as the original loop.
- `Upload` (`upload.dfy`, modelling `app.py`): `allowed_file` and `ALLOWED_EXTENSIONS`.

## Model

| member | source | states |
|---|---|---|
| RoiExtraction.RegistryShape | roi_extraction.py:7-15 | The registry lists seven regions in a fixed order, and their names are pairwise distinct. |
| RoiExtraction.Present | roi_extraction.py:45 | The indices used for a region are exactly its registry indices below the landmark count, kept in registry order. |
| RoiExtraction.Gather | roi_extraction.py:45 | A region's points are the landmarks at its in-range indices, one per index, in registry order. |
| RoiExtraction.GatherNonEmptyIff | roi_extraction.py:45-55 | A region has at least one point exactly when one of its indices is below the landmark count; otherwise it is skipped. |
| RoiExtraction.Lowest | roi_extraction.py:50 | The smallest coordinate along an axis is attained by some point and bounds all points from below. |
| RoiExtraction.Highest | roi_extraction.py:50 | The largest coordinate along an axis is attained by some point and bounds all points from above. |
| RoiExtraction.BoundingRect | roi_extraction.py:70 | The bounding box contains every point, and each of its four edges is touched by a point, so the width counts pixels (max − min + 1). |
| RoiExtraction.ForeheadOffset | roi_extraction.py:51 | The offset is `int(0.3·span)` for a non-negative span: the largest integer not above 0.3·span. |
| RoiExtraction.ForeheadTop | roi_extraction.py:49-52 | The synthetic point has the anchor's x. Its y is never negative and, for an anchor at y ≥ 0, never greater than the anchor's. Its y is 0 exactly when the anchor's y minus `int(0.3·span)` is not positive; otherwise it lies exactly `int(0.3·span)` rows above the anchor, where span is the height of the region's bounding box minus one. |
| RoiExtraction.ForeheadTopExample | roi_extraction.py:49-52 | An anchor at row 100 over a forehead spanning rows 100 to 140 gives the point at row 88. |
| RoiExtraction.LeastIndexPresent | roi_extraction.py:48-49 | When every index of a region is at least m and the region has a point, landmark m is in range. For the forehead (m = 10), `landmarks[10]` never fails. |
| RoiExtraction.RegionPoints | roi_extraction.py:45-55 | Non-forehead regions use exactly their in-range points. A forehead with points gets exactly one extra point, the synthetic one, appended last. A region with no points stays empty. |
| RoiExtraction.Padding | roi_extraction.py:31-39 | The padding is 10 when either eye has no landmark in range; otherwise it is `int(0.05·iod)`, which is ≥ 0. |
| RoiExtraction.PaddingMonotone | roi_extraction.py:37 | A larger eye distance never gives a smaller padding. |
| RoiExtraction.CropRect | roi_extraction.py:70-74 | The edges are the region's extreme coordinates grown by `pad` and clamped to the image: x1 = max(min x − pad, 0), y1 = max(min y − pad, 0), x2 = min(max x + 1 + pad, w), y2 = min(max y + 1 + pad, h). So 0 ≤ x1, 0 ≤ y1, x2 ≤ w and y2 ≤ h. The rectangle is non-empty along an axis exactly when the padded box overlaps the image on that axis. It contains every point that lies inside the image. |
| RoiExtraction.BoundingRectExtremes | roi_extraction.py:70 | The bounding rectangle starts at the lowest coordinate and ends one past the highest on each axis. |
| RoiExtraction.CropRectMonotone | roi_extraction.py:71-74 | A larger padding gives a rectangle containing the one for a smaller padding. |
| RoiExtraction.RasterMask | roi_extraction.py:59-67 | The mask has the image's shape, holds only the values 0 and 255, and is non-zero exactly at the pixels the hull-and-morphology builder keeps. |
| RoiExtraction.ApplyMask | roi_extraction.py:77 | A masked pixel equals the original where the mask is non-zero and is black elsewhere. The shape is unchanged. |
| RoiExtraction.MaskIdempotent | roi_extraction.py:77 | Applying the same mask twice gives the same result as applying it once. |
| RoiExtraction.SliceBound | roi_extraction.py:78 | A numpy slice bound counts negative positions from the end and clamps positions that fall outside the sequence. |
| RoiExtraction.PySlice | roi_extraction.py:78 | `s[a:b]` has length max(b′ − a′, 0) over the normalised bounds and holds the elements from a′ onward. |
| RoiExtraction.Crop | roi_extraction.py:78 | The corrected crop is exactly rows y1..y2−1 and columns x1..x2−1 of the masked image, and is empty when the rectangle is empty. |
| RoiExtraction.CropAsWrittenAgrees | roi_extraction.py:71-78 | When x2 and y2 are not negative, numpy's slice and the corrected crop are identical. |
| RoiExtraction.CropAsWrittenWrapsAround | roi_extraction.py:71-78 | A region lying wholly to the left of the image gets x2 = −4. numpy's slice then returns 6 columns, where the intended crop is empty. |
| RoiExtraction.MaskedCrop | roi_extraction.py:70-78 | With the corrected crop, a region's patch has max(y2 − y1, 0) rows of max(x2 − x1, 0) pixels each, never exceeding the image. |
| RoiExtraction.MaskedCropPixels | roi_extraction.py:77-78 | Patch pixel (i, j) is image pixel (y1 + i, x1 + j) when the mask keeps it, and black otherwise. |
| RoiExtraction.ExtractRegion | roi_extraction.py:45-78 | A region yields a patch exactly when one of its indices is in range, and that patch is the masked crop of its points. |
| RoiExtraction.ExtractRois | roi_extraction.py:29-80 | The output keys are registry names, in registry order. |
| RoiExtraction.ExtractRoisContents | roi_extraction.py:43-80 | A region has a key exactly when one of its indices is below the landmark count, and its value is that region's masked crop under the shared padding. |
| Basics.Collect | roi_extraction.py:54-80 | Building the dictionary keeps the key order and drops keys with no value. |
| Basics.CollectKeys | roi_extraction.py:54-80 | With distinct keys, a key is present exactly when its value exists. |
| Basics.CollectEntries | roi_extraction.py:54-80 | With distinct keys, a key's entry carries that key's value. |
| RoiAnalysis.BuildResult | roi_analysis.py:18-34 | The label is positive iff value > threshold for `'>'`, and iff value < threshold for any other comparison string. The threshold and comparison are stored unchanged. The stored value is rounded; the decision uses the unrounded value. |
| RoiAnalysis.ThresholdIsStrict | roi_analysis.py:22 | A value equal to the threshold always gets the negative label, whatever the comparison. |
| RoiAnalysis.Measure | roi_analysis.py:116-118 | The discoloration value \|meanA − 150\| is never negative. |
| RoiAnalysis.Evaluate | roi_analysis.py:18-34 | A rule table yields one verdict per rule, in table order, each with the rule's threshold and comparison. |
| RoiAnalysis.AnalyzeForehead | roi_analysis.py:37-62 | The forehead yields exactly Oiliness >170, Dryness <120 if brightness < 100 else <100, Pigmentation >12, Redness >145 and Wrinkles >350, in that order, each on its statistic. |
| RoiAnalysis.AnalyzeCheek | roi_analysis.py:64-90 | The cheek yields exactly Oiliness >170, Dryness (same rule as the forehead), Acne >0.12, Pigmentation >12 and Redness >145. |
| RoiAnalysis.AnalyzeNose | roi_analysis.py:92-106 | The nose yields exactly Shiny Nose >170, Blackheads >0.1 and Clogged Pores >180. |
| RoiAnalysis.AnalyzeLips | roi_analysis.py:108-120 | The lips yield exactly Dry Lips <120 and Discoloration >15. The Discoloration record stores the rounded |mean A − 150| and is flagged iff mean A > 165 or < 135. |
| RoiAnalysis.AnalyzeEye | roi_analysis.py:150-167 | The eye yields exactly Dark Circles <70, Wrinkles (Crow's Feet) >300, Puffy Eyes <5 and Open Pores >40. |
| RoiAnalysis.ForeheadDrynessExcludesWrinkles | roi_analysis.py:47-60 | Forehead Dryness and Wrinkles test the same Laplacian variance against disjoint ranges, so they are never both "Yes". |
| RoiAnalysis.NoseReportHasNoOiliness | roi_analysis.py:92-106 | The nose report has "Shiny Nose" and no "Oiliness". |
| RoiAnalysis.OilyReportsHaveNoShinyNose | roi_analysis.py:37-90 | The forehead and cheek reports have "Oiliness" and no "Shiny Nose". |
| RoiAnalysis.LipsReportHasNeither | roi_analysis.py:108-120 | The lips report has neither "Shiny Nose" nor "Oiliness". |
| RoiAnalysis.EyeReportHasNeither | roi_analysis.py:150-167 | The eye report has neither "Shiny Nose" nor "Oiliness". |
| RoiAnalysis.DarkCheekDrynessExample | roi_analysis.py:74-78 | For a dark cheek (brightness 95), the Dryness threshold is 120, so a Laplacian variance of 110 is flagged. |
| Text.RemoveAllShortens | main.py:82 | Removing every occurrence of a pattern never lengthens a name. It shortens the name exactly when the pattern occurs, and otherwise leaves it unchanged. |
| Text.RemoveAllIdentityIff | main.py:82 | `replace(p, "")` leaves a name unchanged iff p does not occur in it. |
| Text.RemoveLeading | main.py:82 | A leading occurrence is removed and the scan resumes right after it. |
| Pipeline.AnalyzerFor | main.py:83-85 | A normalised name selects an analyzer exactly when it is forehead, cheek, nose, lips or eye. |
| Pipeline.AnalyzeRegion | main.py:82-89 | Each of the five canonical names selects its own analyzer. Any other name yields the error record "No analysis function defined for region: " + the original name. |
| Pipeline.RegistryCanonicalNames | main.py:82 | left_eye and right_eye normalise to eye, left_cheek and right_cheek to cheek, and the other registry names to themselves. |
| Pipeline.Unchanged | main.py:82 | A name without an underscore is unchanged by both removals. |
| Pipeline.Prefixed | main.py:82 | `left_x` and `right_x` normalise to `x` when x has no underscore and no `l`. |
| Pipeline.RegistryRegionsHaveAnalyzers | main.py:82-86 | Every registry region normalises to one of the five analyzers, so extracted regions never produce the error record. |
| Pipeline.ChinHasNoAnalyzer | main.py:87-89 | "chin" yields the error record that carries its name. |
| Pipeline.AnalyzeRegions | main.py:75-86 | The result's names are a subsequence of the extracted names: exactly those the view keeps. Every kept region's analysis of its own patch is stored under its original name, and every stored entry is such an analysis. |
| Pipeline.AnalyzeRegionsFilterMap | main.py:75-86 | The loop equals keeping the valid regions first and then analyzing each kept region in turn. |
| Pipeline.ViewRegions | main.py:67-89 | A view's region names are the extracted ones it keeps, in extraction order. Each extracted region it keeps is reported as its analyzer's result on that region's own patch statistics, every report is such a result, and none is the error record. |
| Pipeline.Face | main.py:58-61 | A view shows a face exactly when the detector returns a non-empty landmark list, and then those are its landmarks. |
| Pipeline.AnalyzeView | main.py:52-91 | A view is reported iff a face is found. It then carries Age/Gender iff it is Center, and for Center that is the estimate for the preprocessed image. Its region names are the extracted ones, in extraction order, limited for Left to {forehead, lips, nose, left_eye, left_cheek} and for Right to {forehead, lips, nose, right_eye, right_cheek}. Each kept region's report is the dispatch of its name on the statistics of its own patch, and every report is of that form. No region carries the error record. |
| Pipeline.ReportedViews | main.py:48-61 | The reported views are exactly the input views with a non-empty path and a face, in input order. |
| Pipeline.AnalyzeImages | main.py:41-93 | The report's view names are those of the reported views, in the same order. |
| Pipeline.AnalyzeImagesOrder | main.py:48-91 | The report lists views in input order. |
| Pipeline.ReportedName | main.py:48-61 | With distinct view names, a view's name is reported exactly when that view is reported. |
| Pipeline.AnalyzeImagesMembership | main.py:48-61 | A view is in the report iff it has a non-empty path and a face. A view with a falsy path or no landmarks is absent, along with Center's already computed Age/Gender. |
| Pipeline.AnalyzeImagesEntries | main.py:48-91 | Every report entry is the view report of an input view that has a path. It carries Age/Gender iff the view is Center, and none of its regions is an error record. |
| AgeGender.BucketOf | age_gender.py:26-33 | Ages below 18 are "Below 18" and ages above 80 are "80+". Every other age falls in a bucket that starts on the 18, 21, …, 78 grid with s ≤ age ≤ s + 2. |
| AgeGender.BucketExact | age_gender.py:29-31 | The bucket starting at a grid value s holds exactly the ages s..s+2. |
| AgeGender.GetAgeRange | age_gender.py:26-33 | The scanning loop returns the label of the age's bucket: "Below 18" under 18, "s-(s+2)" for the first bucket that holds the age, and "80+" above 80. |
| AgeGender.BucketMonotone | age_gender.py:26-33 | The bucket start never decreases as the age grows. |
| AgeGender.SpanLabelPrefix | age_gender.py:32 | A bucket label is five characters long and starts with its two-digit start. |
| AgeGender.AgeRangeSameIff | age_gender.py:26-33 | Two ages get the same label exactly when they share a bucket, so every age gets exactly one label. |
| AgeGender.AgeRangeBoundaries | age_gender.py:27-33 | The boundary ages map as follows: 17 to "Below 18", 18 to "18-20", 80 to "78-80" (the last bucket), and 81 to "80+". |
| Upload.LastDot | app.py:23 | The position found is a dot with no dot after it, and there is none exactly when the name has no dot. |
| Upload.LastDotUnique | app.py:23 | Any dot with no later dot is the one `rsplit('.', 1)` splits at. |
| Upload.Extension | app.py:23 | The extension is what follows a dot at the end of the name and contains no dot itself, so it is the text after the last dot. |
| Upload.AllowedFileSplit | app.py:14-23 | stem + "." + ext, with ext free of dots, is accepted iff lower(ext) is png, jpg or jpeg, whatever the stem. |
| Upload.AllowedFileIff | app.py:14-23 | The accepted names are exactly stem + "." + ext, with ext free of dots and lower(ext) in {png, jpg, jpeg}. |
| Upload.NoDotRejected | app.py:23 | A name without a dot is rejected. |
| Upload.LowerExtension | app.py:23 | Lower-casing a name lower-cases its extension and keeps its last dot. |
| Upload.AllowedFileCaseInsensitive | app.py:23 | A name is accepted exactly when its lower-cased form is. |
| Upload.InnerExtensionIgnored | app.py:23 | "a.exe.png" is accepted, and so is any name ending in ".exe.png". |
| Upload.DisguisedExecutableRejected | app.py:23 | "a.png.exe" is rejected, and so is any name ending in ".png.exe". |
| Upload.EmptyPartExamples | app.py:23 | ".png" (empty stem) is accepted, and "photo." (empty extension) is rejected. |
| Upload.UpperCaseExample | app.py:14-23 | "PHOTO.JPEG" is accepted. |

## Left out

- Image I/O, white balance, CLAHE and inpainting (`preprocessing.py`): the preprocessor is an uninterpreted function returning a rectangular image.
- Landmark detection (`detection.py`): an uninterpreted function returning an optional landmark list, with float-to-pixel scaling already applied.
- The eye centroids and their Euclidean distance: `iod` is an abstract non-negative real, because the mean and the square root are floating point.
- Convex hull, `fillConvexPoly` and the morphological open/close: an abstract predicate says which pixels survive. The crop uses only the point set's extremes, which a hull shares.
- HSV/Lab/gray conversion, Laplacian variance, Canny and mean/std: these OpenCV statistics arrive as a record of reals. A patch with no pixels is analyzed like any other here, whereas in the code `cv2.cvtColor` at main.py:80 would raise on it. The cheek and eye edge measures sum 0/255 edge values per pixel, so they are 255 times the fraction of edge pixels; the model only passes them on.
- `round(x, 2)`: an uninterpreted function, since it is floating point.
- Age and gender inference (`estimate_age_gender`, including its catch-all error path): an uninterpreted function of the image. Only `get_age_range` is modelled.
- `draw_landmarks`, `cv2.imwrite`, `print`, the JSON report file and the `convert` serializer: side effects that do not change the report.
- The webcam capture loop (`capture.py`) and drawing (`visualization.py`).
- The Flask route in `app.py`: only the file-name check is modelled.
- RoiExtraction.ForeheadOffset: takes `int(0.3·span)` over exact reals rather than IEEE doubles. It gives 0.3·span truncated, as the code does, not rounded.
- RoiExtraction.Padding: `int(0.05·iod)` over exact reals rather than IEEE doubles.
- RoiAnalysis.BuildResult: thresholds are reals, while the source mixes integer and float literals. The comparison outcome is the same either way.
- RoiExtraction.MaskedCrop: crops with the corrected `Crop`, not numpy's slice. When x2 or y2 is negative (a region lying more than pad + 1 pixels beyond the left or top edge), numpy counts that stop from the opposite edge. The code's patch then holds all but the last |x2| columns (or |y2| rows) of the masked image, where the model's patch is empty. `CropAsWritten` models that behaviour, and `CropAsWrittenAgrees` shows the two agree whenever x2 and y2 are non-negative.
- Pipeline.AnalyzeView: the "Age/Gender" dictionary entry is a separate optional field instead of a key that precedes the region keys.
- Pipeline.AnalyzeRegion: `f"analyze_{name}_roi" in globals()` is modelled as membership in the five analyzer names `main.py` imports. No other function of that form is in scope there.
- Text.Lower: maps only `A`–`Z`. Python's full Unicode `lower()` cannot produce an ASCII `p`, `n`, `g`, `j` or `e` from any other character, so acceptance of a file name is unaffected.
- Pipeline.AnalyzeImagesMembership: assumes distinct view names. They are keys of a Python dictionary, so the source guarantees this.

## Findings

| source | as written | input that shows it | evidently intended | confidence | as-written member | corrected member |
|---|---|---|---|---|---|---|
| roi_extraction.py:73-78 | `x2 = min(x + w_box + pad, w)` can be negative when the region lies wholly left of the image (landmarks are allowed outside the frame), and `masked[y1:y2, x1:x2]` then counts x2 from the right edge. The same applies to y2 above the image. | One landmark at (−5, 0), padding 0, an image of 1 row × 10 columns: the rectangle is (0, 0, −4, 1) and numpy returns 6 columns. | An empty patch, since the region does not overlap the image. | not executed | RoiExtraction.CropAsWrittenWrapsAround | RoiExtraction.Crop |
