# Question segmentation of an exam scanner, in Dafny

This project models the core of an exam-scanning pipeline that turns the
scanned pages of a mathematics exam into one image and one transcript per
question. The pipeline works in five steps:

1. **Numbering.** The OCR engine's text spans on each page are numbered. Three
   section triggers (multiple choice, fill-in, worked solutions) each wait for
   their section's header phrases. Once a trigger has seen all of its phrases,
   a span that begins with "n." for the next expected number n becomes
   question n. The count carries over from page to page.
2. **Page analysis.** Each numbered page yields a page structure: the
   character width and height, the left edge, the number edge and the right
   edge, plus the bottom edge, which is taken from the "page N of M" footer.
3. **Segmentation.** Each page is cut into a head region and one region per
   question. Every region is saved under a tag: "hb" for the head, the
   question number for the others. The texts inside the layout are shared out
   among the regions.
4. **Stitching.** Every page's head region continues the previous page's last
   question, so the head is merged into that question and dropped.
5. **Trimming and cropping.** Questions 10 and 16 are trimmed at the next
   section's header. Every image is cropped to its ink.

Modules follow the source files:

- `Base` (`base.dfy`) holds the cell records.
- `Trigger` (`trigger.dfy`) holds the section triggers.
- `Labelling` (`labelling.dfy`) holds the numbering pass as a fold.
- `PixelDistribute` (`layout.dfy`) holds `PixelCube` and `MiniPixelCube`.
- `Segmentation`, `Stitching`, `Trimming` and `Cropping` cover the methods of
  `OcrDomain` in `backend/ocr/ocr_domain.py`.
- `Domain` (`domain.dfy`) holds the `OcrDomain` object with its question count.
- `Text` (`text.dfy`) holds the Python string operations the code relies on.
- `Wrappers` (`wrappers.dfy`) holds `Option` and `Result`.

What the source changes in place is modelled in place:

- A trigger's key set is a field that `ModeTrigger.ShallWeStart` updates.
- `PixelCube` is a class whose cells `Decorate` and `MarkFooter` update.
- `OcrDomain` carries `numberOperator` and the shared `CommonTrigger`.
- The nested page lists are an `array<seq<CutCell>>` that `GlobalCellConcat`
  and `DescriptionRemove` rewrite.
- The crop scan runs over an `array2<int>` of channel-0 values.

Each of these methods is proved against a specification function:

- `Run`/`Labelled` for the numbering;
- `Analyse` for the page analysis;
- `PageCut` for segmentation;
- `Stitched` for stitching;
- `TrimPage` for trimming;
- `CropFixed` for cropping, the crop with the two slips listed under "## Findings" put right; `CropAsWritten` models the crop exactly as written.

The lemmas state what the source promises about those functions.
Some of the specification functions carry no `ensures` of their own; lemmas state what they mean:

- `PixelDistribute.Measure` (backend/nlp/pixel_distribute.py:71-94): MeasureCases and MeasureSucceeds.
- `PixelDistribute.Analyse` (backend/nlp/pixel_distribute.py:65-117): PixelCube.Distribute and OcrDomain.InPageOcr.
- `Segmentation.Region` (backend/ocr/ocr_domain.py:79-83): PageCutRegions.
- `Cropping.Scan` (backend/ocr/ocr_domain.py:169-180): ScanRowsSummarizes, ScanCovers and FixedScanIsInkBox.
- `Base.Positions` is the reference description of a filter over a cell list: the positions, in increasing order, of exactly the cells a predicate accepts. The filters of the page analysis and the segmentation are each proved to take exactly those cells, once each and in order.

Effects outside the program are parameters:

- The OCR engine's result for a page is the input `pieces: seq<RawPiece>`.
- The re-reading of a segment in `_description_remove` is a function
  parameter `ocr: string -> seq<RawPiece>`.
- Image files are represented by their size (`CutCell.img`) or by their
  channel-0 pixel grid.
- A page's save-path stem (`img_path` with "source" replaced by
  "source/output" and ".jpg" removed) is an input.

## Model

| member | source | states |
|---|---|---|
| Text.Strip | backend/base/base.py:21 | `str.strip()`: the result neither begins nor ends with whitespace and is no longer than the input |
| Text.StripInfix | backend/base/base.py:21 | the stripped text is a contiguous infix of the original, with only whitespace removed on either side |
| Text.StripIdempotent | backend/base/base.py:21 | stripping an already stripped text changes nothing |
| Text.DecimalString | backend/nlp/pixel_distribute.py:131 | `"{}".format(n)` of a question number is a non-empty run of ASCII digits with no leading zero unless it is the single digit 0 |
| Text.DecimalValue | backend/nlp/pixel_distribute.py:131 | the digits written for n have the value n |
| Text.ParseDecimal | backend/base/base.py:98-100 | `int(str(n)) == n`: formatting a number and parsing it back are inverse |
| Text.ParseDigits | backend/base/base.py:100 | `int()` of a bare run of digits is its decimal value |
| Text.ParseInt | backend/base/base.py:100 | `int()` gives a value exactly when the stripped text is one optional sign and then digits; a digit run reads as its decimal value, a '-' literal as the negated value of its digits, a '+' literal as the value of its digits, and only a '-' literal reads as a negative number |
| Text.AfterLast | backend/base/base.py:99 | `split(sep)[-1]` is a suffix that holds no separator and is preceded by one, or is the whole string |
| Text.BeforeFirst | backend/base/base.py:99 | `split(sep)[0]` is a prefix that holds no separator and is followed by one, or is the whole string |
| Text.FlattenAppend | backend/ocr/ocr_domain.py:107-108 | flattening two lists of lists one after the other is flattening each and concatenating |
| Base.NewOcrCell | backend/base/base.py:19-25 | the cell keeps the box and confidence, its text is the strip of the engine's text (no whitespace at either end), no number, neither header nor footer |
| Base.CellType | backend/base/base.py:28-36 | None exactly when unnumbered; Choose exactly for numbers up to 10, FillIn exactly for 11 to 16, Solve exactly above 16 |
| Base.Merge | backend/base/base.py:59-79 | the quadrant is always passed, the source's default being 2; a result exactly for quadrants 1 to 4; each coordinate is one of the inputs'; quadrant 1 is (max x, min y), 2 (min x, min y), 3 (min x, max y), 4 (max x, max y) |
| Base.NewCutCell | backend/base/base.py:89-92 | the cut cell keeps the rectangle and path given and starts with no texts |
| Base.GetNumber | backend/base/base.py:98-100 | the result is `int()` of the path's number field: the text after the last '_' (or from the start) up to the first '.' after it (or the end); Segmentation.SavePathNumber reads back a saved path |
| Base.NumberFieldUnique | backend/base/base.py:99 | a path has exactly one number field, so `GetNumber`'s contract fixes its result |
| Base.Positions | backend/ocr/ocr_domain.py:104 | increasing positions of exactly the cells the predicate accepts, every accepted cell's position among them |
| Base.AfterLastOfTail | backend/base/base.py:99 | the part after the last separator of `p + sep + t` is `t` when `t` holds no separator |
| Base.BeforeFirstOfHead | backend/base/base.py:99 | the part before the first separator of `h + sep + t` is `h` when `h` holds no separator |
| Trigger.Remaining | backend/nlp/pixel_distribute.py:24-25 | the keys left are exactly the old keys that do not occur in the text |
| Trigger.ModeTrigger.constructor | backend/nlp/pixel_distribute.py:17-18 | a new trigger holds the keys it is given |
| Trigger.ModeTrigger.ShallWeStart | backend/nlp/pixel_distribute.py:20-28 | on None the keys stay and the answer is no; otherwise the keys become the old keys minus those found in the text, and the answer is yes exactly when none are left |
| Trigger.RunKeysUnseen | backend/nlp/pixel_distribute.py:20-28 | after a series of texts the keys left are exactly those that none of the texts contains |
| Trigger.StartsIffAllSeen | backend/nlp/pixel_distribute.py:26-27 | after a series of texts the trigger answers yes exactly when every key occurred in one of them |
| Trigger.StickyStart | backend/nlp/pixel_distribute.py:23-27 | once no key is left, no later text brings any back: the yes is sticky |
| Trigger.RunKeysShrink | backend/nlp/pixel_distribute.py:23-25 | the remaining-key set never grows as more texts are read |
| Trigger.NumberToMode | backend/nlp/pixel_distribute.py:44-51 | Choose exactly for n up to 10, FillIn exactly for 11 to 16, Solve exactly above 16 |
| Trigger.CellTypeAgrees | backend/base/base.py:28-36 | a numbered cell's `type()` is the mode `static_number_2_mode` gives its number |
| Trigger.TriggerKeys.With | backend/nlp/pixel_distribute.py:38-42 | replacing one section's keys changes that section and leaves the other two as they were |
| Trigger.CommonTrigger.constructor | backend/nlp/pixel_distribute.py:33-42 | three distinct fresh triggers holding the choose, fill-in and solve header phrases |
| Trigger.CommonTrigger.Aim | backend/nlp/pixel_distribute.py:53-55 | the number's section's trigger, always one of the three shared instances |
| Trigger.CommonTrigger.AimShared | backend/nlp/pixel_distribute.py:53-55 | two numbers get the same instance exactly when they fall in the same section |
| Trigger.CommonTrigger.ShallWeStartAt | backend/nlp/pixel_distribute.py:127 | only the trigger of n's section reads the text and loses the keys found in it; the answer is yes exactly when that trigger has none left |
| Labelling.LabelStep | backend/nlp/pixel_distribute.py:123-135 | marking cell i extends the labelled prefix by one cell, read in the state the cells before it left |
| Labelling.HitBy | backend/nlp/pixel_distribute.py:127-132 | a cell is numbered exactly when its section's trigger says yes and its text begins with "n." |
| Labelling.RunContiguous | backend/nlp/pixel_distribute.py:119-138 | the numbers found from offset o are o+1, o+2, ..., with no gap |
| Labelling.LabelledAt | backend/nlp/pixel_distribute.py:123-135 | cell i is marked by the state the pass is in when it reaches cell i |
| Labelling.NumberedOnlyIfTriggered | backend/nlp/pixel_distribute.py:125-135 | the pass changes at most a cell's number; a cell numbered n has text beginning "n.", n is the next expected number, and n's trigger ran out of keys on that text |
| Labelling.ConsultedOnEveryCell | backend/nlp/pixel_distribute.py:123-129 | every cell, numbered or not, is read by the trigger of the current candidate's section |
| Labelling.RunKeysOnlyShrink | backend/nlp/pixel_distribute.py:123-129 | no section's key set grows during the pass |
| Labelling.NumbersMatchCells | backend/nlp/pixel_distribute.py:119-138 | on fresh cells, the numbered cells carry, in list order, exactly the numbers `decorate` returns |
| Labelling.LabelDocumentAt | backend/ocr/ocr_domain.py:53-57 | the pass over pages i onward reads page i from its count and keys, then the rest from where page i left them |
| Labelling.DocumentContiguous | backend/ocr/ocr_domain.py:53-57 | when each page starts from the count before it, the document's numbers are start+1, start+2, ..., each once and in order |
| PixelDistribute.MeanBounds | backend/nlp/pixel_distribute.py:90 | a mean lies between a lower and an upper bound of the values |
| PixelDistribute.MostFrequent | backend/nlp/pixel_distribute.py:82 | a value of the prefix whose count in the whole list no value of the prefix exceeds |
| PixelDistribute.ModeOf | backend/nlp/pixel_distribute.py:82 | `value_counts(...).index[0]`: a value of the list with maximal count |
| PixelDistribute.SnapBrackets | backend/nlp/pixel_distribute.py:81-91 | snapping down never passes x, and snapping up always lands past it |
| PixelDistribute.SnapAll | backend/nlp/pixel_distribute.py:81 | element by element, `x // cw * cw` |
| PixelDistribute.CharRatios | backend/nlp/pixel_distribute.py:77 | element by element, the box width over the text length |
| PixelDistribute.NumberedStarts | backend/nlp/pixel_distribute.py:85 | empty exactly when no cell is numbered; every value is the left x of a numbered cell |
| PixelDistribute.MiddleCandidates | backend/nlp/pixel_distribute.py:90 | empty exactly when every cell starts left of the left edge; every value is the midpoint of a cell starting at or right of it |
| PixelDistribute.RightCandidates | backend/nlp/pixel_distribute.py:91-93 | empty exactly when no snapped-up right x exceeds the middle; every value exceeds the middle and is some cell's snapped-up right x |
| PixelDistribute.NumberedStartsComplete | backend/nlp/pixel_distribute.py:85 | one value per numbered cell, in list order: the k-th value is the left x of the k-th numbered cell |
| PixelDistribute.MiddleCandidatesComplete | backend/nlp/pixel_distribute.py:90 | one value per cell starting at or right of the left edge, in list order: the k-th value is the midpoint of the k-th such cell |
| PixelDistribute.RightCandidatesComplete | backend/nlp/pixel_distribute.py:91-93 | one value per cell whose snapped-up right x exceeds the middle, in list order: the k-th value is that of the k-th such cell |
| PixelDistribute.Edges | backend/nlp/pixel_distribute.py:80-94 | on success the edges fit the cells; failure only for no numbered cell, no midpoint or no right candidate; it fails for want of a numbered cell exactly when none is numbered |
| PixelDistribute.MeasureCases | backend/nlp/pixel_distribute.py:71-94 | fails exactly on no cells and on an empty text, for want of a number only when nothing is numbered; on success the character width and height are the means, and the left edge, number edge and right edge are modes of the snapped coordinates, the middle the mean midpoint |
| PixelDistribute.MeasureSucceeds | backend/nlp/pixel_distribute.py:71-94 | a page of boxes with text and positive width and at least one numbered cell always gets a geometry |
| PixelDistribute.CharWidthPositive | backend/nlp/pixel_distribute.py:77 | boxes of positive width give a positive character width |
| PixelDistribute.EdgesSucceed | backend/nlp/pixel_distribute.py:80-94 | with a positive width and a numbered cell, a midpoint and a right candidate always exist |
| PixelDistribute.LeftEdgeReached | backend/nlp/pixel_distribute.py:80-90 | some cell starts at or right of the left edge |
| PixelDistribute.RightsExist | backend/nlp/pixel_distribute.py:90-93 | with a cell past the left edge there are midpoints, and some snapped-up right x exceeds their mean |
| PixelDistribute.MaxEndBounds | backend/nlp/pixel_distribute.py:90 | no counted midpoint lies right of the greatest right x of the counted cells |
| PixelDistribute.LastFooter | backend/nlp/pixel_distribute.py:98-103 | the last cell matching the footer pattern, with no match after it; None only when no cell matches |
| PixelDistribute.LastFooterIs | backend/nlp/pixel_distribute.py:99-103 | the first match of the backward scan is the last matching cell |
| PixelDistribute.WithFooterKeeps | backend/nlp/pixel_distribute.py:101 | flagging the footer changes no field but `is_footer`, and only on the last matching cell |
| PixelDistribute.OcrCells | backend/nlp/pixel_distribute.py:61 | one fresh cell per engine piece, in order |
| PixelDistribute.PixelCube.constructor | backend/nlp/pixel_distribute.py:60-63 | the cells are the pieces numbered by the pass from the offset, the numbers are those it found, and the triggers keep the keys it left |
| PixelDistribute.PixelCube.Decorate | backend/nlp/pixel_distribute.py:119-138 | the loop leaves exactly the cells, numbers and trigger keys of the numbering fold `Labelled`/`Run` |
| PixelDistribute.PixelCube.MarkFooter | backend/nlp/pixel_distribute.py:96-103 | the backward scan flags exactly the last matching cell, bottom edge 26 above its top, or the last cell's bottom when none matches |
| PixelDistribute.PixelCube.Distribute | backend/nlp/pixel_distribute.py:65-117 | the result is `Analyse` of the cells and numbers: the estimate's error, or the geometry with the bottom edge and footer-flagged cells; cells change only on success |
| PixelDistribute.NewMiniPixelCube | backend/nlp/pixel_distribute.py:143-150 | one fresh cell per piece; the headers are '二、填空题' and '非选择题' for fill-in, '三、解答题' for solve, and '一、选择题' otherwise; the mode is always passed, the source's default being fill-in |
| PixelDistribute.FirstKeyCell | backend/nlp/pixel_distribute.py:153-156 | the first cell whose text holds a key, none before it; None only when no cell does |
| PixelDistribute.GetHeight | backend/nlp/pixel_distribute.py:152-157 | `(i, top y)` for the least i whose text contains a key, `(0, None)` when no text does |
| Segmentation.Trunc | backend/ocr/ocr_domain.py:129-130 | `int()` of a float truncates toward zero |
| Segmentation.CanvasSize | backend/ocr/ocr_domain.py:128-132 | the canvas is the region's extent truncated to whole pixels, plus the margins |
| Segmentation.CropBox | backend/ocr/ocr_domain.py:136-138 | the crop box is the region grown by half a margin on each side, clamped at 0 on top and left |
| Segmentation.CropCoversRegion | backend/ocr/ocr_domain.py:136-138 | with non-negative margins the crop box contains the region |
| Segmentation.CropFillsCanvas | backend/ocr/ocr_domain.py:128-138 | away from the page border, the canvas is as large as the crop box up to less than a pixel |
| Segmentation.SavePathNumber | backend/ocr/ocr_domain.py:85-87 | reading back the number of a saved path gives `int()` of its tag, whatever the stem |
| Segmentation.HeadTagRejected | backend/ocr/ocr_domain.py:87 | the head region's path holds no number: `int('hb')` raises |
| Segmentation.NumberTagParses | backend/ocr/ocr_domain.py:86 | a region saved under number n reads back as n |
| Segmentation.TagNumber | backend/ocr/ocr_domain.py:85-87 | region 0 reads back as no number, region j as the j-th number |
| Segmentation.Numbered | backend/ocr/ocr_domain.py:78 | only numbered cells, no more than there are cells |
| Segmentation.NumberedNumbers | backend/ocr/ocr_domain.py:78 | the numbered cells carry, in order, the numbers listed by `NumbersOf` |
| Segmentation.Kept | backend/ocr/ocr_domain.py:98-102 | only cells of the page inside the layout and neither header nor footer |
| Segmentation.KeptNumbered | backend/ocr/ocr_domain.py:98-104 | the filter never adds numbered cells |
| Segmentation.NumberedComplete | backend/ocr/ocr_domain.py:78 | the numbered cells are exactly the cells at the numbered positions, once each and in list order |
| Segmentation.KeptComplete | backend/ocr/ocr_domain.py:98-102 | the kept cells are exactly the cells inside the layout and neither header nor footer, once each and in list order |
| Segmentation.Bounds | backend/ocr/ocr_domain.py:104-106 | cut points from 0 to the end, non-decreasing, two more than numbered cells |
| Segmentation.BoundsNumbered | backend/ocr/ocr_domain.py:104 | the inner cut points are numbered cells' positions |
| Segmentation.PageCut | backend/ocr/ocr_domain.py:72-110 | one cut cell per region `zip` lets through |
| Segmentation.CutFrames | backend/ocr/ocr_domain.py:90-94 | one empty cut cell per region, with its rectangle, tagged path and canvas size |
| Segmentation.ShareTexts | backend/ocr/ocr_domain.py:107-108 | cut cell q is extended by the texts of slice q, cells past the last slice keep theirs |
| Segmentation.CutPage | backend/ocr/ocr_domain.py:78-110 | the page's cut cells are `PageCut` |
| Segmentation.GlobalCellCut | backend/ocr/ocr_domain.py:62-112 | one list per pair of page and stem (as many as the shorter input), each that page's `PageCut` |
| Segmentation.PageCutTags | backend/ocr/ocr_domain.py:78-94 | a page with k numbers and k numbered cells gives k+1 cut cells: the head, which reads back as no number, then the numbers in order |
| Segmentation.PageCutRegions | backend/ocr/ocr_domain.py:79-82 | the head starts at (number edge, 0), region j at the j-th numbered cell's top; each ends at (right edge, max of the next top less the character height, 0), the last at (right edge, bottom edge) |
| Segmentation.PageCutPartition | backend/ocr/ocr_domain.py:98-108 | the cut cells' texts, in order, are exactly the kept cells' texts, in order; the head gets the texts of all kept cells before the first numbered one, which ends it |
| Segmentation.PageCutLaterShares | backend/ocr/ocr_domain.py:104-108 | every cut cell after the head that holds any text starts with the text of a numbered kept cell |
| Segmentation.SegmentStartsNumbered | backend/ocr/ocr_domain.py:104-108 | a non-empty slice after the head starts at a numbered cell's position, with that cell's text |
| Segmentation.HeadSegment | backend/ocr/ocr_domain.py:104-108 | the head's share is the run of cells before the first numbered one |
| Segmentation.SegmentsConcat | backend/ocr/ocr_domain.py:107-108 | the first k slices concatenate to the texts up to the k-th cut point |
| Stitching.ConcatSize | backend/ocr/ocr_domain.py:263-267 | the canvas is the wider width plus 50 and the summed heights plus 26 |
| Stitching.ConcatHoldsBoth | backend/ocr/ocr_domain.py:263-269 | on the canvas `ConcatPixel` describes (white, then the first image pasted at (0, 0), then the second at (0, h1)), every pixel of the first image shows at its place, every pixel of the second h1 rows lower, and the rows below both stay blank |
| Stitching.CellConcat | backend/ocr/ocr_domain.py:240-249 | the first cell keeps box and path, its texts become its own then the second's, its image the stacked canvas |
| Stitching.StitchPage | backend/ocr/ocr_domain.py:198-203 | each page loses exactly one cell |
| Stitching.Stitched | backend/ocr/ocr_domain.py:198-203 | as many pages, each one cell shorter |
| Stitching.GlobalCellConcat | backend/ocr/ocr_domain.py:187-203 | the in-place fold with the buffer cell leaves exactly `Stitched` of the pages |
| Stitching.StitchedTotal | backend/ocr/ocr_domain.py:198-203 | the cell total afterwards is the sum of (length − 1) over the pages |
| Stitching.StitchedCells | backend/ocr/ocr_domain.py:199-203 | only each non-last page's last cell changes, gaining the next page's head texts; all others are the cells one place further on; the last page's last cell is untouched |
| Stitching.StitchedTexts | backend/ocr/ocr_domain.py:198-203 | no text is lost or reordered: the document's texts are the first head's texts then the stitched document's texts |
| Trimming.TrimMode | backend/ocr/ocr_domain.py:215-219 | fill-in exactly for 10, solve exactly for 16, never choose |
| Trimming.TruncWhole | backend/ocr/ocr_domain.py:236 | `int()` of a whole pixel width is that width |
| Trimming.CutAtHeader | backend/ocr/ocr_domain.py:234-238 | box, path and width kept, texts cut to `texts[:idx]`, height truncated to the header's top |
| Trimming.TrimCell | backend/ocr/ocr_domain.py:215-238 | box, path and width kept; the texts only ever become a prefix |
| Trimming.TrimCellCuts | backend/ocr/ocr_domain.py:215-238 | cells other than 10 and 16 unchanged; 10 and 16 unchanged on a miss and cut to `texts[:idx]` and the header's height on a hit |
| Trimming.StitchedCutsNumbered | backend/ocr/ocr_domain.py:198-216 | after stitching every cut cell's path reads back as a number, so `get_number` never raises there |
| Trimming.TrimPage | backend/ocr/ocr_domain.py:213-238 | one trimmed cell per cell |
| Trimming.TrimOne | backend/ocr/ocr_domain.py:215-238 | the loop body leaves the cell as `TrimCell` does |
| Trimming.TrimCells | backend/ocr/ocr_domain.py:213-238 | the inner loop leaves exactly `TrimPage` |
| Trimming.DescriptionRemove | backend/ocr/ocr_domain.py:205-238 | every page list becomes `TrimPage` of what it was |
| Trimming.TrimPageShortens | backend/ocr/ocr_domain.py:213-238 | trimming keeps every cell's box and path, only shortens transcripts, and touches no cell but 10 and 16 |
| Cropping.Pixels | backend/ocr/ocr_domain.py:166-167 | the grid holds the image's pixels row by row |
| Cropping.ScanRowsSummarizes | backend/ocr/ocr_domain.py:170-180 | after the first n rows each extremum is its sentinel or an ink pixel seen so far, and every ink pixel seen lies in the box |
| Cropping.ScanCovers | backend/ocr/ocr_domain.py:169-180 | every ink pixel lies in the scanned box, whatever the sentinels; without ink the sentinels come back |
| Cropping.FixedScanIsInkBox | backend/ocr/ocr_domain.py:169-180 | from the sentinels the scan needs, it finds exactly the ink's bounding box |
| Cropping.InkBoxUnique | backend/ocr/ocr_domain.py:170-180 | the ink's bounding box is unique |
| Cropping.CropAsWritten | backend/ocr/ocr_domain.py:169-184 | fails exactly on an inverted box; otherwise the image is `(right − left + 10, bottom − top + 10)` |
| Cropping.AsWrittenBoxFits | backend/ocr/ocr_domain.py:184 | a box the as-written crop accepts lies on the image |
| Cropping.ImgCrop | backend/ocr/ocr_domain.py:157-185 | the nested loop over rows and columns, with the sentinels and the crop box corrected, computes `CropFixed` of the image's pixels |
| Cropping.NoInkAtSentinel | backend/ocr/ocr_domain.py:169-180 | the leftmost column keeps its sentinel exactly when there is no ink; otherwise the box lies on the image |
| Cropping.CropFixed | backend/ocr/ocr_domain.py:169-184 | fails exactly without ink; otherwise the scanned box is the ink box and the image is that box framed by 5 white pixels each side |
| Cropping.CropFixedShape | backend/ocr/ocr_domain.py:183-184 | the corrected crop's ink box sits at (5, 5) in a white margin |
| Cropping.CropFixedIdempotent | backend/ocr/ocr_domain.py:157-185 | cropping a corrected crop again gives it back |
| Cropping.SwappedSentinels | backend/ocr/ocr_domain.py:169 | on [[255, 255, 100]] the as-written scan gives a box starting left of the ink, not the ink box; the corrected one gives the ink box |
| Cropping.LastPixelDropped | backend/ocr/ocr_domain.py:183-184 | the as-written crop of a single ink pixel is a blank 10-by-10 image |
| Cropping.BlankRecropFails | backend/ocr/ocr_domain.py:169-184 | re-cropping that blank image fails |
| Cropping.FixedKeepsPixel | backend/ocr/ocr_domain.py:183-184 | the corrected crop keeps the pixel at (5, 5) of an 11-by-11 image |
| Domain.PageNumbersConsistent | backend/ocr/ocr_domain.py:53-57 | a page's structure lists the numbers of its numbered cells, in order, as many as there are |
| Domain.OcrPages | backend/ocr/ocr_domain.py:282 | each page's cells, in page order |
| Domain.PagesOcrStep | backend/ocr/ocr_domain.py:282 | reading one more page moves its numbers from the unread to the read part of the document |
| Domain.OcrDomain.constructor | backend/ocr/ocr_domain.py:16-20 | count 0 and fresh triggers holding all their keys |
| Domain.OcrDomain.InPageOcr | backend/ocr/ocr_domain.py:41-60 | the page is numbered from the count with the shared keys and analysed; on success the count grows by the page's numbers, which match its numbered cells |
| Domain.OcrDomain.PagesOcr | backend/ocr/ocr_domain.py:282 | when every page succeeds, the pages' numbers are those of the pass over the whole document, every page is consistent, and the count grows by their number |
| Domain.DocumentNumbered | backend/ocr/ocr_domain.py:53-57 | from a count of 0 a document is numbered 1, 2, 3, ... across its pages |

## Left out

- backend/ocr/structure_demo.py is a script calling a layout engine and printing its output; it is not part of this model.
- The OCR engine (`PaddleOCR`, ocr_domain.py:18, 49, 224) is foreign code: its results are inputs.
- PIL and numpy I/O (open, crop, paste, save) are not modelled. Only canvas sizes, crop boxes and the pixel scan are.
- `_page_cutter` is not modelled. It is float arithmetic on the A4 ratio that drives file writes.
- `CutCell.delete` is not modelled. It is a file-system check and removal.
- `MetaCell.integrate` is not modelled. It calls the staticmethod `_merge` with its own `self` as an extra argument, so it cannot run as written; `_merge` is modelled alone.
- `process()` is modelled only as its page loop (`PagesOcr`); its further steps are the separate methods. The `__main__` block is not modelled.
- `_global_img_crop` is a loop calling `_img_crop` on each saved file; only `ImgCrop` on one image is modelled.
- Floating point is not modelled: the means, snaps and the midpoint are exact reals.
- Where numpy would produce inf or NaN (an empty text, a zero character width), the model returns the typed errors `EmptyText` and `ZeroCharWidth` instead of computing on.
- pandas `value_counts` tie-breaking is not modelled. The edges are stated as "some value of maximal count".
- `int()` is modelled for ASCII digits only, with no underscores and no non-ASCII digits.
- Only channel 0 of each pixel is modelled, and only the size of an image file.
- Image sizes that PIL would reject (a negative canvas) are not modelled.
- The save path is `stem + "_" + tag + ".jpg"`, with `stem` given per page, so the `str.replace` calls that build the stem are not modelled.
- Trimming.TrimCell: takes the number `get_number` reads as a parameter, since a path without a number makes `get_number` raise; DescriptionRemove requires every path to hold a number, and StitchedCutsNumbered proves this holds once the heads are folded away.
- Trimming.DescriptionRemove: its `requires` excludes the paths on which `get_number` raises, instead of modelling the exception.
- Domain.OcrDomain.PagesOcr: on a failed page the count and keys after the earlier pages are not stated. Each page's own failure behaviour is stated by InPageOcr.
- Stitching.GlobalCellConcat: requires every page list to hold at least two cells. With fewer, `cut_cells[-1]` raises after the pop; every page cut from a consistent structure holds its head and at least one question.
- Cropping.ImgCrop: computes the corrected crop (sentinels the column and row counts, box one past the last ink column and row, so the canvas is one pixel wider and taller than the source's `x_right - x_left + 10`), not the crop as written; Cropping.CropAsWritten models the source as written, and "## Findings" gives the inputs on which they differ.
- Segmentation.CropFillsCanvas: stated only away from the page border, where the clamp at 0 does not shift the crop box.

## Findings

| source | as written | input that shows it | evidently intended | confidence | as-written member | corrected member |
|---|---|---|---|---|---|---|
| backend/ocr/ocr_domain.py:169 | the sentinels are swapped: `x_left` starts at the row count and `x_top` at the column count | a 1-by-3 image `[[255, 255, 100]]`: the scan keeps `x_left` at 1, one column left of the only ink pixel | `x_left` starts at the column count and `x_top` at the row count, so the scan finds the ink's bounding box | not executed | Cropping.SwappedSentinels | Cropping.FixedScanIsInkBox |
| backend/ocr/ocr_domain.py:183-184 | the crop box `(x_left, x_top, x_right, x_bottom)` leaves out the last ink column and row, because PIL's box is exclusive on the right and bottom | a 1-by-1 image `[[100]]`: the result is a blank 10-by-10 image, and cropping that again fails | the box reaches one past the last ink column and row, so the crop keeps all the ink and cropping twice is cropping once | not executed | Cropping.LastPixelDropped | Cropping.CropFixedIdempotent |
