# Fruit detection and ripeness handler — a Dafny model

This project models the request handler `clasificar_madurez_with_box` of a small Gradio app. The handler takes one uploaded image and does the following:

1. It runs an object detector on the image.
2. It keeps the `'apple'` detections that score above 0.5.
3. It picks the one with the largest bounding box.
4. It outlines that box on a copy of the image.
5. It crops the box and hands the crop to a ripeness classifier.
6. It returns an image and a Spanish text reporting the outcome.

Either model may have failed to load, and either call may raise.

The model has four modules:

- `Selection` covers the pure selection rule:
  - the relevance filter, which keeps the detector's order;
  - the box area;
  - the choice Python's `max` makes, which is the first of equal maxima;
  - the truncation toward zero that gives the integer rectangle used both for drawing and for cropping.
- `Formatting` covers the two number formats the summary uses, `:.2f` and `:.0f`. They are modelled on the exact value of the number: round half to even, with a minus sign kept on a negative value that rounds to zero. A parser gives the round trip.
- `Messages` covers the outcome kinds and their texts.
- `Handler` covers the handler itself, as a pure function of:
  - the upload, absent or an opaque image;
  - the detector, absent or a function from image to "raised" or a list of records;
  - the classifier, likewise, from a crop.

  A response has three parts:
  - the image shown: none, the upload unchanged, or the upload with a rectangle outlined;
  - the message;
  - the sequence of model calls made.

  The call sequence makes "the classifier is not consulted" and "the classifier sees exactly the outlined rectangle" statable.

The handler draws on a copy of the image in place. Since the pixels are not modelled, that mutation becomes the `Annotated(source, outline)` value, and the handler is a function rather than a method.

Notes on the source:

- The source's accented letters are damaged by a lost file encoding. The texts use the evident letters: ó in "detección", "clasificación" and "Ocurrió", and Á in "Área".
- Equal areas: `max` keeps the first maximal element, and the model does the same (`Selection.LargestIndex`, `Selection.FirstLargestInInput`).
- Corners are truncated toward zero by `int()`, not rounded (`Selection.Trunc`).

## Model

| member | source | states |
|---|---|---|
| Selection.Qualifies | app.py:69-73 | the relevance test: the label is exactly "apple" and the score is strictly above 0.5 |
| Selection.Relevant | app.py:73 | the list comprehension; every detection it keeps qualifies |
| Selection.RelevantMembers | app.py:69-73 | a detection is kept iff it is in the input, labelled `'apple'` and scores above 0.5; nothing is kept iff no detection qualifies |
| Selection.RelevantAppend | app.py:73 | filtering distributes over concatenation, so the kept detections stay in input order |
| Selection.ThresholdIsExclusive | app.py:73 | a score of exactly 0.5 is never kept |
| Selection.Area | app.py:81-82 | width times height; never negative for a well-formed box; zero for a degenerate one |
| Selection.LargestFrom | app.py:85 | the scan `max` performs: the result has the largest area of the whole list, and every element before it is strictly smaller |
| Selection.LargestIndex | app.py:85 | the index `max` returns: no area is larger, and every earlier area is strictly smaller (first of equal maxima) |
| Selection.LargestIndexIsUnique | app.py:85 | those two properties determine the index |
| Selection.MostRelevant | app.py:81-85 | the chosen detection is in the input, qualifies, and no qualifying detection has a larger box |
| Selection.RelevantOrigin | app.py:73 | the i-th kept detection sits at some input index k, and the kept ones before k are exactly the first i kept |
| Selection.FirstLargestInInput | app.py:85 | in the detector's own order, every qualifying detection before the chosen one has a strictly smaller box (ties go to the earliest) |
| Selection.Trunc | app.py:92-95 | `int()` on a number: truncation toward zero, within one of the value on its side of zero |
| Selection.TruncMonotone | app.py:92-95 | truncation keeps the order of two coordinates |
| Selection.PixelRect | app.py:87-95 | the rectangle drawn and cropped: each corner within one pixel of the box, and a well-formed box gives a well-formed rectangle |
| Formatting.Decimal | app.py:116-122 | `str` of a natural number: non-empty digits, no leading zero, reading back as the number |
| Formatting.PaddedDecimal | app.py:116-122 | exactly `width` digits, zero-padded, reading back as the number |
| Formatting.RoundHalfEven | app.py:116-122 | the nearest integer, ties to even |
| Formatting.ScaledMagnitude | app.py:116-122 | the printed digits as one integer: \|x\|·10^places rounded to nearest, ties to even |
| Formatting.ScaleIsProduct | app.py:116-122 | the scaling is \|x\|·10^places |
| Formatting.Fixed | app.py:116-122 | fixed-point text with `places` decimals; starts with a minus sign iff the value is negative |
| Formatting.FixedRoundTrip | app.py:116-122 | the text is well-shaped (an integer part without leading zeros, and a point followed by exactly `places` digits when places > 0), and parsing it gives back the signed rounded value |
| Formatting.FixedTextUnique | app.py:116-122 | two well-shaped texts with the same sign and the same value are the same text |
| Formatting.FixedIsDetermined | app.py:116-122 | any well-shaped text with the sign of x and the value \|x\|·10^places rounded half to even is exactly Fixed's output, so the round trip fixes the rendering completely |
| Formatting.FixedCents | app.py:118-121 | a score n/100 below one prints as "0." followed by the two digits of n |
| Formatting.FixedTwoPlaces | app.py:118 | 0.83 prints as "0.83" |
| Formatting.FixedRoundsToNearest | app.py:121 | 0.7654 prints as "0.77" |
| Formatting.FixedNoPlaces | app.py:119 | an area of 961 prints as "961", without a point |
| Formatting.FixedTieDown | app.py:118 | a tie rounds to the even digit: 0.125 prints as "0.12" |
| Formatting.FixedTieUp | app.py:119 | a tie rounds to the even digit: 961.5 prints as "962" |
| Formatting.FixedNegativeZero | app.py:118 | a negative value that rounds to zero keeps its sign: "-0.00" |
| Messages.Text | app.py:49-134 | every outcome's text is non-empty, and an exception's diagnostic ends the text verbatim |
| Messages.SummaryText | app.py:116-122 | the success summary opens with the detector's label and closes with the classifier's confidence printed with two decimals |
| Messages.TextsTellOutcomesApart | app.py:49-134 | messages of different kinds never show the same text, whatever diagnostics or labels they carry, so the text tells which branch was taken |
| Handler.Selects | app.py:57-78 | the handler reaches the selection step iff there is an upload, the detector is loaded and returns normally, and some detection it reports qualifies |
| Handler.Chosen | app.py:81-85 | the selected detection is one the detector reported, it qualifies, and no qualifying detection has a larger box |
| Handler.Process | app.py:35-139 | the handler's decision table (listed after this table) |
| Handler.ClassifierIrrelevantUntilChosen | app.py:47-85 | until a detection is chosen, the response is the same whatever classifier is loaded, or none |
| Handler.IrrelevantDetectionsChangeNothing | app.py:69-85 | non-qualifying detections listed before or after the others leave the whole response unchanged |
| Handler.DetectionErrorShown | app.py:133-136 | a detector exception shows the upload unchanged, and the exception's text ends the message |
| Handler.ExampleChoice | app.py:73-95 | in the worked request the banana is filtered out and the larger, lower-scoring apple is chosen; its rectangle is (0, 0, 31, 31) |
| Handler.SummaryExample | app.py:64-122 | the worked request outlines and crops (0, 0, 31, 31), calls the detector then the classifier, and reports the first classification |
| Handler.ExampleFigures | app.py:116-122 | the worked request's score, area and confidence print as "0.83", "961" and "0.77" |
| Handler.ExampleSummaryText | app.py:116-122 | the worked request's full summary text |
| Handler.TieKeepsFirstExample | app.py:85-92 | with two equal areas the earlier apple is outlined, though the later one scores higher |

`Handler.Process` states the handler's decision table:

- No image is shown iff there is no upload, and the prompt is the message iff there is no upload.
- Otherwise the image shown is the upload itself.
- The upload is shown outlined iff a detection was chosen. That holds iff the detector is loaded, returns normally and reports a qualifying detection. The outline is then the chosen detection's truncated rectangle.
- The upload is outlined iff the message is one of the four post-selection kinds: classifier missing, classifier raised, empty classification, or summary.
- The detector is called once, on the upload, iff both exist.
- The classifier is called iff a detection was chosen and the classifier is loaded, and then on exactly the outlined rectangle of the upload.
- Each error message occurs exactly in its own condition and carries the diagnostic of the exception.
- The summary reports the chosen detection and the classifier's first record.

## Left out

- Loading the two pretrained pipelines at import time (app.py:14-30) is not modelled. A model that failed to load is `None`.
- The inference calls themselves (app.py:64, 104) are parameters. Their only effect on the handler is the list they return or the exception they raise.
- Pixel work is not modelled: copying the image, drawing the blue 5-pixel outline and cropping (app.py:52-53, 92, 95). The model keeps the image identity and the integer rectangle passed to drawing and cropping.
- Pillow rejects a rectangle whose right edge is left of its left edge, or whose bottom edge is above its top edge. That rejection would reach the detection-error branch (app.py:133-136), and `Handler.Process` does not model it. For a well-formed box (xmin ≤ xmax, ymin ≤ ymax) the rectangle is well-formed (`Selection.PixelRect`), so the branch is never taken for such boxes.
- `Handler.Process` models records with the right fields and types. A record missing a key, or with a value that cannot be compared or formatted, raises inside the handler's `try` blocks; that is not modelled.
- The number formats are modelled on exact values. A floating-point number is represented by the real number it denotes. NaN, infinities and a float negative zero (which `:.2f` prints as "-0.00") are not modelled.
- The `print` logging (app.py:18, 20, 27, 29, 65, 105) and the Gradio interface and launch (app.py:144-161) are input/output and user interface, and are not modelled.
