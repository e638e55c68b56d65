/**
 * The request handler: one uploaded image in, an image and a text out.
 *
 * The detector and the classifier are the two pretrained models, each of
 * which may have failed to load (None) and, once called, either returns a
 * list of records or raises. Calling them is the handler's only effect, so a
 * response records the calls it made; the pixels themselves are not modelled,
 * only which image is shown and which rectangle is outlined on it.
 */
module Handler {
  import opened Selection
  import opened Messages

  /** An uploaded picture, compared only for identity. */
  type Image(==)

  datatype Option<T> = None | Some(value: T)

  /** What calling a model gives: its records, or the text of the exception
      it raised. */
  datatype Outcome<T> = Raised(diagnostic: string) | Returned(results: seq<T>)

  /** The part of an image inside a rectangle, as handed to the classifier. */
  datatype Crop = Crop(source: Image, rect: Rect)

  /** One record of the classifier's output. */
  datatype Classification = Classification(category: string, score: real)

  type Detector = Image -> Outcome<Detection>
  type Classifier = Crop -> Outcome<Classification>

  /** The image output: nothing, the upload unchanged, or a copy of the upload
      with a rectangle outlined on it. */
  datatype Shown = NoImage | Original(image: Image) | Annotated(source: Image, outline: Rect)

  /** A call into one of the two models. */
  datatype Call = Detect(input: Image) | Classify(crop: Crop)

  datatype Response = Response(shown: Shown, message: Message, calls: seq<Call>)

  /** The handler gets as far as choosing a detection: there is an image,
      the detector is loaded, returns normally, and some detection it reports
      qualifies. */
  function Selects(input: Option<Image>, detector: Option<Detector>): (b: bool)
    ensures b <==> && input.Some? && detector.Some?
                   && detector.value(input.value).Returned?
                   && exists i :: 0 <= i < |detector.value(input.value).results|
                                  && Qualifies(detector.value(input.value).results[i])
  {
    if input.Some? && detector.Some? && detector.value(input.value).Returned? then
      RelevantMembers(detector.value(input.value).results);
      Relevant(detector.value(input.value).results) != []
    else false
  }

  /** The detection drawn and cropped once the handler gets that far: a
      qualifying one of the detector's results, with no qualifying box larger. */
  function Chosen(input: Option<Image>, detector: Option<Detector>): (d: Detection)
    requires Selects(input, detector)
    ensures d in detector.value(input.value).results && Qualifies(d)
    ensures forall e :: e in detector.value(input.value).results && Qualifies(e) ==> Area(e.box) <= Area(d.box)
  {
    RelevantMembers(detector.value(input.value).results);
    MostRelevant(detector.value(input.value).results)
  }

  /** The handler, branch for branch: missing upload, missing detector,
      detector exception, nothing relevant, missing classifier, classifier
      exception, empty classification, and the summary. */
  function Process(input: Option<Image>, detector: Option<Detector>, classifier: Option<Classifier>): (r: Response)
    // the image shown: nothing only without an upload, otherwise the upload,
    // outlined exactly when a detection was chosen, around that detection
    ensures r.shown.NoImage? <==> input.None?
    ensures r.shown.Original? ==> input == Some(r.shown.image)
    ensures r.shown.Annotated? <==> Selects(input, detector)
    ensures r.shown.Annotated? ==>
              input == Some(r.shown.source) && r.shown.outline == PixelRect(Chosen(input, detector).box)
    ensures r.shown.Annotated? <==>
              r.message.ClassifierUnavailable? || r.message.ClassificationFailed?
              || r.message.NotClassified? || r.message.Summary?
    // the detector is consulted once, on the upload, whenever both exist;
    // the classifier at most once, on the very rectangle that is outlined
    ensures |r.calls| <= 2
    ensures r.calls != [] <==> input.Some? && detector.Some?
    ensures r.calls != [] ==> r.calls[0] == Detect(input.value)
    ensures |r.calls| == 2 <==> Selects(input, detector) && classifier.Some?
    ensures |r.calls| == 2 ==>
              r.shown.Annotated? && r.calls[1] == Classify(Crop(r.shown.source, r.shown.outline))
    // the messages
    ensures r.message.UploadPrompt? <==> input.None?
    ensures r.message.DetectorUnavailable? <==> input.Some? && detector.None?
    ensures r.message.DetectionFailed? <==>
              input.Some? && detector.Some? && detector.value(input.value).Raised?
    ensures r.message.DetectionFailed? ==> r.message.diagnostic == detector.value(input.value).diagnostic
    ensures r.message.TargetNotFound? ==> r.message.target == TargetLabel
    ensures r.message.ClassifierUnavailable? <==> Selects(input, detector) && classifier.None?
    ensures r.message.ClassificationFailed? ==>
              classifier.Some? && classifier.value(r.calls[1].crop) == Raised(r.message.diagnostic)
    ensures r.message.NotClassified? ==>
              r.message.target == TargetLabel && classifier.Some?
              && classifier.value(r.calls[1].crop) == Returned([])
    ensures r.message.Summary? ==>
              && Selects(input, detector) && classifier.Some?
              && r.message.detected == Chosen(input, detector) && Qualifies(r.message.detected)
              && classifier.value(r.calls[1].crop).Returned?
              && var cs := classifier.value(r.calls[1].crop).results;
              && cs != [] && r.message.predicted == cs[0].category && r.message.confidence == cs[0].score
  {
    match input
    case None => Response(NoImage, UploadPrompt, [])
    case Some(image) =>
      match detector
      case None => Response(Original(image), DetectorUnavailable, [])
      case Some(detect) =>
        var detection := Detect(image);
        match detect(image)
        case Raised(e) => Response(Original(image), DetectionFailed(e), [detection])
        case Returned(ds) =>
          if Relevant(ds) == [] then
            Response(Original(image), TargetNotFound(TargetLabel), [detection])
          else
            var chosen := MostRelevant(ds);
            var rect := PixelRect(chosen.box);
            var annotated := Annotated(image, rect);
            match classifier
            case None => Response(annotated, ClassifierUnavailable, [detection])
            case Some(classify) =>
              var crop := Crop(image, rect);
              var calls := [detection, Classify(crop)];
              match classify(crop)
              case Raised(e) => Response(annotated, ClassificationFailed(e), calls)
              case Returned(cs) =>
                if cs == [] then Response(annotated, NotClassified(TargetLabel), calls)
                else Response(annotated, Summary(chosen, cs[0].category, cs[0].score), calls)
  }

  /** Until a detection is chosen, the classifier plays no part: the response
      is the same whichever classifier is loaded, or none. */
  lemma ClassifierIrrelevantUntilChosen(input: Option<Image>, detector: Option<Detector>,
                                        c1: Option<Classifier>, c2: Option<Classifier>)
    requires !Selects(input, detector)
    ensures Process(input, detector, c1) == Process(input, detector, c2)
  {
  }

  /** Detections that do not qualify, wherever the detector lists them around
      the others, change nothing in the response. */
  lemma IrrelevantDetectionsChangeNothing(image: Image, d1: Detector, d2: Detector, classifier: Option<Classifier>,
                                          before: seq<Detection>, after: seq<Detection>)
    requires d1(image).Returned?
    requires d2(image) == Returned(before + d1(image).results + after)
    requires forall i :: 0 <= i < |before| ==> !Qualifies(before[i])
    requires forall i :: 0 <= i < |after| ==> !Qualifies(after[i])
    ensures Process(Some(image), Some(d1), classifier) == Process(Some(image), Some(d2), classifier)
  {
    var ds := d1(image).results;
    RelevantMembers(before);
    RelevantMembers(after);
    RelevantAppend(before, ds);
    RelevantAppend(before + ds, after);
    assert Relevant(before + ds + after) == Relevant(ds);
  }

  /** A detector exception is reported with its own text at the end of the
      message, and the upload is shown unchanged. */
  lemma DetectionErrorShown(image: Image, detector: Detector, classifier: Option<Classifier>)
    requires detector(image).Raised?
    ensures var r := Process(Some(image), Some(detector), classifier);
            r.shown == Original(image) && EndsWith(Text(r.message), detector(image).diagnostic)
  {
  }

  /** A worked request: two apples and a banana. The larger apple is outlined
      and cropped as (0, 0, 31, 31), and the classifier's first answer is
      reported beside it (ExampleSummaryText gives the text). */
  lemma SummaryExample(image: Image)
    ensures var detector: Detector := _ => Returned([SmallApple, Banana, LargeApple]);
            var classifier: Classifier := _ => Returned([Classification("ripe", 0.7654), Classification("unripe", 0.2)]);
            var r := Process(Some(image), Some(detector), Some(classifier));
            && r.shown == Annotated(image, Rect(0, 0, 31, 31))
            && r.calls == [Detect(image), Classify(Crop(image, Rect(0, 0, 31, 31)))]
            && r.message == Summary(LargeApple, "ripe", 0.7654)
  {
    ExampleChoice();
  }

  const SmallApple := Detection("apple", 0.9, Box(2.0, 2.0, 12.5, 12.5))
  const LargeApple := Detection("apple", 0.83, Box(0.0, 0.0, 31.0, 31.0))
  const Banana := Detection("banana", 0.99, Box(0.0, 0.0, 100.0, 100.0))

  /** The banana is filtered out and the larger apple wins, though it scores
      lower than the smaller one. */
  lemma ExampleChoice()
    ensures Relevant([SmallApple, Banana, LargeApple]) == [SmallApple, LargeApple]
    ensures MostRelevant([SmallApple, Banana, LargeApple]) == LargeApple
    ensures PixelRect(LargeApple.box) == Rect(0, 0, 31, 31)
  {
    RelevantCons(LargeApple, []);
    RelevantCons(Banana, [LargeApple]);
    assert [Banana] + [LargeApple] == [Banana, LargeApple];
    RelevantCons(SmallApple, [Banana, LargeApple]);
    assert [SmallApple] + [Banana, LargeApple] == [SmallApple, Banana, LargeApple];
    assert LargestIndex([SmallApple, LargeApple]) == 1;
  }

  /** The summary text of the worked request: 0.83, 961 and 0.7654 as
      they are printed. */
  lemma ExampleSummaryText()
    ensures SummaryText(LargeApple, "ripe", 0.7654)
            == ("Objeto detectado (tipo DETR: '" + "apple"
                + "', Confianza detecci\U{F3}n: " + "0.83"
                + ", \U{C1}rea: " + "961" + ").\n\n")
               + ("Clasificado por mobilevit-small como: '" + "ripe"
                  + ("' (Confianza clasificaci\U{F3}n: " + "0.77" + ")."))
  {
    ExampleFigures();
  }

  /** The three figures of the worked request as they are printed. */
  lemma ExampleFigures()
    ensures Formatting.Fixed(LargeApple.score, 2) == "0.83"
    ensures Formatting.Fixed(Area(LargeApple.box), 0) == "961"
    ensures Formatting.Fixed(0.7654, 2) == "0.77"
  {
    Formatting.FixedTwoPlaces();
    assert Area(LargeApple.box) == 961.0;
    Formatting.FixedNoPlaces();
    Formatting.FixedRoundsToNearest();
  }

  /** Equal areas: Python's `max` keeps the first of them, so the earlier
      apple is the one outlined even though the later one scores higher. */
  lemma TieKeepsFirstExample(image: Image, classifier: Option<Classifier>)
    ensures var first := Detection("apple", 0.6, Box(0.0, 0.0, 20.0, 10.0));
            var second := Detection("apple", 0.95, Box(40.0, 40.0, 50.0, 60.0));
            var detector: Detector := _ => Returned([first, second]);
            Process(Some(image), Some(detector), classifier).shown == Annotated(image, Rect(0, 0, 20, 10))
  {
    var first := Detection("apple", 0.6, Box(0.0, 0.0, 20.0, 10.0));
    var second := Detection("apple", 0.95, Box(40.0, 40.0, 50.0, 60.0));
    assert Relevant([first, second]) == [first, second] by {
      RelevantCons(second, []);
      RelevantCons(first, [second]);
      assert [first] + [second] == [first, second];
    }
    assert Area(first.box) == Area(second.box) == 200.0;
    assert LargestIndex([first, second]) == 0;
  }
}
