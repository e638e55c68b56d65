/**
 * The text the handler shows beside the image. Each outcome of the handler
 * has its own kind of message; the kind carries the values the text embeds.
 * The wording is the handler's own, in Spanish.
 */
module Messages {
  import opened Selection
  import opened Formatting

  datatype Message =
    | UploadPrompt                                 // no image was uploaded
    | DetectorUnavailable                          // the detector failed to load
    | DetectionFailed(diagnostic: string)          // the detection step raised
    | TargetNotFound(target: string)               // nothing relevant was detected
    | ClassifierUnavailable                        // the classifier failed to load
    | ClassificationFailed(diagnostic: string)     // the classifier call raised
    | NotClassified(target: string)                // the classifier returned nothing
    | Summary(detected: Detection, predicted: string, confidence: real)

  predicate EndsWith(s: string, suffix: string) {
    |suffix| <= |s| && s[|s| - |suffix|..] == suffix
  }

  predicate SameKind(m1: Message, m2: Message) {
    match (m1, m2)
    case (UploadPrompt, UploadPrompt) => true
    case (DetectorUnavailable, DetectorUnavailable) => true
    case (DetectionFailed(_), DetectionFailed(_)) => true
    case (TargetNotFound(_), TargetNotFound(_)) => true
    case (ClassifierUnavailable, ClassifierUnavailable) => true
    case (ClassificationFailed(_), ClassificationFailed(_)) => true
    case (NotClassified(_), NotClassified(_)) => true
    case (Summary(_, _, _), Summary(_, _, _)) => true
    case _ => false
  }

  /** The displayed text of a message. It is never empty, and an exception's
      diagnostic is shown verbatim at its end. */
  function Text(m: Message): (t: string)
    ensures |t| > 0
    ensures m.DetectionFailed? || m.ClassificationFailed? ==> EndsWith(t, m.diagnostic)
  {
    match m
    case UploadPrompt =>
      "Por favor, sube una imagen."
    case DetectorUnavailable =>
      "Error: el modelo de detecci\U{F3}n de objetos no pudo cargarse."
    case DetectionFailed(e) =>
      "Ocurri\U{F3} un error durante la detecci\U{F3}n de objetos: " + e
    case TargetNotFound(target) =>
      "No se detectaron objetos de tipo '" + target
      + "' en la imagen con suficiente confianza."
    case ClassifierUnavailable =>
      "Error: el modelo de clasificaci\U{F3}n no pudo cargarse."
    case ClassificationFailed(e) =>
      "Ocurri\U{F3} un error durante la clasificaci\U{F3}n del objeto detectado: " + e
    case NotClassified(target) =>
      "Objeto detectado de tipo '" + target
      + "', pero el modelo de clasificaci\U{F3}n no pudo clasificarlo."
    case Summary(d, predicted, confidence) =>
      SummaryText(d, predicted, confidence)
  }

  /** The success summary: the detector's label, score (two decimals) and box
      area (no decimals), a blank line, then the classifier's label and score
      (two decimals). It opens with the detector's label and closes with the
      classifier's confidence. */
  function SummaryText(d: Detection, predicted: string, confidence: real): (t: string)
    ensures "Objeto detectado (tipo DETR: '" + d.category <= t
    ensures EndsWith(t, "' (Confianza clasificaci\U{F3}n: " + Fixed(confidence, 2) + ").")
  {
    var opening := "Objeto detectado (tipo DETR: '" + d.category;
    var detected := opening + "', Confianza detecci\U{F3}n: " + Fixed(d.score, 2)
                    + ", \U{C1}rea: " + Fixed(Area(d.box), 0) + ").\n\n";
    var closing := "' (Confianza clasificaci\U{F3}n: " + Fixed(confidence, 2) + ").";
    var classified := "Clasificado por mobilevit-small como: '" + predicted + closing;
    assert classified == ("Clasificado por mobilevit-small como: '" + predicted) + closing;
    PrefixOfConcat(opening, detected[|opening|..]);
    assert detected == opening + detected[|opening|..];
    detected + classified
  }

  /** A string is a prefix of itself followed by anything. */
  lemma PrefixOfConcat(a: string, b: string)
    ensures a <= a + b
  {
    assert (a + b)[..|a|] == a;
  }

  /** The fixed opening of each kind of text. No two kinds share an opening
      and no opening is a prefix of another's (TextsTellOutcomesApart). */
  function Lead(m: Message): string
  {
    match m
    case UploadPrompt => "P"
    case DetectorUnavailable => "Error: el modelo de d"
    case DetectionFailed(_) => "Ocurri\U{F3} un error durante la d"
    case TargetNotFound(_) => "N"
    case ClassifierUnavailable => "Error: el modelo de c"
    case ClassificationFailed(_) => "Ocurri\U{F3} un error durante la c"
    case NotClassified(_) => "Objeto detectado d"
    case Summary(_, _, _) => "Objeto detectado ("
  }

  /** Every text opens with the lead of its kind. */
  lemma LeadOpensText(m: Message)
    ensures Lead(m) <= Text(m)
  {
    match m
    case UploadPrompt =>
      assert "P" <= "Por favor, sube una imagen.";
    case TargetNotFound(target) =>
      var opening := "No se detectaron objetos de tipo '";
      PrefixThrough("N", opening, target);
      PrefixThrough("N", opening + target, "' en la imagen con suficiente confianza.");
    case DetectorUnavailable => ErrorLeads(m);
    case ClassifierUnavailable => ErrorLeads(m);
    case DetectionFailed(_) => ExceptionLeads(m);
    case ClassificationFailed(_) => ExceptionLeads(m);
    case NotClassified(target) =>
      var opening := "Objeto detectado de tipo '";
      assert "Objeto detectado d" <= opening;
      PrefixThrough("Objeto detectado d", opening, target);
      PrefixThrough("Objeto detectado d", opening + target,
                    "', pero el modelo de clasificaci\U{F3}n no pudo clasificarlo.");
    case Summary(d, predicted, confidence) =>
      SummaryLead(d, predicted, confidence);
  }

  /** The leads of the two texts for a model that failed to load. */
  lemma ErrorLeads(m: Message)
    requires m.DetectorUnavailable? || m.ClassifierUnavailable?
    ensures Lead(m) <= Text(m)
  {
    if m.DetectorUnavailable? {
      assert "Error: el modelo de d" <= "Error: el modelo de detecci\U{F3}n de objetos no pudo cargarse.";
    } else {
      assert "Error: el modelo de c" <= "Error: el modelo de clasificaci\U{F3}n no pudo cargarse.";
    }
  }

  /** The leads of the two texts for a model call that raised. */
  lemma ExceptionLeads(m: Message)
    requires m.DetectionFailed? || m.ClassificationFailed?
    ensures Lead(m) <= Text(m)
  {
    if m.DetectionFailed? {
      var opening := "Ocurri\U{F3} un error durante la detecci\U{F3}n de objetos: ";
      assert "Ocurri\U{F3} un error durante la d" <= opening;
      PrefixThrough("Ocurri\U{F3} un error durante la d", opening, m.diagnostic);
    } else {
      var opening := "Ocurri\U{F3} un error durante la clasificaci\U{F3}n del objeto detectado: ";
      assert "Ocurri\U{F3} un error durante la c" <= opening;
      PrefixThrough("Ocurri\U{F3} un error durante la c", opening, m.diagnostic);
    }
  }

  /** A prefix of a string is a prefix of that string followed by anything. */
  lemma PrefixThrough(lead: string, opening: string, rest: string)
    requires lead <= opening
    ensures lead <= opening + rest
  {
    assert (opening + rest)[..|opening|] == opening;
  }

  lemma SummaryLead(d: Detection, predicted: string, confidence: real)
    ensures "Objeto detectado (" <= SummaryText(d, predicted, confidence)
  {
    var t := SummaryText(d, predicted, confidence);
    var opening := "Objeto detectado (tipo DETR: '";
    assert "Objeto detectado (" <= opening;
    PrefixThrough("Objeto detectado (", opening, d.category);
    assert opening + d.category == t[..|opening + d.category|];
  }

  /** Texts opening with leads neither of which extends the other are
      different texts. */
  lemma DistinctOpenings(a: string, b: string, t1: string, t2: string)
    requires a <= t1 && b <= t2
    requires !(a <= b) && !(b <= a)
    ensures t1 != t2
  {
  }

  /** The outcome can be read off the text: messages of different kinds
      never show the same text, whatever diagnostics or labels they carry. */
  lemma TextsTellOutcomesApart(m1: Message, m2: Message)
    requires !SameKind(m1, m2)
    ensures Text(m1) != Text(m2)
  {
    LeadOpensText(m1);
    LeadOpensText(m2);
    LeadsDiffer(m1, m2);
    DistinctOpenings(Lead(m1), Lead(m2), Text(m1), Text(m2));
  }

  /** The leads of two different kinds disagree at some position both
      reach: the first letter, or the one after "Objeto detectado ",
      "Error: el modelo de " or "Ocurri\U{F3} un error durante la ". */
  lemma LeadsDiffer(m1: Message, m2: Message)
    requires !SameKind(m1, m2)
    ensures !(Lead(m1) <= Lead(m2)) && !(Lead(m2) <= Lead(m1))
  {
    var a, b := Lead(m1), Lead(m2);
    if a[0] != b[0] {
      DifferAt(a, b, 0);
    } else if a[1] != b[1] {
      DifferAt(a, b, 1);
    } else if a[0] == 'O' && a[1] == 'b' {
      DifferAt(a, b, 17);
    } else if a[0] == 'E' {
      DifferAt(a, b, 20);
    } else {
      DifferAt(a, b, 28);
    }
  }

  /** Strings that differ at a position both reach are not prefixes of one
      another. */
  lemma DifferAt(a: string, b: string, k: nat)
    requires k < |a| && k < |b| && a[k] != b[k]
    ensures !(a <= b) && !(b <= a)
  {
  }
}
