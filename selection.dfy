/**
 * The pure part of the request handler that decides WHICH detection is drawn
 * and cropped: the relevance filter, the box area, the choice of the largest
 * box (first one on equal areas, as Python's `max` does) and the integer
 * rectangle the drawing and cropping calls receive.
 *
 * Coordinates and scores are `real`: only their order and arithmetic matter
 * here, so a float is represented by its exact value.
 */
module Selection {

  /** An axis-aligned box in pixel coordinates, as the detector reports it. */
  datatype Box = Box(xmin: real, ymin: real, xmax: real, ymax: real)

  /** One record of the detector's output. */
  datatype Detection = Detection(category: string, score: real, box: Box)

  /** The integer corners passed to both the drawing and the cropping call:
      (left, upper, right, lower). */
  datatype Rect = Rect(left: int, top: int, right: int, bottom: int)

  /** The only detector label the handler looks for. */
  const TargetLabel: string := "apple"

  /** A detection must score strictly above this to be relevant. */
  const ScoreThreshold: real := 0.5

  /** The relevance test: the label is exactly "apple" and the score is
      strictly above one half. */
  function Qualifies(d: Detection): (q: bool)
    ensures q <==> d.category == "apple" && d.score > 0.5
  {
    d.category == TargetLabel && d.score > ScoreThreshold
  }

  predicate WellFormed(b: Box) {
    b.xmin <= b.xmax && b.ymin <= b.ymax
  }

  /** The relevant detections: the target label with a score above the
      threshold, kept in the detector's order. */
  function Relevant(ds: seq<Detection>): (r: seq<Detection>)
    ensures forall i :: 0 <= i < |r| ==> Qualifies(r[i])
  {
    if ds == [] then []
    else (if Qualifies(ds[0]) then [ds[0]] else []) + Relevant(ds[1..])
  }

  /** Exactly the qualifying detections are kept; none is kept exactly when
      none qualifies. */
  lemma {:induction false} RelevantMembers(ds: seq<Detection>)
    ensures forall d :: d in Relevant(ds) <==> d in ds && Qualifies(d)
    ensures Relevant(ds) == [] <==> forall i :: 0 <= i < |ds| ==> !Qualifies(ds[i])
  {
    if ds != [] {
      RelevantMembers(ds[1..]);
      assert ds == [ds[0]] + ds[1..];
      assert Qualifies(ds[0]) ==> Relevant(ds) != [];
    }
  }

  /** Filtering distributes over concatenation: together with RelevantCons
      this says the filter keeps the input order. */
  lemma {:induction false} RelevantAppend(a: seq<Detection>, b: seq<Detection>)
    ensures Relevant(a + b) == Relevant(a) + Relevant(b)
  {
    if a == [] {
      assert a + b == b;
    } else {
      var head := if Qualifies(a[0]) then [a[0]] else [];
      assert (a + b)[0] == a[0];
      assert (a + b)[1..] == a[1..] + b;
      RelevantAppend(a[1..], b);
      calc {
        Relevant(a + b);
        head + Relevant(a[1..] + b);
        head + (Relevant(a[1..]) + Relevant(b));
        (head + Relevant(a[1..])) + Relevant(b);
        Relevant(a) + Relevant(b);
      }
    }
  }

  /** A score of exactly the threshold is not enough. */
  lemma ThresholdIsExclusive(ds: seq<Detection>, d: Detection)
    requires d.score == ScoreThreshold
    ensures d !in Relevant(ds)
  {
    RelevantMembers(ds);
  }

  /** Area of a box, as width times height. */
  function Area(b: Box): (a: real)
    ensures WellFormed(b) ==> a >= 0.0
    ensures b.xmin == b.xmax || b.ymin == b.ymax ==> a == 0.0
  {
    (b.xmax - b.xmin) * (b.ymax - b.ymin)
  }

  /** The scan that `max(..., key=...)` performs from position i on, with
      `best` the element kept so far: the kept element is replaced only by one
      whose key is strictly larger. */
  function LargestFrom(ds: seq<Detection>, best: nat, i: nat): (k: nat)
    requires best < i <= |ds|
    requires forall j :: 0 <= j < i ==> Area(ds[j].box) <= Area(ds[best].box)
    requires forall j :: 0 <= j < best ==> Area(ds[j].box) < Area(ds[best].box)
    ensures best <= k < |ds|
    ensures forall j :: 0 <= j < |ds| ==> Area(ds[j].box) <= Area(ds[k].box)
    ensures forall j :: 0 <= j < k ==> Area(ds[j].box) < Area(ds[k].box)
    decreases |ds| - i
  {
    if i == |ds| then best
    else LargestFrom(ds, if Area(ds[best].box) < Area(ds[i].box) then i else best, i + 1)
  }

  /** Index of the detection `max` returns: no box is larger, and every
      detection before it is strictly smaller (ties go to the earliest). */
  function LargestIndex(ds: seq<Detection>): (k: nat)
    requires |ds| > 0
    ensures k < |ds|
    ensures forall j :: 0 <= j < |ds| ==> Area(ds[j].box) <= Area(ds[k].box)
    ensures forall j :: 0 <= j < k ==> Area(ds[j].box) < Area(ds[k].box)
  {
    LargestFrom(ds, 0, 1)
  }

  /** The two properties of LargestIndex determine it: any index with a
      maximal area and only strictly smaller areas before it is that index. */
  lemma LargestIndexIsUnique(ds: seq<Detection>, k: nat)
    requires k < |ds|
    requires forall j :: 0 <= j < |ds| ==> Area(ds[j].box) <= Area(ds[k].box)
    requires forall j :: 0 <= j < k ==> Area(ds[j].box) < Area(ds[k].box)
    ensures k == LargestIndex(ds)
  {
  }

  /** The detection the handler draws and crops: among the relevant ones,
      the first with the largest box. */
  function MostRelevant(ds: seq<Detection>): (d: Detection)
    requires Relevant(ds) != []
    ensures d in ds && Qualifies(d)
    ensures forall e :: e in ds && Qualifies(e) ==> Area(e.box) <= Area(d.box)
  {
    var relevant := Relevant(ds);
    var k := LargestIndex(relevant);
    RelevantMembers(ds);
    assert forall e :: e in relevant ==> exists j :: 0 <= j < |relevant| && relevant[j] == e;
    relevant[k]
  }

  /** The i-th relevant detection sits at some index k of the input, and the
      relevant detections before k are exactly the first i relevant ones. */
  lemma {:induction false} RelevantOrigin(ds: seq<Detection>, i: nat)
    requires i < |Relevant(ds)|
    ensures exists k :: 0 <= k < |ds| && ds[k] == Relevant(ds)[i] && Relevant(ds[..k]) == Relevant(ds)[..i]
  {
    var rest := ds[1..];
    assert ds == [ds[0]] + rest;
    RelevantCons(ds[0], rest);
    if Qualifies(ds[0]) && i == 0 {
      assert ds[..0] == [];
    } else {
      var i' := if Qualifies(ds[0]) then i - 1 else i;
      RelevantOrigin(rest, i');
      var k' :| 0 <= k' < |rest| && rest[k'] == Relevant(rest)[i'] && Relevant(rest[..k']) == Relevant(rest)[..i'];
      OriginStep(ds[0], rest, i', k');
    }
  }

  /** Filtering a list with one more detection in front. */
  lemma RelevantCons(x: Detection, rest: seq<Detection>)
    ensures Relevant([x] + rest) == (if Qualifies(x) then [x] else []) + Relevant(rest)
  {
    assert ([x] + rest)[0] == x;
    assert ([x] + rest)[1..] == rest;
  }

  /** The inductive step of RelevantOrigin: putting x in front moves the
      origin one index to the right and, when x qualifies, the rank too. */
  lemma OriginStep(x: Detection, rest: seq<Detection>, i': nat, k': nat)
    requires k' < |rest| && i' < |Relevant(rest)|
    requires rest[k'] == Relevant(rest)[i'] && Relevant(rest[..k']) == Relevant(rest)[..i']
    ensures var i := if Qualifies(x) then i' + 1 else i';
            && i < |Relevant([x] + rest)|
            && ([x] + rest)[k' + 1] == Relevant([x] + rest)[i]
            && Relevant(([x] + rest)[..k' + 1]) == Relevant([x] + rest)[..i]
  {
    var head := if Qualifies(x) then [x] else [];
    RelevantCons(x, rest);
    assert ([x] + rest)[..k' + 1] == [x] + rest[..k'];
    RelevantCons(x, rest[..k']);
    assert (head + Relevant(rest))[..|head| + i'] == head + Relevant(rest)[..i'];
  }

  /** Python's `max` keeps the first maximal element: in the detector's own
      order, every qualifying detection before the chosen one has a strictly
      smaller box. */
  lemma FirstLargestInInput(ds: seq<Detection>)
    requires Relevant(ds) != []
    ensures exists k :: 0 <= k < |ds| && ds[k] == MostRelevant(ds)
              && forall j :: 0 <= j < k && Qualifies(ds[j]) ==> Area(ds[j].box) < Area(ds[k].box)
  {
    var relevant := Relevant(ds);
    var m := LargestIndex(relevant);
    RelevantOrigin(ds, m);
    var k :| 0 <= k < |ds| && ds[k] == relevant[m] && Relevant(ds[..k]) == relevant[..m];
    forall j | 0 <= j < k && Qualifies(ds[j])
      ensures Area(ds[j].box) < Area(ds[k].box)
    {
      assert ds[j] == ds[..k][j];
      RelevantMembers(ds[..k]);
      assert ds[j] in Relevant(ds[..k]);
      SmallerBefore(relevant, m, ds[j]);
    }
  }

  /** Every element before index m of a list whose m-th element is the one
      LargestIndex picks has a strictly smaller box. */
  lemma SmallerBefore(relevant: seq<Detection>, m: nat, x: Detection)
    requires relevant != [] && m == LargestIndex(relevant)
    requires x in relevant[..m]
    ensures Area(x.box) < Area(relevant[m].box)
  {
    var prefix := relevant[..m];
    var i :| 0 <= i < |prefix| && prefix[i] == x;
    assert relevant[i] == x;
  }

  /** Python's `int()` on a float: truncation toward zero. */
  function Trunc(x: real): (n: int)
    ensures 0.0 <= x ==> n as real <= x < n as real + 1.0
    ensures x < 0.0 ==> n as real - 1.0 < x <= n as real
  {
    if x >= 0.0 then x.Floor else -((-x).Floor)
  }

  /** Truncation toward zero never reverses the order of two coordinates. */
  lemma TruncMonotone(x: real, y: real)
    requires x <= y
    ensures Trunc(x) <= Trunc(y)
  {
  }

  /** The integer rectangle of a box: every corner truncated toward zero. A
      well-formed box gives a well-formed rectangle, each edge within one
      pixel of the reported coordinate. */
  function PixelRect(b: Box): (r: Rect)
    ensures WellFormed(b) ==> r.left <= r.right && r.top <= r.bottom
    ensures -1.0 < r.left as real - b.xmin < 1.0 && -1.0 < r.top as real - b.ymin < 1.0
    ensures -1.0 < r.right as real - b.xmax < 1.0 && -1.0 < r.bottom as real - b.ymax < 1.0
  {
    Rect(Trunc(b.xmin), Trunc(b.ymin), Trunc(b.xmax), Trunc(b.ymax))
  }
}
