/** src/ocr_engine.py: reading a line of capital letters. The contours
    OpenCV finds in the thresholded image are ordered left to right by their
    bounding boxes, the boxes that are too small are dropped as noise, and
    each remaining letter is classified by the network and appended to the
    text. OpenCV (reading, thresholding, finding contours, bounding boxes,
    cropping) and the network are parameters: `box` gives a contour's
    bounding rectangle and `predict` the network's scores for it. */
module OcrEngine {
  import opened Common

  /** `word_dict`: class i of the network is the letter chr(65 + i). */
  const WordDict: map<nat, char> := map i: nat | i < 26 :: (65 + i) as char

  /** The indices 0..n-1. */
  function Range(n: nat): (r: set<nat>)
    ensures forall i: nat :: i in r <==> i < n
    ensures |r| == n
  {
    if n == 0 then {}
    else
      assert n - 1 !in Range(n - 1);
      Range(n - 1) + {n - 1}
  }

  /** `word_dict` has exactly the 26 keys 0..25, maps them onto 'A'..'Z' in
      order, and no two keys share a letter. */
  lemma WordDictAlphabet()
    ensures WordDict.Keys == Range(26)
    ensures |WordDict| == 26
    ensures forall i :: i in WordDict ==> 'A' <= WordDict[i] <= 'Z' && WordDict[i] as int == 65 + i
    ensures forall i, j :: i in WordDict && j in WordDict && WordDict[i] == WordDict[j] ==> i == j
    ensures WordDict[0] == 'A' && WordDict[25] == 'Z'
  {
    forall i: nat
      ensures i in WordDict <==> i < 26
      ensures i in WordDict ==> WordDict[i] as int == 65 + i
    {
    }
    assert WordDict.Keys == Range(26);
  }

  /** `cv2.boundingRect`: corner, width and height. */
  datatype Box = Box(x: int, y: int, w: int, h: int)

  predicate SortedByX<C>(s: seq<C>, box: C -> Box)
  {
    forall i, j :: 0 <= i < j < |s| ==> box(s[i]).x <= box(s[j]).x
  }

  /** The contours whose box starts at column `k`. */
  function AtX<C>(box: C -> Box, k: int): C -> bool
  {
    c => box(c).x == k
  }

  /** Puts `c` in front of the first element whose box starts at or right of
      its own. */
  function Insert<C>(c: C, t: seq<C>, box: C -> Box): (r: seq<C>)
    ensures |r| == |t| + 1
    ensures multiset(r) == multiset(t) + multiset{c}
  {
    if t == [] then [c]
    else if box(c).x <= box(t[0]).x then [c] + t
    else
      assert t == [t[0]] + t[1..];
      [t[0]] + Insert(c, t[1..], box)
  }

  /** Inserting into a sorted sequence keeps it sorted. */
  lemma {:induction false} InsertSorted<C>(c: C, t: seq<C>, box: C -> Box)
    requires SortedByX(t, box)
    ensures SortedByX(Insert(c, t, box), box)
  {
    if t != [] && box(c).x > box(t[0]).x {
      var rest := Insert(c, t[1..], box);
      InsertSorted(c, t[1..], box);
      InsertAbove(c, t[1..], box, box(t[0]).x);
      var r := [t[0]] + rest;
      forall i, j | 0 <= i < j < |r|
        ensures box(r[i]).x <= box(r[j]).x
      {
        if i == 0 {
          assert r[j] == rest[j - 1];
        } else {
          assert r[i] == rest[i - 1] && r[j] == rest[j - 1];
        }
      }
    }
  }

  /** Inserting an element at or right of column `b` among elements at or
      right of `b` leaves them all there. */
  lemma {:induction false} InsertAbove<C>(c: C, t: seq<C>, box: C -> Box, b: int)
    requires b <= box(c).x
    requires forall i :: 0 <= i < |t| ==> b <= box(t[i]).x
    ensures forall i :: 0 <= i < |t| + 1 ==> b <= box(Insert(c, t, box)[i]).x
  {
    if t != [] && box(c).x > box(t[0]).x {
      InsertAbove(c, t[1..], box, b);
      var rest := Insert(c, t[1..], box);
      assert forall i :: 1 <= i < |t| + 1 ==> Insert(c, t, box)[i] == rest[i - 1];
    }
  }

  /** Among the contours of one column, `c` lands in front of those already
      in `t`. */
  lemma {:induction false} InsertKeepsColumn<C>(c: C, t: seq<C>, box: C -> Box, k: int)
    ensures Filter(Insert(c, t, box), AtX(box, k)) ==
            (if box(c).x == k then [c] else []) + Filter(t, AtX(box, k))
  {
    var p := AtX(box, k);
    if t == [] {
    } else if box(c).x <= box(t[0]).x {
      assert ([c] + t)[1..] == t;
    } else {
      var rest := Insert(c, t[1..], box);
      InsertKeepsColumn(c, t[1..], box, k);
      assert ([t[0]] + rest)[1..] == rest;
      assert !p(c) || !p(t[0]);
    }
  }

  /** `sort_contours`: Python's stable `sorted` on the box's x. Unpacking
      `zip(*[])` raises on an empty list, so the caller only sorts a
      non-empty one. */
  function SortContours<C>(cnts: seq<C>, box: C -> Box): (r: seq<C>)
    requires |cnts| > 0
    ensures |r| == |cnts|
    ensures multiset(r) == multiset(cnts)
    ensures SortedByX(r, box)
  {
    if |cnts| == 1 then cnts
    else
      assert cnts == [cnts[0]] + cnts[1..];
      InsertSorted(cnts[0], SortContours(cnts[1..], box), box);
      Insert(cnts[0], SortContours(cnts[1..], box), box)
  }

  /** Stability: the contours of any one column leave the sort in the order
      they entered it. */
  lemma {:induction false} SortContoursStable<C>(cnts: seq<C>, box: C -> Box, k: int)
    requires |cnts| > 0
    ensures Filter(SortContours(cnts, box), AtX(box, k)) == Filter(cnts, AtX(box, k))
  {
    if |cnts| > 1 {
      SortContoursStable(cnts[1..], box, k);
      InsertKeepsColumn(cnts[0], SortContours(cnts[1..], box), box, k);
    }
  }

  /** The noise filter of line 51: both sides strictly above 10 pixels. */
  function Accepted<C>(box: C -> Box): C -> bool
  {
    c => box(c).w > 10 && box(c).h > 10
  }

  /** The letter `word_dict[np.argmax(prediction)]`; None where argmax
      raises (no scores) or the index has no letter (KeyError). */
  function LetterOf(scores: seq<real>): (r: Option<char>)
    ensures r.Some? <==> |scores| > 0 && ArgMax(scores) < 26
    ensures r.Some? ==> 'A' <= r.value <= 'Z' && r.value as int == 65 + ArgMax(scores)
  {
    if |scores| == 0 then None
    else if ArgMax(scores) in WordDict then Some(WordDict[ArgMax(scores)])
    else None
  }

  /** What `predict_image` ends with: no image, a failed prediction, or the
      text it read. */
  datatype Reading = ImageMissing | PredictionFailed | Read(text: string)

  /** The text the loop of lines 46-71 accumulates over `cs`. */
  function TextOf<C>(cs: seq<C>, box: C -> Box, predict: C -> seq<real>): (r: Reading)
    ensures !r.ImageMissing?
  {
    if cs == [] then Read("")
    else
      match TextOf(cs[..|cs| - 1], box, predict)
      case Read(t) =>
        var c := cs[|cs| - 1];
        if !Accepted(box)(c) then Read(t)
        else if LetterOf(predict(c)).None? then PredictionFailed
        else Read(t + [LetterOf(predict(c)).value])
      case other => other
  }

  /** The reading succeeds exactly when every accepted contour gets a
      letter, and then the text holds one letter per accepted contour, in
      the order of `cs`. */
  lemma {:induction false} TextOfAccepted<C>(cs: seq<C>, box: C -> Box, predict: C -> seq<real>)
    ensures var acc := Filter(cs, Accepted(box));
      && (TextOf(cs, box, predict).Read? <==> forall j :: 0 <= j < |acc| ==> LetterOf(predict(acc[j])).Some?)
      && (TextOf(cs, box, predict).Read? ==>
            var t := TextOf(cs, box, predict).text;
            |t| == |acc| && forall j :: 0 <= j < |acc| ==> t[j] == LetterOf(predict(acc[j])).value)
  {
    if cs != [] {
      var front, c := cs[..|cs| - 1], cs[|cs| - 1];
      assert cs == front + [c];
      TextOfAccepted(front, box, predict);
      FilterSnoc(front, c, Accepted(box));
      var p := Accepted(box);
      var accFront := Filter(front, p);
      var acc := Filter(cs, p);
      if p(c) {
        assert acc == accFront + [c];
        assert forall j :: 0 <= j < |accFront| ==> acc[j] == accFront[j];
        assert acc[|accFront|] == c;
        if !TextOf(front, box, predict).Read? {
          var j :| 0 <= j < |accFront| && LetterOf(predict(accFront[j])).None?;
          assert LetterOf(predict(acc[j])).None?;
        } else if LetterOf(predict(c)).None? {
          assert LetterOf(predict(acc[|accFront|])).None?;
        }
      } else {
        assert acc == accFront;
      }
    }
  }

  /** Once a prediction failed, the exception ends the whole reading. */
  lemma {:induction false} FailureEndsReading<C>(cs: seq<C>, i: nat, box: C -> Box, predict: C -> seq<real>)
    requires i <= |cs|
    requires TextOf(cs[..i], box, predict) == PredictionFailed
    ensures TextOf(cs, box, predict) == PredictionFailed
  {
    if i < |cs| {
      var front := cs[..|cs| - 1];
      assert front[..i] == cs[..i];
      FailureEndsReading(front, i, box, predict);
    } else {
      assert cs[..i] == cs;
    }
  }

  /** The contours as the loop visits them: sorted when there are any. */
  function Ordered<C>(contours: seq<C>, box: C -> Box): seq<C>
  {
    if |contours| > 0 then SortContours(contours, box) else contours
  }

  /** The part of `predict_image` from line 41 to 71. `found` is None when
      `cv2.imread` gave no image, else the contours OpenCV found. */
  method PredictImage<C>(found: Option<seq<C>>, box: C -> Box, predict: C -> seq<real>) returns (r: Reading)
    ensures r == ImageMissing <==> found.None?
    ensures found.Some? ==> r == TextOf(Ordered(found.value, box), box, predict)
  {
    if found.None? {
      return ImageMissing;
    }
    var contours := found.value;
    if |contours| > 0 {
      contours := SortContours(contours, box);
    }
    var fullText := "";
    var i := 0;
    while i < |contours|
      invariant 0 <= i <= |contours|
      invariant TextOf(contours[..i], box, predict) == Read(fullText)
    {
      var b := box(contours[i]);
      assert contours[..i + 1][..i] == contours[..i];
      if b.w > 10 && b.h > 10 {
        var scores := predict(contours[i]);
        if |scores| == 0 || ArgMax(scores) !in WordDict {
          FailureEndsReading(contours, i + 1, box, predict);
          return PredictionFailed;
        }
        var lettre := WordDict[ArgMax(scores)];
        fullText := fullText + [lettre];
      }
      i := i + 1;
    }
    assert contours[..i] == contours;
    r := Read(fullText);
  }

  /** The letters read come from the accepted contours taken left to right:
      their boxes' x never decreases along the text. */
  lemma AcceptedLeftToRight<C>(contours: seq<C>, box: C -> Box)
    requires |contours| > 0
    ensures SortedByX(Filter(SortContours(contours, box), Accepted(box)), box)
  {
    FilterKeepsSorted(SortContours(contours, box), Accepted(box), box);
  }

  lemma {:induction false} FilterKeepsSorted<C>(s: seq<C>, p: C -> bool, box: C -> Box)
    requires SortedByX(s, box)
    ensures SortedByX(Filter(s, p), box)
  {
    if s != [] {
      FilterKeepsSorted(s[1..], p, box);
      assert forall y :: y in Filter(s[1..], p) ==> box(s[0]).x <= box(y).x;
    }
  }
}
