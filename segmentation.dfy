/** Text and its segmentation into user-perceived characters.

    Text is a Dafny `string`: a sequence of `char`, and a Dafny `char` is a
    Unicode scalar value, so a string here is exactly a sequence of code points.

    The widget picks one segmentation capability at start-up: the platform's
    grapheme segmenter when it exists, otherwise one code point per segment.
    The grapheme segmenter is an outside library; the model keeps only the
    two facts the counting and clamping logic relies on (see `IsSegmentation`). */
module Segmentation {

  type Text = string

  function Min(a: int, b: int): int
  {
    if a <= b then a else b
  }

  /** The parts glued together in order, as `out += part` builds them. */
  function Concat(parts: seq<Text>): Text
  {
    if parts == [] then [] else Concat(parts[..|parts| - 1]) + parts[|parts| - 1]
  }

  lemma {:induction false} ConcatAppend(a: seq<Text>, b: seq<Text>)
    ensures Concat(a + b) == Concat(a) + Concat(b)
  {
    if b == [] {
      assert a + b == a;
    } else {
      var b' := b[..|b| - 1];
      assert (a + b)[..|a + b| - 1] == a + b';
      ConcatAppend(a, b');
    }
  }

  /** Cutting the parts at index k cuts their concatenation in two. */
  lemma ConcatSplit(parts: seq<Text>, k: nat)
    requires k <= |parts|
    ensures Concat(parts[..k]) + Concat(parts[k..]) == Concat(parts)
  {
    ConcatAppend(parts[..k], parts[k..]);
    assert parts[..k] + parts[k..] == parts;
  }

  predicate NonEmptyParts(parts: seq<Text>)
  {
    forall i :: 0 <= i < |parts| ==> parts[i] != []
  }

  /** `parts` are non-empty pieces that make up `t` exactly. */
  predicate IsPartition(parts: seq<Text>, t: Text)
  {
    NonEmptyParts(parts) && Concat(parts) == t
  }

  /** Non-empty pieces are at least as many code points as pieces. */
  lemma {:induction false} ConcatLength(parts: seq<Text>)
    requires NonEmptyParts(parts)
    ensures |Concat(parts)| >= |parts|
    ensures |parts| > 0 ==> |Concat(parts)| > 0
  {
    if parts != [] {
      ConcatLength(parts[..|parts| - 1]);
    }
  }

  /** A partition has no more parts than code points, and none exactly when
      the text is empty. */
  lemma PartitionCount(parts: seq<Text>, t: Text)
    requires IsPartition(parts, t)
    ensures |parts| <= |t|
    ensures |parts| == 0 <==> t == []
  {
    ConcatLength(parts);
  }

  /** Segmenting the text made of the first k segments of t gives back those
      k segments. */
  predicate PrefixStable(split: Text -> seq<Text>, t: Text, k: nat)
  {
    k <= |split(t)| ==> split(Concat(split(t)[..k])) == split(t)[..k]
  }

  /** What the model demands of a segmenter: every text is cut into non-empty
      pieces that make it up exactly, and a text cut at a segment boundary is
      segmented as before.  The boundary rules of Unicode Standard Annex #29,
      section 3, decide each boundary from the text before it and the one code
      point after it, and the end of text is always a boundary, so the
      grapheme segmenter has both properties. */
  ghost predicate IsSegmentation(split: Text -> seq<Text>)
  {
    && (forall t :: IsPartition(split(t), t))
    && (forall t, k: nat :: PrefixStable(split, t, k))
  }

  /** `Array.from(str)`: each code point as a string of its own. */
  function Singletons(t: Text): (r: seq<Text>)
    ensures |r| == |t|
  {
    seq(|t|, i requires 0 <= i < |t| => [t[i]])
  }

  lemma {:induction false} ConcatSingletons(t: Text)
    ensures Concat(Singletons(t)) == t
  {
    if t != [] {
      var t' := t[..|t| - 1];
      assert Singletons(t)[..|t| - 1] == Singletons(t');
      ConcatSingletons(t');
      assert t == t' + [t[|t| - 1]];
    }
  }

  /** The first k singleton segments glue back to the first k code points. */
  lemma SingletonsPrefix(t: Text, k: nat)
    requires k <= |t|
    ensures Singletons(t)[..k] == Singletons(t[..k])
    ensures Concat(Singletons(t)[..k]) == t[..k]
  {
    assert Singletons(t)[..k] == Singletons(t[..k]);
    ConcatSingletons(t[..k]);
  }

  /** The code-point fallback is itself a segmentation in the model's sense. */
  lemma SingletonsIsSegmentation()
    ensures IsSegmentation(Singletons)
  {
    forall t
      ensures IsPartition(Singletons(t), t)
    {
      ConcatSingletons(t);
    }
    forall t, k: nat
      ensures PrefixStable(Singletons, t, k)
    {
      if k <= |t| {
        SingletonsPrefix(t, k);
        assert Singletons(Concat(Singletons(t)[..k])) == Singletons(t[..k]);
      }
    }
  }

  /** The segmentation facility found at start-up: the platform's grapheme
      segmenter, or none, in which case code points stand in for clusters. */
  datatype Segmenter = Graphemes(split: Text -> seq<Text>) | CodePoints

  ghost predicate SegmenterValid(seg: Segmenter)
  {
    seg.Graphemes? ==> IsSegmentation(seg.split)
  }

  /** The segments a segmenter yields for t, in order. */
  function Segments(seg: Segmenter, t: Text): seq<Text>
  {
    match seg
    case Graphemes(split) => split(t)
    case CodePoints => Singletons(t)
  }

  /** The number of user-perceived characters of t under seg. */
  function GraphemeCount(seg: Segmenter, t: Text): (n: nat)
    ensures seg.CodePoints? ==> n == |t|
  {
    |Segments(seg, t)|
  }

  lemma SegmentsPartition(seg: Segmenter, t: Text)
    requires SegmenterValid(seg)
    ensures IsPartition(Segments(seg, t), t)
    ensures GraphemeCount(seg, t) <= |t|
    ensures GraphemeCount(seg, t) == 0 <==> t == []
  {
    if seg.CodePoints? {
      SingletonsIsSegmentation();
    }
    assert IsPartition(Segments(seg, t), t);
    PartitionCount(Segments(seg, t), t);
  }

  lemma SegmentsPrefixStable(seg: Segmenter, t: Text, k: nat)
    requires SegmenterValid(seg)
    requires k <= GraphemeCount(seg, t)
    ensures Segments(seg, Concat(Segments(seg, t)[..k])) == Segments(seg, t)[..k]
  {
    if seg.CodePoints? {
      SingletonsIsSegmentation();
    }
    var split := if seg.Graphemes? then seg.split else Singletons;
    assert PrefixStable(split, t, k);
  }
}
