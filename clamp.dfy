/** `clampToMax`: truncation to at most `max` whole user-perceived
    characters, so a multi-code-point cluster is never cut in half. */
module Clamp {
  import opened Segmentation

  /** What `clampToMax` returns: the text itself when max <= 0, otherwise
      the first min(max, count) segments glued back together. */
  function Clamped(seg: Segmenter, s: Text, max: int): Text
  {
    if max <= 0 then s
    else
      var parts := Segments(seg, s);
      Concat(parts[..Min(max, |parts|)])
  }

  /** The number of segments `clampToMax` keeps. */
  function Kept(seg: Segmenter, s: Text, max: int): nat
  {
    if max <= 0 then GraphemeCount(seg, s) else Min(max, GraphemeCount(seg, s))
  }

  method ClampToMax(seg: Segmenter, str: Text, max: int) returns (out: Text)
    requires SegmenterValid(seg)
    ensures out == Clamped(seg, str, max)
    ensures out <= str
    ensures max <= 0 ==> out == str
    ensures max > 0 ==> GraphemeCount(seg, out) == Min(max, GraphemeCount(seg, str)) <= max
    ensures GraphemeCount(seg, str) <= max ==> out == str
  {
    ClampedFacts(seg, str, max);
    if max <= 0 {
      return str;
    }
    out := [];
    var i := 0;
    match seg {
      case Graphemes(split) =>
        var parts := split(str);
        for j := 0 to |parts|
          invariant i == j <= max
          invariant out == Concat(parts[..i])
        {
          if i >= max {
            break;
          }
          assert parts[..i + 1][..i] == parts[..i];
          out := out + parts[j];
          i := i + 1;
        }
        assert i == Min(max, |parts|);
      case CodePoints =>
        // `Array.from(str).slice(0, max).join('')`
        out := str[..Min(max, |str|)];
        SingletonsPrefix(str, Min(max, |str|));
    }
  }

  /** The kept segments and the dropped ones make up the text: the cut falls
      on a segment boundary. */
  lemma ClampedOnBoundary(seg: Segmenter, s: Text, max: int)
    requires SegmenterValid(seg)
    ensures Kept(seg, s, max) <= GraphemeCount(seg, s)
    ensures Clamped(seg, s, max) == Concat(Segments(seg, s)[..Kept(seg, s, max)])
    ensures Clamped(seg, s, max) + Concat(Segments(seg, s)[Kept(seg, s, max)..]) == s
  {
    var parts := Segments(seg, s);
    SegmentsPartition(seg, s);
    ConcatSplit(parts, Kept(seg, s, max));
    assert parts[..|parts|] == parts;
  }

  /** The clamped text is segmented into exactly the kept segments of the
      original, so it has min(max, count) characters when max > 0. */
  lemma ClampedSegments(seg: Segmenter, s: Text, max: int)
    requires SegmenterValid(seg)
    ensures Segments(seg, Clamped(seg, s, max)) == Segments(seg, s)[..Kept(seg, s, max)]
    ensures GraphemeCount(seg, Clamped(seg, s, max)) == Kept(seg, s, max)
  {
    ClampedOnBoundary(seg, s, max);
    SegmentsPrefixStable(seg, s, Kept(seg, s, max));
  }

  /** The properties `clampToMax` promises: a prefix, at most max characters
      when max > 0, and the text unchanged when it is within the limit. */
  lemma ClampedFacts(seg: Segmenter, s: Text, max: int)
    requires SegmenterValid(seg)
    ensures Clamped(seg, s, max) <= s
    ensures max > 0 ==> GraphemeCount(seg, Clamped(seg, s, max)) == Min(max, GraphemeCount(seg, s)) <= max
    ensures GraphemeCount(seg, s) <= max ==> Clamped(seg, s, max) == s
  {
    ClampedOnBoundary(seg, s, max);
    ClampedSegments(seg, s, max);
    var parts := Segments(seg, s);
    assert parts[..|parts|] == parts;
    SegmentsPartition(seg, s);
  }

  /** Clamping twice with the same limit is clamping once. */
  lemma ClampedIdempotent(seg: Segmenter, s: Text, max: int)
    requires SegmenterValid(seg)
    ensures Clamped(seg, Clamped(seg, s, max), max) == Clamped(seg, s, max)
  {
    ClampedFacts(seg, s, max);
    ClampedFacts(seg, Clamped(seg, s, max), max);
  }

  /** Raising the limit by one keeps at least as much, except from the no-op
      limit 0 to 1: the shorter result is a prefix of the longer one and has
      no more characters. */
  lemma ClampedMonotone(seg: Segmenter, s: Text, n: int)
    requires SegmenterValid(seg)
    requires n != 0
    ensures Clamped(seg, s, n) <= Clamped(seg, s, n + 1)
    ensures GraphemeCount(seg, Clamped(seg, s, n)) <= GraphemeCount(seg, Clamped(seg, s, n + 1))
  {
    ClampedSegments(seg, s, n);
    ClampedSegments(seg, s, n + 1);
    var parts := Segments(seg, s);
    var k, k' := Kept(seg, s, n), Kept(seg, s, n + 1);
    assert parts[..k'][..k] == parts[..k];
    ConcatSplit(parts[..k'], k);
  }

  /** Monotonicity stops at the no-op limit: with two or more characters,
      limit 0 keeps them all and limit 1 keeps one. */
  lemma ClampedNotMonotoneAtZero(seg: Segmenter, s: Text)
    requires SegmenterValid(seg)
    requires GraphemeCount(seg, s) >= 2
    ensures GraphemeCount(seg, Clamped(seg, s, 0)) > GraphemeCount(seg, Clamped(seg, s, 1))
  {
    ClampedSegments(seg, s, 1);
  }

  /** On the fallback path the result is the first max code points. */
  lemma ClampedCodePoints(s: Text, max: int)
    requires max > 0
    ensures Clamped(CodePoints, s, max) == s[..Min(max, |s|)]
  {
    SingletonsPrefix(s, Min(max, |s|));
  }
}
