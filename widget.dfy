/** The integer logic of `updateStats` and the hard limit of
    `handleInput`, over a small class holding the input controls' state. */
module Widget {
  import opened Segmentation
  import opened Counting
  import opened Clamp

  /** The text of the usage label: "used / max", or "count chars" without a limit. */
  datatype UsedLabel = UsedOfMax(used: nat, max: nat) | CharsOnly(count: nat)

  /** The text of the remaining label: "n left", "n over" or "No limit". */
  datatype RemainingLabel = Left(n: nat) | Over(n: nat) | NoLimit

  /** The progress values shown beside the counters; `overflow` selects the
      danger colouring of the bar. */
  datatype Progress = Progress(used: nat, remaining: int, usedLabel: UsedLabel,
                               remainingLabel: RemainingLabel, overflow: bool)

  /** Progress for `count` characters against the limit `max` (0 is no limit). */
  function ProgressFor(count: nat, max: nat): (g: Progress)
    ensures max == 0 ==> g.used == count && g.remaining == 0 && !g.overflow
    ensures max == 0 ==> g.usedLabel == CharsOnly(count) && g.remainingLabel == NoLimit
    ensures max > 0 ==> g.used <= max && g.used <= count && (g.used == count <==> count <= max)
    ensures max > 0 ==> (g.used == count || g.used == max)
    ensures max > 0 ==> g.usedLabel == UsedOfMax(g.used, max) && g.remaining + count == max
    ensures max > 0 ==> (g.overflow <==> g.remaining < 0)
    ensures g.overflow <==> max > 0 && count > max
    ensures g.remainingLabel.Over? <==> g.overflow
    ensures g.remainingLabel.Over? ==> g.remainingLabel.n == count - max
    ensures g.remainingLabel.Left? ==> g.used + g.remainingLabel.n == max
    ensures max > 0 && count <= max ==> g.remainingLabel == Left(max - count)
  {
    var used := if max != 0 then Min(count, max) else count;
    var remaining := if max != 0 then max - count else 0;
    Progress(used,
             remaining,
             if max != 0 then UsedOfMax(used, max) else CharsOnly(count),
             if max != 0 then (if remaining >= 0 then Left(remaining) else Over(-remaining)) else NoLimit,
             max != 0 && count > max)
  }

  /** Everything `updateStats` shows for a text. */
  datatype Stats = Stats(chars: nat, words: nat, lines: nat, bytes: nat, progress: Progress)

  function StatsOf(seg: Segmenter, letterOrNumber: char -> bool, raw: Text, max: nat): Stats
  {
    var count := GraphemeCount(seg, raw);
    Stats(count, CountWords(letterOrNumber, raw), CountLines(raw), Utf8Bytes(raw), ProgressFor(count, max))
  }

  /** The text after the hard-limit step of `handleInput`: clamped only when
      the limit is on, positive and exceeded. */
  function HardLimited(seg: Segmenter, s: Text, max: nat, on: bool): Text
  {
    if on && max > 0 && GraphemeCount(seg, s) > max then Clamped(seg, s, max) else s
  }

  /** The hard limit leaves at most max characters and only shortens; a
      text over the limit keeps exactly max. */
  lemma HardLimitedBound(seg: Segmenter, s: Text, max: nat, on: bool)
    requires SegmenterValid(seg)
    ensures HardLimited(seg, s, max, on) <= s
    ensures on && max > 0 ==> GraphemeCount(seg, HardLimited(seg, s, max, on)) <= max
    ensures on && max > 0 && GraphemeCount(seg, s) > max ==> GraphemeCount(seg, HardLimited(seg, s, max, on)) == max
  {
    ClampedFacts(seg, s, max);
  }

  /** Text within the limit, or with the limit off or zero, is untouched;
      the count test before clamping could be dropped without changing the result. */
  lemma HardLimitedKeeps(seg: Segmenter, s: Text, max: nat, on: bool)
    requires SegmenterValid(seg)
    ensures !on || max == 0 || GraphemeCount(seg, s) <= max ==> HardLimited(seg, s, max, on) == s
    ensures HardLimited(seg, s, max, on) == if on then Clamped(seg, s, max) else s
  {
    ClampedFacts(seg, s, max);
  }

  /** A second input event with the same settings changes nothing. */
  lemma HardLimitedIdempotent(seg: Segmenter, s: Text, max: nat, on: bool)
    requires SegmenterValid(seg)
    ensures HardLimited(seg, HardLimited(seg, s, max, on), max, on) == HardLimited(seg, s, max, on)
  {
    HardLimitedBound(seg, s, max, on);
    HardLimitedKeeps(seg, HardLimited(seg, s, max, on), max, on);
  }

  /** The widget's state: the segmenter chosen at start-up, the letter and
      number test of the word class, the text area's value, the maximum
      length (already normalised to a non-negative integer) and the hard
      limit checkbox. */
  class Editor {
    const seg: Segmenter
    const letterOrNumber: char -> bool
    var value: Text
    var maxLen: nat
    var hardLimit: bool

    /** The segmenter chosen at start-up is a segmentation in the model's sense. */
    ghost predicate Valid()
    {
      SegmenterValid(seg)
    }

    constructor (seg: Segmenter, letterOrNumber: char -> bool, value: Text, maxLen: nat, hardLimit: bool)
      requires SegmenterValid(seg)
      ensures Valid()
      ensures this.seg == seg && this.letterOrNumber == letterOrNumber
      ensures this.value == value && this.maxLen == maxLen && this.hardLimit == hardLimit
    {
      this.seg := seg;
      this.letterOrNumber := letterOrNumber;
      this.value := value;
      this.maxLen := maxLen;
      this.hardLimit := hardLimit;
    }

    /** `updateStats`: the four counters and the progress values of the
        current text.  There are never more characters than code points nor
        more code points than bytes. */
    method UpdateStats() returns (st: Stats)
      requires Valid()
      ensures st == StatsOf(seg, letterOrNumber, value, maxLen)
      ensures st.chars <= |value| <= st.bytes <= 4 * |value|
      ensures st.lines >= 1
      ensures st.chars == 0 <==> value == []
    {
      var charCount := CountGraphemes(seg, value);
      var wordCount := CountWords(letterOrNumber, value);
      var lineCount := CountLines(value);
      var byteCount := Utf8Bytes(value);
      st := Stats(charCount, wordCount, lineCount, byteCount, ProgressFor(charCount, maxLen));
    }

    /** `handleInput`: with the hard limit on and a positive maximum, a text
        over the limit is replaced by its clamped form; then the stats are
        shown. */
    method HandleInput() returns (st: Stats)
      requires Valid()
      modifies this`value
      ensures value == HardLimited(seg, old(value), maxLen, hardLimit)
      ensures value <= old(value)
      ensures hardLimit && maxLen > 0 ==> GraphemeCount(seg, value) <= maxLen
      ensures GraphemeCount(seg, old(value)) <= maxLen ==> value == old(value)
      ensures st == StatsOf(seg, letterOrNumber, value, maxLen)
      ensures !st.progress.overflow || !hardLimit
    {
      HardLimitedBound(seg, value, maxLen, hardLimit);
      HardLimitedKeeps(seg, value, maxLen, hardLimit);
      if hardLimit && maxLen > 0 {
        var currentCount := CountGraphemes(seg, value);
        if currentCount > maxLen {
          value := ClampToMax(seg, value, maxLen);
        }
      }
      st := UpdateStats();
    }
  }
}
