/** The four counters of the widget: user-perceived characters, words,
    lines and UTF-8 bytes. */
module Counting {
  import opened Segmentation

  // ---------------------------------------------------------------------
  // Characters

  /** `countGraphemes`: counts the segments the segmenter yields, one loop
      step per segment; without a segmenter it counts code points. */
  method CountGraphemes(seg: Segmenter, str: Text) returns (c: nat)
    requires SegmenterValid(seg)
    ensures c == GraphemeCount(seg, str)
    ensures c <= |str|
    ensures c == 0 <==> str == []
    ensures seg.CodePoints? ==> c == |str|
  {
    SegmentsPartition(seg, str);
    match seg
    case Graphemes(split) =>
      var parts := split(str);
      c := 0;
      for i := 0 to |parts|
        invariant c == i
      {
        c := c + 1;
      }
    case CodePoints =>
      c := |str|;
  }

  // ---------------------------------------------------------------------
  // Words

  /** The character class `[\p{L}\p{N}’']`: a letter or number, as the
      given Unicode property test says, or one of the apostrophes U+0027
      and U+2019. */
  predicate IsWordChar(letterOrNumber: char -> bool, c: char)
  {
    letterOrNumber(c) || c == '\'' || c == '\U{2019}'
  }

  /** Every character of w is in the word class. */
  predicate AllWordChars(letterOrNumber: char -> bool, w: Text)
  {
    forall i :: 0 <= i < |w| ==> IsWordChar(letterOrNumber, w[i])
  }

  /** The length of the greedy match of the class's `+` at the start of s:
      the longest run of word characters s begins with. */
  function RunLength(letterOrNumber: char -> bool, s: Text): (n: nat)
    ensures n <= |s|
    ensures AllWordChars(letterOrNumber, s[..n])
    ensures n == |s| || !IsWordChar(letterOrNumber, s[n])
  {
    if s == [] || !IsWordChar(letterOrNumber, s[0]) then 0
    else
      var m := RunLength(letterOrNumber, s[1..]);
      assert s[..1 + m] == [s[0]] + s[1..][..m];
      1 + m
  }

  /** `str.match(/[\p{L}\p{N}’']+/gu)`: scanning left to right, skip a
      character outside the class, otherwise match the greedy run there and
      go on after it.  No match is the empty sequence, where `match`
      returns `null`. */
  function WordMatches(letterOrNumber: char -> bool, s: Text): (r: seq<Text>)
    ensures |r| <= |s|
    ensures forall j :: 0 <= j < |r| ==> r[j] != [] && AllWordChars(letterOrNumber, r[j])
    decreases |s|
  {
    if s == [] then []
    else if !IsWordChar(letterOrNumber, s[0]) then WordMatches(letterOrNumber, s[1..])
    else
      var n := RunLength(letterOrNumber, s);
      [s[..n]] + WordMatches(letterOrNumber, s[n..])
  }

  /** `countWords`: the number of matches, 0 when there are none. */
  function CountWords(letterOrNumber: char -> bool, s: Text): (n: nat)
    ensures n <= |s|
  {
    |WordMatches(letterOrNumber, s)|
  }

  /** The character at position i of s is in the word class. */
  predicate WordAt(letterOrNumber: char -> bool, s: Text, i: nat)
    requires i < |s|
  {
    IsWordChar(letterOrNumber, s[i])
  }

  /** Position i starts a word: it holds a word character and the one
      before it, if any, does not. */
  predicate IsRunStart(letterOrNumber: char -> bool, s: Text, i: nat)
    requires i < |s|
  {
    WordAt(letterOrNumber, s, i) && (i == 0 || !WordAt(letterOrNumber, s, i - 1))
  }

  /** Reference definition: the number of word starts at positions lo and on. */
  function RunStarts(letterOrNumber: char -> bool, s: Text, lo: nat): nat
    requires lo <= |s|
    decreases |s| - lo
  {
    if lo == |s| then 0
    else (if IsRunStart(letterOrNumber, s, lo) then 1 else 0) + RunStarts(letterOrNumber, s, lo + 1)
  }

  /** Position lo is not strictly inside a run of word characters. */
  predicate AtRunBoundary(letterOrNumber: char -> bool, s: Text, lo: nat)
    requires lo <= |s|
  {
    lo == 0 || lo == |s| || !WordAt(letterOrNumber, s, lo - 1) || !WordAt(letterOrNumber, s, lo)
  }

  /** Inside a run no position starts a word. */
  lemma {:induction false} NoStartsInsideRun(letterOrNumber: char -> bool, s: Text, lo: nat, hi: nat)
    requires 0 < lo <= hi <= |s|
    requires forall i :: lo - 1 <= i < hi ==> WordAt(letterOrNumber, s, i)
    ensures RunStarts(letterOrNumber, s, lo) == RunStarts(letterOrNumber, s, hi)
    decreases hi - lo
  {
    if lo < hi {
      NoStartsInsideRun(letterOrNumber, s, lo + 1, hi);
    }
  }

  /** The greedy run starting at position lo, read in s itself. */
  lemma RunAt(letterOrNumber: char -> bool, s: Text, lo: nat) returns (n: nat)
    requires lo < |s| && WordAt(letterOrNumber, s, lo)
    ensures n == RunLength(letterOrNumber, s[lo..])
    ensures 1 <= n && lo + n <= |s|
    ensures forall i :: lo <= i < lo + n ==> WordAt(letterOrNumber, s, i)
    ensures lo + n == |s| || !WordAt(letterOrNumber, s, lo + n)
    ensures |WordMatches(letterOrNumber, s[lo..])| == 1 + |WordMatches(letterOrNumber, s[lo + n..])|
  {
    var t := s[lo..];
    n := RunLength(letterOrNumber, t);
    assert t[0] == s[lo];
    forall i | lo <= i < lo + n
      ensures WordAt(letterOrNumber, s, i)
    {
      assert s[i] == t[..n][i - lo];
    }
    if lo + n < |s| {
      assert s[lo + n] == t[n];
    }
    assert t[n..] == s[lo + n..];
  }

  /** One step of `MatchesCountStarts` over a run of word characters at lo:
      one match and one word start, then the count goes on after the run. */
  lemma RunStep(letterOrNumber: char -> bool, s: Text, lo: nat) returns (n: nat)
    requires lo < |s| && WordAt(letterOrNumber, s, lo)
    requires AtRunBoundary(letterOrNumber, s, lo)
    ensures 1 <= n && lo + n <= |s|
    ensures AtRunBoundary(letterOrNumber, s, lo + n)
    ensures |WordMatches(letterOrNumber, s[lo..])| == 1 + |WordMatches(letterOrNumber, s[lo + n..])|
    ensures RunStarts(letterOrNumber, s, lo) == 1 + RunStarts(letterOrNumber, s, lo + n)
  {
    n := RunAt(letterOrNumber, s, lo);
    assert IsRunStart(letterOrNumber, s, lo);
    NoStartsInsideRun(letterOrNumber, s, lo + 1, lo + n);
  }

  /** One step of `MatchesCountStarts` over a character outside the class. */
  lemma SkipStep(letterOrNumber: char -> bool, s: Text, lo: nat)
    requires lo < |s| && !WordAt(letterOrNumber, s, lo)
    ensures AtRunBoundary(letterOrNumber, s, lo + 1)
    ensures |WordMatches(letterOrNumber, s[lo..])| == |WordMatches(letterOrNumber, s[lo + 1..])|
    ensures RunStarts(letterOrNumber, s, lo) == RunStarts(letterOrNumber, s, lo + 1)
  {
  }

  lemma {:induction false} MatchesCountStarts(letterOrNumber: char -> bool, s: Text, lo: nat)
    requires lo <= |s|
    requires AtRunBoundary(letterOrNumber, s, lo)
    ensures |WordMatches(letterOrNumber, s[lo..])| == RunStarts(letterOrNumber, s, lo)
    decreases |s| - lo
  {
    if lo == |s| {
      assert s[lo..] == [];
    } else if !WordAt(letterOrNumber, s, lo) {
      SkipStep(letterOrNumber, s, lo);
      MatchesCountStarts(letterOrNumber, s, lo + 1);
    } else {
      var n := RunStep(letterOrNumber, s, lo);
      MatchesCountStarts(letterOrNumber, s, lo + n);
    }
  }

  /** The matches are exactly the maximal runs: one per word start. */
  lemma CountWordsIsRunStarts(letterOrNumber: char -> bool, s: Text)
    ensures CountWords(letterOrNumber, s) == RunStarts(letterOrNumber, s, 0)
  {
    MatchesCountStarts(letterOrNumber, s, 0);
    assert s[0..] == s;
  }

  /** No word exactly when no character is in the class (so an empty or
      whitespace-only text has none, and a lone apostrophe is a word). */
  lemma {:induction false} CountWordsZeroIff(letterOrNumber: char -> bool, s: Text)
    ensures CountWords(letterOrNumber, s) == 0 <==> forall i :: 0 <= i < |s| ==> !IsWordChar(letterOrNumber, s[i])
  {
    if s != [] && !IsWordChar(letterOrNumber, s[0]) {
      CountWordsZeroIff(letterOrNumber, s[1..]);
      if exists i :: 0 <= i < |s| && IsWordChar(letterOrNumber, s[i]) {
        var i :| 0 <= i < |s| && IsWordChar(letterOrNumber, s[i]);
        assert s[1..][i - 1] == s[i];
      }
    }
  }

  /** The greedy run over a run of word characters followed by a
      character outside the class stops just before that character. */
  lemma {:induction false} RunLengthOfWord(letterOrNumber: char -> bool, w: Text, rest: Text)
    requires AllWordChars(letterOrNumber, w)
    requires rest == [] || !IsWordChar(letterOrNumber, rest[0])
    ensures RunLength(letterOrNumber, w + rest) == |w|
  {
    if w == [] {
      assert w + rest == rest;
    } else {
      assert (w + rest)[1..] == w[1..] + rest;
      RunLengthOfWord(letterOrNumber, w[1..], rest);
    }
  }

  /** Two runs of word characters with one character outside the class
      between them are two words. */
  lemma CountWordsTwoRuns(letterOrNumber: char -> bool, a: Text, sep: char, b: Text)
    requires a != [] && b != []
    requires AllWordChars(letterOrNumber, a) && AllWordChars(letterOrNumber, b)
    requires !IsWordChar(letterOrNumber, sep)
    ensures CountWords(letterOrNumber, a + [sep] + b) == 2
  {
    var s := a + [sep] + b;
    assert s == a + ([sep] + b);
    RunLengthOfWord(letterOrNumber, a, [sep] + b);
    assert s[0] == a[0] && s[|a|..] == [sep] + b;
    assert WordMatches(letterOrNumber, s) == [s[..|a|]] + WordMatches(letterOrNumber, [sep] + b);
    assert ([sep] + b)[1..] == b;
    assert WordMatches(letterOrNumber, [sep] + b) == WordMatches(letterOrNumber, b);
    RunLengthOfWord(letterOrNumber, b, []);
    assert b + [] == b;
    assert WordMatches(letterOrNumber, b) == [b[..|b|]] + WordMatches(letterOrNumber, b[|b|..]);
    assert b[|b|..] == [];
  }

  /** "hello world" is two words. */
  lemma CountWordsHelloWorld(letterOrNumber: char -> bool)
    requires forall c :: 'a' <= c <= 'z' ==> letterOrNumber(c)
    requires !letterOrNumber(' ')
    ensures CountWords(letterOrNumber, "hello world") == 2
  {
    var s := "hello" + [' '] + "world";
    assert forall i :: 0 <= i < 5 ==> 'a' <= "hello"[i] <= 'z' && 'a' <= "world"[i] <= 'z';
    CountWordsTwoRuns(letterOrNumber, "hello", ' ', "world");
    assert s == "hello world";
  }

  /** "don't stop" is two words: the apostrophe keeps "don't" whole. */
  lemma CountWordsContraction(letterOrNumber: char -> bool)
    requires forall c :: 'a' <= c <= 'z' ==> letterOrNumber(c)
    requires !letterOrNumber(' ')
    ensures CountWords(letterOrNumber, "don't stop") == 2
  {
    var s := "don't" + [' '] + "stop";
    assert forall i :: 0 <= i < 5 && i != 3 ==> 'a' <= "don't"[i] <= 'z';
    assert IsWordChar(letterOrNumber, "don't"[3]);
    assert forall i :: 0 <= i < 4 ==> 'a' <= "stop"[i] <= 'z';
    CountWordsTwoRuns(letterOrNumber, "don't", ' ', "stop");
    assert s == "don't stop";
  }

  /** Spaces, tabs, line feeds and carriage returns. */
  const Blanks: set<char> := {' ', '\t', '\n', '\r'}

  /** A text made only of blanks has no words, whenever the letter and
      number test rejects the blanks (as the Unicode properties do). */
  lemma CountWordsBlank(letterOrNumber: char -> bool, s: Text)
    requires forall c :: c in Blanks ==> !letterOrNumber(c)
    requires forall i :: 0 <= i < |s| ==> s[i] in Blanks
    ensures CountWords(letterOrNumber, s) == 0
  {
    CountWordsZeroIff(letterOrNumber, s);
  }

  // ---------------------------------------------------------------------
  // Lines

  /** `str.split(/\n/)`: the pieces between line feeds, in order; a text
      with k line feeds has k + 1 pieces, some of which may be empty. */
  function SplitLines(s: Text): (r: seq<Text>)
    ensures |r| >= 1
    ensures forall i :: 0 <= i < |r| ==> '\n' !in r[i]
  {
    if s == [] then [[]]
    else
      var rest := SplitLines(s[1..]);
      if s[0] == '\n' then [[]] + rest
      else [[s[0]] + rest[0]] + rest[1..]
  }

  /** The pieces joined with line feeds between them. */
  function JoinLines(parts: seq<Text>): Text
  {
    if parts == [] then []
    else if |parts| == 1 then parts[0]
    else parts[0] + ['\n'] + JoinLines(parts[1..])
  }

  /** Splitting loses nothing: joining the pieces gives the text back. */
  lemma {:induction false} SplitLinesJoin(s: Text)
    ensures JoinLines(SplitLines(s)) == s
  {
    if s != [] {
      var rest := SplitLines(s[1..]);
      SplitLinesJoin(s[1..]);
      if s[0] == '\n' {
        assert s == ['\n'] + s[1..];
      } else {
        var r := [[s[0]] + rest[0]] + rest[1..];
        assert r[1..] == rest[1..];
        if |rest| == 1 {
          assert s == [s[0]] + rest[0];
        } else {
          assert rest == [rest[0]] + rest[1..];
          assert s == [s[0]] + rest[0] + ['\n'] + JoinLines(rest[1..]);
        }
      }
    }
  }

  lemma {:induction false} SplitLinesCount(s: Text)
    ensures |SplitLines(s)| == 1 + multiset(s)['\n']
  {
    if s != [] {
      SplitLinesCount(s[1..]);
      assert s == [s[0]] + s[1..];
      assert multiset(s) == multiset{s[0]} + multiset(s[1..]);
    }
  }

  /** `countLines`: 1 for the empty text, otherwise the number of pieces. */
  function CountLines(s: Text): (n: nat)
    ensures n >= 1
  {
    if |s| > 0 then |SplitLines(s)| else 1
  }

  /** One line more than there are line feeds, also for the empty text. */
  lemma CountLinesIsNewlinesPlusOne(s: Text)
    ensures CountLines(s) == 1 + multiset(s)['\n']
  {
    SplitLinesCount(s);
  }

  /** A carriage return anywhere never adds a line. */
  lemma CarriageReturnAddsNoLine(a: Text, b: Text)
    ensures CountLines(a + ['\r'] + b) == CountLines(a + b)
  {
    CountLinesIsNewlinesPlusOne(a + ['\r'] + b);
    CountLinesIsNewlinesPlusOne(a + b);
    assert multiset(a + ['\r'] + b) == multiset(a + b) + multiset{'\r'};
  }

  lemma CountLinesExamples()
    ensures CountLines("") == 1
    ensures CountLines("a\nb\nc") == 3
    ensures CountLines("a\r\nb") == 2
  {
    CountLinesIsNewlinesPlusOne("a\nb\nc");
    CountLinesIsNewlinesPlusOne("a\r\nb");
  }

  // ---------------------------------------------------------------------
  // Bytes

  /** The number of bytes UTF-8 spends on one code point, from the table of
      section 3 of RFC 3629. */
  function Utf8Width(c: char): (n: nat)
    ensures 1 <= n <= 4
  {
    if c as int < 0x80 then 1
    else if c as int < 0x800 then 2
    else if c as int < 0x1_0000 then 3
    else 4
  }

  /** `utf8Bytes`: the length of the UTF-8 encoding, the sum of the widths
      of the code points. */
  function Utf8Bytes(s: Text): (n: nat)
    ensures |s| <= n <= 4 * |s|
  {
    if s == [] then 0 else Utf8Width(s[0]) + Utf8Bytes(s[1..])
  }

  /** The encoding of a concatenation is the two encodings one after the other. */
  lemma {:induction false} Utf8BytesAppend(a: Text, b: Text)
    ensures Utf8Bytes(a + b) == Utf8Bytes(a) + Utf8Bytes(b)
  {
    if a != [] {
      assert (a + b)[1..] == a[1..] + b;
      Utf8BytesAppend(a[1..], b);
    } else {
      assert a + b == b;
    }
  }

  /** One byte per code point exactly when the text is ASCII. */
  lemma {:induction false} Utf8BytesAsciiIff(s: Text)
    ensures Utf8Bytes(s) == |s| <==> forall i :: 0 <= i < |s| ==> s[i] as int < 0x80
  {
    if s != [] {
      Utf8BytesAsciiIff(s[1..]);
      if forall i :: 0 <= i < |s| ==> s[i] as int < 0x80 {
        assert forall i :: 0 <= i < |s[1..]| ==> s[1..][i] == s[i + 1];
      } else {
        var i :| 0 <= i < |s| && s[i] as int >= 0x80;
        if i > 0 {
          assert s[1..][i - 1] == s[i];
        }
      }
    }
  }

  lemma Utf8BytesExamples()
    ensures Utf8Bytes("a") == 1
    ensures Utf8Bytes("\U{20AC}") == 3
    ensures Utf8Bytes("\U{1F600}") == 4
  {
  }
}
