# Character counter: text metrics and grapheme-safe clamping

This project models the logic of a small character-counter widget (`script.js`) and proves properties of it. The widget counts user-perceived characters (grapheme clusters), words, lines and UTF-8 bytes. It also derives progress values against an optional maximum length. When the hard limit is on, it clamps the text to at most that many whole characters.

Text is a Dafny `string`. A Dafny `char` is a Unicode scalar value, so a string is exactly a sequence of code points.

The platform grapheme segmenter is an outside library. It is modelled as a `Segmenter` value chosen once at start-up: either `Graphemes(split)`, holding a segmentation function, or `CodePoints`, the fallback. The model demands two things of the segmentation function (`Segmentation.IsSegmentation`):

- It cuts every text into non-empty pieces that concatenate to the text.
- It is prefix-stable: segmenting the text made of the first k segments gives back those k segments.

Partition alone is not enough for the limit guarantee. Without prefix stability, re-segmenting a clamped text could yield more than `max` clusters. The boundary rules of Unicode Standard Annex #29, section 3, decide each boundary from the text before it and the single code point after it, and the end of text is always a boundary. So a conforming segmenter has both properties. The fallback, one code point per segment, is proved to satisfy them (`Segmentation.SingletonsIsSegmentation`).

The Unicode letter and number properties `\p{L}` and `\p{N}` are a parameter `letterOrNumber: char -> bool`. The two apostrophes U+0027 and U+2019 are added literally, as in the regular expression.

Modules:

- `Segmentation`: text, concatenation, partitions, the segmenter capability.
- `Counting`: `countGraphemes`, `countWords`, `countLines`, `utf8Bytes`.
- `Clamp`: `clampToMax`.
- `Widget`: the integer part of `updateStats`, the hard-limit step of `handleInput`, and a class `Editor` for the text area value, the maximum length and the hard-limit checkbox.

Two behaviours of the code worth noting:

- Without a limit, `remaining` is 0 (script.js:87).
- Raising the clamp limit by one never keeps less, except from 0 to 1. A limit of 0 or below is a no-op (script.js:53), so limit 0 keeps more than limit 1 does (`Clamp.ClampedNotMonotoneAtZero`); between negative limits, and from -1 to 0, the text is kept whole.

## Model

| member | source | states |
|---|---|---|
| `Segmentation.Singletons` | script.js:31 | Definition of `Array.from(str)`: one segment per code point, as many segments as code points. Properties in `Segmentation.SingletonsIsSegmentation` and `Segmentation.SingletonsPrefix`. |
| `Segmentation.SingletonsIsSegmentation` | script.js:31 | The code-point fallback (`Array.from`) is a segmentation: non-empty pieces that rebuild the text, stable under prefixes. |
| `Segmentation.SingletonsPrefix` | script.js:65 | The first k code-point segments rebuild the first k code points, and they are the segments of that prefix. |
| `Segmentation.Segments` | script.js:24-32 | Definition of the segments iterated: `seg.segment(str)` when the platform segmenter exists, otherwise `Array.from(str)`. Properties in `Segmentation.SegmentsPartition` and `Segmentation.SegmentsPrefixStable`. |
| `Segmentation.GraphemeCount` | script.js:24-32 | Definition: the number of segments; on the fallback path it is the code-point length. Properties in `Segmentation.SegmentsPartition` and `Counting.CountGraphemes`. |
| `Segmentation.SegmentsPartition` | script.js:24-32 | Under a valid segmenter the segments partition the text, so the count is at most the code-point length and is 0 exactly for the empty text. |
| `Segmentation.SegmentsPrefixStable` | script.js:56-61 | Re-segmenting the text made of the first k segments yields exactly those k segments. |
| `Segmentation.PartitionCount` | script.js:24-32 | A partition into non-empty pieces has at most as many pieces as code points, and none exactly when the text is empty. |
| `Segmentation.ConcatSplit` | script.js:56-61 | Splitting the segment list at k splits its concatenation into the kept prefix and the dropped rest. |
| `Counting.CountGraphemes` | script.js:24-32 | The loop counts exactly the segments. The count is at most the code-point length and 0 iff the text is empty. On the fallback path it is the code-point length. |
| `Counting.IsWordChar` | script.js:36 | Definition of the class `[\p{L}\p{N}’']`: a letter or number, U+0027 or U+2019. Properties in `Counting.CountWordsZeroIff` and `Counting.CountWordsContraction`. |
| `Counting.RunLength` | script.js:36 | The greedy `+` match at the start of a text is the longest run of word-class characters there. |
| `Counting.WordMatches` | script.js:36 | Every match of the global regular expression is non-empty and made only of word-class characters, and there are at most as many matches as code points. |
| `Counting.CountWords` | script.js:35-38 | Definition: the number of matches, 0 when there are none; at most the code-point length. Properties in `Counting.CountWordsIsRunStarts` and `Counting.CountWordsZeroIff`. |
| `Counting.CountWordsIsRunStarts` | script.js:35-38 | The number of matches equals the number of maximal runs, counted independently as positions holding a word character not preceded by one. |
| `Counting.CountWordsZeroIff` | script.js:35-38 | The word count is 0 exactly when no character is a letter, number or apostrophe. |
| `Counting.CountWordsTwoRuns` | script.js:35-38 | Two runs of word characters separated by one other character are two words. |
| `Counting.CountWordsHelloWorld` | script.js:35-38 | "hello world" is two words. |
| `Counting.CountWordsContraction` | script.js:36 | "don't stop" is two words: the apostrophe keeps "don't" whole. |
| `Counting.CountWordsBlank` | script.js:35-38 | A text made only of spaces, tabs, line feeds and carriage returns (the empty text included) has no words, whenever the letter and number test rejects those four: the `null` match case gives 0. |
| `Counting.SplitLines` | script.js:42 | Splitting on line feeds gives at least one piece, and no piece holds a line feed. |
| `Counting.SplitLinesJoin` | script.js:42 | Joining the split pieces with line feeds gives the text back. |
| `Counting.SplitLinesCount` | script.js:42 | A text with k line feeds splits into k + 1 pieces. |
| `Counting.CountLines` | script.js:41-43 | The line count is at least 1. |
| `Counting.CountLinesIsNewlinesPlusOne` | script.js:41-43 | The line count is 1 plus the number of line feeds, including for the empty text. |
| `Counting.CarriageReturnAddsNoLine` | script.js:42 | Inserting a carriage return anywhere does not change the line count. |
| `Counting.CountLinesExamples` | script.js:41-43 | "" has 1 line, "a\nb\nc" has 3, "a\r\nb" has 2. |
| `Counting.Utf8Width` | script.js:46-49 | Each code point takes 1 to 4 bytes, per the table in section 3 of RFC 3629. |
| `Counting.Utf8Bytes` | script.js:46-49 | The UTF-8 length lies between the code-point length and four times it. |
| `Counting.Utf8BytesAppend` | script.js:46-49 | The UTF-8 length of a concatenation is the sum of the two lengths. |
| `Counting.Utf8BytesAsciiIff` | script.js:46-49 | The UTF-8 length equals the code-point length exactly when every code point is below 0x80. |
| `Counting.Utf8BytesExamples` | script.js:46-49 | "a" takes 1 byte, U+20AC (euro sign) takes 3, U+1F600 (an emoji) takes 4. |
| `Clamp.Clamped` | script.js:51-67 | Definition of the value `clampToMax` returns. Properties in `Clamp.ClampedFacts`, `Clamp.ClampedSegments` and `Clamp.ClampedIdempotent`. |
| `Clamp.ClampToMax` | script.js:51-67 | With max <= 0 the result is the text. Otherwise the loop and the fallback slice both return the first min(max, count) whole segments. The result is a prefix and has min(max, count) <= max characters. It is the text itself when the text is within the limit. |
| `Clamp.ClampedOnBoundary` | script.js:54-66 | The clamped text plus the concatenation of the dropped segments is the original: the cut falls on a cluster boundary. |
| `Clamp.ClampedSegments` | script.js:54-66 | The clamped text is segmented into exactly the first min(max, count) segments of the original. |
| `Clamp.ClampedFacts` | script.js:51-67 | The clamped text is a prefix. For max > 0 it has min(max, count) <= max characters. It equals the text when the count is within max. |
| `Clamp.ClampedIdempotent` | script.js:51-67 | Clamping twice with the same max is clamping once. |
| `Clamp.ClampedMonotone` | script.js:51-67 | For every limit n other than 0, the result under limit n is a prefix of the result under n + 1 and has no more characters. |
| `Clamp.ClampedNotMonotoneAtZero` | script.js:53 | With two or more characters, limit 0 (a no-op) keeps more characters than limit 1. |
| `Clamp.ClampedCodePoints` | script.js:65 | On the fallback path the result is the first max code points. |
| `Widget.ProgressFor` | script.js:83-91 | Without a limit, used is the count and there is no overflow. With a limit, used = min(count, max) (the count when within the limit, otherwise max) and remaining = max - count. Overflow holds iff count > max, iff remaining < 0, iff the label reads "over" by count - max. With a limit and the count within it, the label reads "left" by max - count, and that plus used makes max. |
| `Widget.StatsOf` | script.js:72-91 | Definition of the counters and progress `updateStats` shows. Properties in `Widget.Editor.UpdateStats` and `Widget.ProgressFor`. |
| `Widget.HardLimited` | script.js:101-106 | Definition of the text after the hard-limit decision of `handleInput`. Properties in `Widget.HardLimitedBound`, `Widget.HardLimitedKeeps` and `Widget.HardLimitedIdempotent`. |
| `Widget.HardLimitedBound` | script.js:99-107 | After the hard-limit step the text is a prefix of the old one. With the limit on and max > 0 it has at most max characters, and exactly max when it was over the limit. |
| `Widget.HardLimitedKeeps` | script.js:101-106 | Text within the limit, or with the limit off or zero, is left unchanged. Dropping the count test before clamping would not change the result. |
| `Widget.HardLimitedIdempotent` | script.js:99-107 | Repeating the hard-limit step with the same settings changes nothing. |
| `Widget.Editor.constructor` | script.js:20-22 | The editor starts with the segmenter chosen at start-up, which it requires to be a valid segmentation and records as `Valid()`, and the given text, maximum and checkbox state (the controls looked up at script.js:3-5). |
| `Widget.Editor.UpdateStats` | script.js:69-96 | The stats are the four counters and the progress of the current text. Characters <= code points <= bytes <= 4 x code points, there is at least one line, and the character count is 0 iff the text is empty. |
| `Widget.Editor.HandleInput` | script.js:99-109 | The new text is the hard-limited old text: a prefix, within max when the limit is on, unchanged when within the limit. The stats are those of the new text, and with the hard limit on they never show overflow. |

## Left out

- DOM lookups, `textContent` and `style` writes, and event-listener registration (script.js:1-16, 77-80, 85-95, 111-114) are UI plumbing. The model returns the values written instead.
- The clipboard copy, `execCommand` and `setTimeout` handlers (script.js:116-127) are asynchronous browser services.
- The clear button (script.js:129-132) and the theme toggle with its `localStorage` persistence (script.js:134-148) are UI state and I/O.
- The percentage `pct` and `toFixed(2)` (script.js:84-85) are floating-point display values.
- The UAX #29 boundary rules inside `Intl.Segmenter` and its locale choice (script.js:20-22) are an outside library. They are modelled as a segmentation function with the partition and prefix-stability properties.
- The `TextEncoder` itself (script.js:48) is an outside library. Its output length is modelled by the RFC 3629 width table.
- The Unicode general-category tables behind `\p{L}` and `\p{N}` are an outside library. They are modelled by the parameter `letterOrNumber`.
- `parseInt` of the maximum-length field and `Math.max(0, ·)` (script.js:71, 100) are not modelled; the maximum is a `nat`. A `NaN` result would act like 0 at every use: it is falsy, and it is not greater than 0.
- Widget.ProgressFor: JavaScript numbers are binary64 floats. `max - charCount` (script.js:87) is exact, and agrees with the model's integer arithmetic, only while max <= 2^53; a larger limit, where the subtraction rounds, and an `Infinity` limit from a very long digit string are not modelled. The comparisons and `Math.min` are exact in binary64 and need no such caveat.
- JavaScript strings are UTF-16. Lone surrogates, which `TextEncoder` would replace by U+FFFD, are not modelled: text is a sequence of scalar values. `str.length` is tested only against zero (script.js:42), and that agrees with the code-point length.
