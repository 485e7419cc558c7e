/** The feature-text formatter of the marketing panel (components/marketing-content.tsx):
    `text.split("**")`, with every odd-indexed segment rendered emphasised. */
module Emphasis {

  const Delimiter := "**"

  /** The delimiter starts at position `i` of `s`. */
  predicate DelimiterAt(s: string, i: nat) {
    i + 1 < |s| && s[i] == '*' && s[i + 1] == '*'
  }

  predicate HasDelimiter(s: string) {
    exists i | 0 <= i < |s| :: DelimiterAt(s, i)
  }

  predicate EndsWithStar(s: string) {
    |s| > 0 && s[|s| - 1] == '*'
  }

  /** The shape of a left-to-right, non-overlapping split: no part holds the delimiter,
      and no part that a delimiter follows ends with `*` (else that delimiter would have
      been found one character earlier). */
  ghost predicate LeftmostParts(parts: seq<string>) {
    |parts| >= 1
    && (forall k | 0 <= k < |parts| :: !HasDelimiter(parts[k]))
    && (forall k | 0 <= k < |parts| - 1 :: !EndsWithStar(parts[k]))
  }

  /** The parts put back together with the delimiter between consecutive parts. */
  function Join(parts: seq<string>): string
    requires |parts| >= 1
  {
    if |parts| == 1 then parts[0] else parts[0] + Delimiter + Join(parts[1..])
  }

  /** `split("**")`: scan left to right; at each delimiter close the current part and
      resume after the delimiter. */
  function Split(s: string): (parts: seq<string>)
    ensures LeftmostParts(parts)
    ensures parts[0] <= s
    ensures |parts| > 1 ==> DelimiterAt(s, |parts[0]|)
    decreases |s|
  {
    if |s| < 2 then
      assert !HasDelimiter(s);
      [s]
    else if DelimiterAt(s, 0) then
      [""] + Split(s[2..])
    else
      var rest := Split(s[1..]);
      var first := [s[0]] + rest[0];
      assert !HasDelimiter(first) by {
        forall i | 0 <= i < |first| ensures !DelimiterAt(first, i) {
          if i > 0 { assert !DelimiterAt(rest[0], i - 1); }
          else if |rest[0]| > 0 { assert rest[0][0] == s[1]; }
        }
      }
      assert |rest| > 1 ==> !EndsWithStar(first) by {
        if |rest| > 1 && rest[0] == [] { assert DelimiterAt(s[1..], 0); }
      }
      [first] + rest[1..]
  }

  /** Joining the parts of a split gives back the text. */
  lemma {:induction false} JoinSplit(s: string)
    ensures Join(Split(s)) == s
    decreases |s|
  {
    if |s| >= 2 {
      if DelimiterAt(s, 0) {
        JoinSplit(s[2..]);
        assert s == Delimiter + s[2..];
      } else {
        var rest := Split(s[1..]);
        JoinSplit(s[1..]);
        var parts := Split(s);
        assert parts[0] == [s[0]] + rest[0] && parts[1..] == rest[1..];
        if |rest| > 1 {
          assert Join(rest) == rest[0] + Delimiter + Join(rest[1..]);
          assert Join(parts) == ([s[0]] + rest[0]) + Delimiter + Join(rest[1..]);
        }
        assert s == [s[0]] + s[1..];
      }
    }
  }

  lemma {:induction false} SplitWithoutDelimiter(p: string)
    requires !HasDelimiter(p)
    ensures Split(p) == [p]
    decreases |p|
  {
    if |p| >= 2 {
      assert !DelimiterAt(p, 0);
      assert !HasDelimiter(p[1..]) by {
        forall i | 0 <= i < |p| - 1 ensures !DelimiterAt(p[1..], i) { assert !DelimiterAt(p, i + 1); }
      }
      SplitWithoutDelimiter(p[1..]);
      assert [p[0]] + p[1..] == p;
    }
  }

  /** A part that can stand before a delimiter is split off as the first part. */
  lemma {:induction false} SplitAfterPart(p: string, t: string)
    requires !HasDelimiter(p) && !EndsWithStar(p)
    ensures Split(p + Delimiter + t) == [p] + Split(t)
    decreases |p|
  {
    var s := p + Delimiter + t;
    if p == [] {
      assert s[2..] == t;
    } else {
      assert !DelimiterAt(s, 0) by {
        if |p| >= 2 { assert !DelimiterAt(p, 0); }
      }
      assert !HasDelimiter(p[1..]) by {
        forall i | 0 <= i < |p| - 1 ensures !DelimiterAt(p[1..], i) { assert !DelimiterAt(p, i + 1); }
      }
      assert !EndsWithStar(p[1..]);
      assert s[1..] == p[1..] + Delimiter + t;
      SplitAfterPart(p[1..], t);
      assert [s[0]] + p[1..] == p;
    }
  }

  /** The split is the only left-to-right, non-overlapping decomposition of the text. */
  lemma {:induction false} SplitUnique(s: string, parts: seq<string>)
    requires LeftmostParts(parts) && Join(parts) == s
    ensures parts == Split(s)
    decreases |parts|
  {
    if |parts| == 1 {
      SplitWithoutDelimiter(s);
    } else {
      var tail := parts[1..];
      assert LeftmostParts(tail) by {
        forall k | 0 <= k < |tail| ensures !HasDelimiter(tail[k]) { assert tail[k] == parts[k + 1]; }
        forall k | 0 <= k < |tail| - 1 ensures !EndsWithStar(tail[k]) { assert tail[k] == parts[k + 1]; }
      }
      SplitUnique(Join(tail), tail);
      SplitAfterPart(parts[0], Join(tail));
      assert parts == [parts[0]] + tail;
    }
  }

  /** Left-to-right, non-overlapping occurrences of the delimiter. */
  function Occurrences(s: string): nat
    decreases |s|
  {
    if |s| < 2 then 0
    else if DelimiterAt(s, 0) then 1 + Occurrences(s[2..])
    else Occurrences(s[1..])
  }

  /** One part more than there are delimiters. */
  lemma {:induction false} PartCount(s: string)
    ensures |Split(s)| == Occurrences(s) + 1
    decreases |s|
  {
    if |s| >= 2 {
      if DelimiterAt(s, 0) { PartCount(s[2..]); } else { PartCount(s[1..]); }
    }
  }

  /** The text with every delimiter found by the scan removed: what the reader sees. */
  function Stripped(s: string): string
    decreases |s|
  {
    if |s| < 2 then s
    else if DelimiterAt(s, 0) then Stripped(s[2..])
    else [s[0]] + Stripped(s[1..])
  }

  function Concat(parts: seq<string>): string {
    if parts == [] then "" else parts[0] + Concat(parts[1..])
  }

  /** The parts, side by side, are the text without its delimiters. */
  lemma {:induction false} ConcatSplit(s: string)
    ensures Concat(Split(s)) == Stripped(s)
    decreases |s|
  {
    if |s| >= 2 {
      if DelimiterAt(s, 0) {
        ConcatSplit(s[2..]);
        assert Concat([""] + Split(s[2..])) == "" + Concat(Split(s[2..]));
      } else {
        var rest := Split(s[1..]);
        ConcatSplit(s[1..]);
        var parts := Split(s);
        assert parts[0] == [s[0]] + rest[0] && parts[1..] == rest[1..];
        assert Concat(rest) == rest[0] + Concat(rest[1..]);
      }
    }
  }

  /** One rendered piece: plain text, or an emphasised span keyed by its index. */
  datatype Fragment = Plain(text: string) | Emphasised(key: nat, text: string)

  /** `formatText`: the split, mapped by index parity. */
  function FormatText(s: string): (fragments: seq<Fragment>)
    ensures |fragments| == |Split(s)|
    ensures forall i | 0 <= i < |fragments| ::
      fragments[i].text == Split(s)[i]
      && (fragments[i].Emphasised? <==> i % 2 == 1)
      && (fragments[i].Emphasised? ==> fragments[i].key == i)
  {
    var parts := Split(s);
    seq(|parts|, i requires 0 <= i < |parts| => if i % 2 == 1 then Emphasised(i, parts[i]) else Plain(parts[i]))
  }

  function Texts(fragments: seq<Fragment>): (texts: seq<string>)
    ensures |texts| == |fragments|
    ensures forall i | 0 <= i < |fragments| :: texts[i] == fragments[i].text
  {
    seq(|fragments|, i requires 0 <= i < |fragments| => fragments[i].text)
  }

  /** Formatting loses nothing: the fragments' texts, joined with the delimiter, are the
      original text; no fragment holds the delimiter; and the fragments read in order
      show the text with its delimiters removed. */
  lemma FormatRoundTrip(s: string)
    ensures Join(Texts(FormatText(s))) == s
    ensures forall i | 0 <= i < |FormatText(s)| :: !HasDelimiter(FormatText(s)[i].text)
    ensures Concat(Texts(FormatText(s))) == Stripped(s)
  {
    assert Texts(FormatText(s)) == Split(s);
    JoinSplit(s);
    ConcatSplit(s);
  }
}
