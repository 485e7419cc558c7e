/** The client-side email pattern `^[^\s@]+@[^\s@]+\.[^\s@]+$` of the waitlist form,
    written as a predicate, with its characterisation in plain terms. */
module EmailPattern {

  /** The characters the ECMAScript class `\s` matches: WhiteSpace (tab, vertical tab,
      form feed, space, no-break space, byte order mark and the other space separators)
      and LineTerminator (line feed, carriage return, line and paragraph separators). */
  predicate IsWhitespace(c: char) {
    c == '\t' || c == '\n' || c == '\U{000B}' || c == '\U{000C}' || c == '\r' || c == ' '
    || c == '\U{00A0}' || c == '\U{1680}' || ('\U{2000}' <= c <= '\U{200A}')
    || c == '\U{2028}' || c == '\U{2029}' || c == '\U{202F}' || c == '\U{205F}'
    || c == '\U{3000}' || c == '\U{FEFF}'
  }

  /** One character of the class `[^\s@]`. */
  predicate IsPlain(c: char) {
    !IsWhitespace(c) && c != '@'
  }

  /** A run of `[^\s@]+`. */
  predicate PlainRun(s: string) {
    |s| > 0 && forall i | 0 <= i < |s| :: IsPlain(s[i])
  }

  /** The anchored pattern: the whole string is a plain run, an `@`, a plain run, a `.`,
      and a plain run. `a` is where the `@` sits, `d` where the chosen `.` sits. */
  predicate Matches(s: string) {
    exists a | 0 < a < |s| ::
      exists d | a + 1 < d < |s| - 1 ::
        s[a] == '@' && s[d] == '.'
        && PlainRun(s[..a]) && PlainRun(s[a + 1..d]) && PlainRun(s[d + 1..])
  }

  // ---------------------------------------------------------------------------------
  // The characterisation: exactly one `@`, no whitespace, a non-empty local part and a
  // domain with a `.` that is neither its first nor its last character.

  function Occurrences(s: string, c: char): nat {
    if s == [] then 0 else Occurrences(s[1..], c) + (if s[0] == c then 1 else 0)
  }

  /** Position of the first `c` in `s`, or |s| if there is none. */
  function IndexOf(s: string, c: char): (k: nat)
    ensures k <= |s|
    ensures k < |s| ==> s[k] == c
    ensures c !in s[..k]
  {
    if s == [] then 0
    else if s[0] == c then 0
    else 1 + IndexOf(s[1..], c)
  }

  predicate NoWhitespace(s: string) {
    forall i | 0 <= i < |s| :: !IsWhitespace(s[i])
  }

  ghost predicate WellShaped(s: string) {
    Occurrences(s, '@') == 1 && NoWhitespace(s) &&
    var at := IndexOf(s, '@');
    at < |s| &&
    var local, domain := s[..at], s[at + 1..];
    |local| > 0 && exists k | 1 <= k <= |domain| - 2 :: domain[k] == '.'
  }

  lemma {:induction false} OccurrencesZero(s: string, c: char)
    ensures Occurrences(s, c) == 0 <==> c !in s
  {
    if s != [] {
      OccurrencesZero(s[1..], c);
      assert s == [s[0]] + s[1..];
    }
  }

  lemma {:induction false} OccurrencesAppend(s: string, t: string, c: char)
    ensures Occurrences(s + t, c) == Occurrences(s, c) + Occurrences(t, c)
  {
    if s == [] {
      assert s + t == t;
    } else {
      assert (s + t)[0] == s[0];
      assert (s + t)[1..] == s[1..] + t;
      OccurrencesAppend(s[1..], t, c);
    }
  }

  /** Splitting at position `a` of `s`. */
  lemma OccurrencesAround(s: string, a: nat, c: char)
    requires a < |s|
    ensures Occurrences(s, c) == Occurrences(s[..a], c) + (if s[a] == c then 1 else 0) + Occurrences(s[a + 1..], c)
  {
    assert s == s[..a] + ([s[a]] + s[a + 1..]);
    OccurrencesAppend(s[..a], [s[a]] + s[a + 1..], c);
    OccurrencesAppend([s[a]], s[a + 1..], c);
  }

  lemma MatchImpliesWellShaped(s: string, a: nat, d: nat)
    requires a + 1 < d < |s| - 1 && s[a] == '@' && s[d] == '.'
    requires PlainRun(s[..a]) && PlainRun(s[a + 1..d]) && PlainRun(s[d + 1..])
    ensures WellShaped(s)
  {
    var local, middle, tld := s[..a], s[a + 1..d], s[d + 1..];
    var domain := s[a + 1..];
    assert domain == middle + [s[d]] + tld;
    assert '@' !in local by {
      forall i | 0 <= i < |local| ensures local[i] != '@' { assert IsPlain(local[i]); }
    }
    assert '@' !in domain by {
      forall i | 0 <= i < |domain| ensures domain[i] != '@' {
        if i < |middle| { assert IsPlain(middle[i]); }
        else if i > |middle| { assert IsPlain(tld[i - |middle| - 1]); }
      }
    }
    OccurrencesZero(local, '@');
    OccurrencesZero(domain, '@');
    OccurrencesAround(s, a, '@');
    assert IndexOf(s, '@') == a;
    forall i | 0 <= i < |s| ensures !IsWhitespace(s[i]) {
      if i < a { assert IsPlain(local[i]); }
      else if a < i < d { assert IsPlain(middle[i - a - 1]); }
      else if i > d { assert IsPlain(tld[i - d - 1]); }
    }
    assert domain[d - a - 1] == '.';
  }

  lemma WellShapedImpliesMatch(s: string)
    requires WellShaped(s)
    ensures Matches(s)
  {
    var a := IndexOf(s, '@');
    var domain := s[a + 1..];
    var k :| 1 <= k <= |domain| - 2 && domain[k] == '.';
    var d := a + 1 + k;
    OccurrencesAround(s, a, '@');
    OccurrencesZero(domain, '@');
    var local, middle, tld := s[..a], s[a + 1..d], s[d + 1..];
    assert PlainRun(local) by {
      forall i | 0 <= i < |local| ensures IsPlain(local[i]) { assert local[i] == s[i]; }
    }
    assert PlainRun(middle) by {
      forall i | 0 <= i < |middle| ensures IsPlain(middle[i]) { assert middle[i] == domain[i] == s[a + 1 + i]; }
    }
    assert PlainRun(tld) by {
      forall i | 0 <= i < |tld| ensures IsPlain(tld[i]) { assert tld[i] == domain[k + 1 + i] == s[d + 1 + i]; }
    }
    assert s[a] == '@' && s[d] == '.';
  }

  /** The regular expression and the characterisation accept the same strings. */
  lemma MatchesIffWellShaped(s: string)
    ensures Matches(s) <==> WellShaped(s)
  {
    if Matches(s) {
      var a, d :| 0 < a < |s| && a + 1 < d < |s| - 1 && s[a] == '@' && s[d] == '.'
        && PlainRun(s[..a]) && PlainRun(s[a + 1..d]) && PlainRun(s[d + 1..]);
      MatchImpliesWellShaped(s, a, d);
    }
    if WellShaped(s) {
      WellShapedImpliesMatch(s);
    }
  }

  /** Every string of the shape local@domain.tld, with each part a non-empty run of
      characters that are neither whitespace nor `@`, is accepted. */
  lemma AcceptsLocalDomainTld(local: string, domain: string, tld: string)
    requires PlainRun(local) && PlainRun(domain) && PlainRun(tld)
    ensures Matches(local + "@" + domain + "." + tld)
  {
    var s := local + "@" + domain + "." + tld;
    var a, d := |local|, |local| + 1 + |domain|;
    assert s[..a] == local && s[a + 1..d] == domain && s[d + 1..] == tld;
    assert s[a] == '@' && s[d] == '.';
  }

  /** A matching string has an `@`, no whitespace, and a `.` after its `@`: so a string
      without `@`, one with whitespace, or one whose domain has no `.` is rejected. */
  lemma MatchNeedsAtAndDot(s: string)
    ensures Matches(s) ==> '@' in s && NoWhitespace(s) && '.' in s[IndexOf(s, '@') + 1..]
  {
    MatchesIffWellShaped(s);
    if Matches(s) {
      OccurrencesZero(s, '@');
      var domain := s[IndexOf(s, '@') + 1..];
      var k :| 1 <= k <= |domain| - 2 && domain[k] == '.';
      assert domain[k] in domain;
    }
  }
}
