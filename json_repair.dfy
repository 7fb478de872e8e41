/**
 * The two pure helpers of neo4jImport.py that prepare the nested
 * "Company Profile" field: the quote repair `clean_mid_sentence_quotes` and the
 * guard around the JSON decoder in `safe_parse_json`.
 */
module JsonRepair {
  import opened Options
  import opened Text

  /** The position of the first `"` in t, if any. */
  function FindQuote(t: string): (r: Option<nat>)
    ensures r.Some? ==> r.value < |t| && t[r.value] == '"' && forall k :: 0 <= k < r.value ==> t[k] != '"'
    ensures r.None? ==> '"' !in t
  {
    if t == [] then None
    else if t[0] == '"' then Some(0)
    else
      match FindQuote(t[1..])
      case Some(j) => Some(j + 1)
      case None => None
  }

  /**
   * Whether `\s"([^"]+)"\s` matches at the start of s, and if so the position
   * of its closing quote. `[^"]+` cannot contain a quote, so the closing quote
   * is the first quote after the opening one, and the match succeeds exactly
   * when at least one character lies between them and whitespace follows.
   */
  function QuoteMatch(s: string): (r: Option<nat>)
    ensures r.Some? ==> MatchEndsAt(s, r.value)
    ensures forall j: nat :: MatchEndsAt(s, j) ==> r == Some(j)
  {
    if |s| >= 2 && IsSpace(s[0]) && s[1] == '"' then
      match FindQuote(s[2..])
      case Some(m) =>
        if m > 0 && m + 3 < |s| && IsSpace(s[m + 3]) then Some(m + 2) else None
      case None => None
    else None
  }

  /** The pattern matches at the start of s with its closing quote at position j. */
  predicate MatchEndsAt(s: string, j: nat)
  {
    && 2 < j && j + 1 < |s| && IsSpace(s[0]) && s[1] == '"' && s[j] == '"' && IsSpace(s[j + 1])
    && forall k :: 2 <= k < j ==> s[k] != '"'
  }

  /**
   * clean_mid_sentence_quotes: `re.sub(r'\s"([^"]+)"\s', r" '\1' ", s)`,
   * as a left-to-right scan. A match of n characters is replaced by n
   * characters: both whitespace characters become a space, both quotes become
   * apostrophes, and the quoted text is kept.
   */
  function CleanMidSentenceQuotes(s: string): (r: string)
    ensures PositionwiseRepair(s, r)
    decreases |s|
  {
    if s == [] then []
    else
      match QuoteMatch(s)
      case Some(j) =>
        var rest := CleanMidSentenceQuotes(s[j + 2..]);
        RepairMatch(s, j, rest);
        " '" + s[2..j] + "' " + rest
      case None =>
        var rest := CleanMidSentenceQuotes(s[1..]);
        RepairKeep(s, rest);
        [s[0]] + rest
  }

  /**
   * r has the length of s and each of its characters is the one of s, a space
   * for a whitespace character, or an apostrophe for a double quote.
   */
  predicate PositionwiseRepair(s: string, r: string)
  {
    && |r| == |s|
    && forall k :: 0 <= k < |s| ==>
      r[k] == s[k] || (IsSpace(s[k]) && r[k] == ' ') || (s[k] == '"' && r[k] == '\'')
  }

  /** Replacing a match and repairing what follows it repairs the whole. */
  lemma RepairMatch(s: string, j: nat, rest: string)
    requires QuoteMatch(s) == Some(j) && PositionwiseRepair(s[j + 2..], rest)
    ensures PositionwiseRepair(s, " '" + s[2..j] + "' " + rest)
  {
    var r := " '" + s[2..j] + "' " + rest;
    forall k | 0 <= k < |s| ensures r[k] == s[k] || (IsSpace(s[k]) && r[k] == ' ') || (s[k] == '"' && r[k] == '\'') {
      if j + 2 <= k {
        assert r[k] == rest[k - (j + 2)] && s[k] == s[j + 2..][k - (j + 2)];
      }
    }
  }

  /** Keeping the first character and repairing the rest repairs the whole. */
  lemma RepairKeep(s: string, rest: string)
    requires s != [] && PositionwiseRepair(s[1..], rest)
    ensures PositionwiseRepair(s, [s[0]] + rest)
  {
    assert forall k :: 1 <= k < |s| ==> s[k] == s[1..][k - 1];
  }

  /**
   * The positions where `re.sub` replaces a match: scanning left to right, a
   * match at the front is taken and the scan resumes after it; otherwise the
   * scan moves on by one character.
   */
  ghost function MatchStarts(s: string): (starts: set<nat>)
    ensures forall p :: p in starts ==> p < |s|
    decreases |s|
  {
    if s == [] then {}
    else
      match QuoteMatch(s)
      case Some(j) => {0} + Shifted(MatchStarts(s[j + 2..]), j + 2)
      case None => Shifted(MatchStarts(s[1..]), 1)
  }

  /** Every position of a set moved d places on. */
  ghost function Shifted(starts: set<nat>, d: nat): (r: set<nat>)
    ensures forall p :: p in r <==> p >= d && p - d in starts
  {
    set q | q in starts :: q + d
  }

  /** Position k lies inside a match that `re.sub` replaces. */
  ghost predicate InsideMatch(s: string, k: nat)
  {
    exists p :: p in MatchStarts(s) && p <= k && QuoteMatch(s[p..]).Some? && k < p + QuoteMatch(s[p..]).value + 2
  }

  /** r differs from s only at positions inside a replaced match. */
  ghost predicate ChangedOnlyInMatches(s: string, r: string)
    requires |r| == |s|
  {
    forall k :: 0 <= k < |s| && r[k] != s[k] ==> InsideMatch(s, k)
  }

  /** A replaced match of a suffix where the scan resumes is a replaced match of the whole. */
  lemma InsideMatchShift(s: string, t: string, d: nat, k: nat)
    requires d <= k && d <= |s| && t == s[d..] && InsideMatch(t, k - d)
    requires forall q :: q in MatchStarts(t) ==> q + d in MatchStarts(s)
    ensures InsideMatch(s, k)
  {
    var q :| q in MatchStarts(t) && q <= k - d && QuoteMatch(t[q..]).Some? && k - d < q + QuoteMatch(t[q..]).value + 2;
    assert t[q..] == s[q + d..];
  }

  /** After a match at the front, the scan's later starts are those of the rest, shifted. */
  /** After a match at the front, the repair is its replacement followed by the repaired rest. */
  lemma CleanAfterMatch(s: string, j: nat)
    requires QuoteMatch(s) == Some(j)
    ensures j + 2 <= |s| && |CleanMidSentenceQuotes(s)| == |s|
    ensures CleanMidSentenceQuotes(s)[..j + 2] == " '" + s[2..j] + "' "
    ensures CleanMidSentenceQuotes(s)[j + 2..] == CleanMidSentenceQuotes(s[j + 2..])
  {
  }

  /** Without a match at the front, the repair keeps the first character and repairs the rest. */
  lemma CleanAfterKeep(s: string)
    requires s != [] && QuoteMatch(s).None?
    ensures |CleanMidSentenceQuotes(s)| == |s|
    ensures CleanMidSentenceQuotes(s)[0] == s[0]
    ensures CleanMidSentenceQuotes(s)[1..] == CleanMidSentenceQuotes(s[1..])
  {
  }

  /** If a match is at the front and the rest changes only inside matches, so does the whole. */
  lemma ChangedMatch(s: string, j: nat, r: string)
    requires QuoteMatch(s) == Some(j) && |r| == |s| && ChangedOnlyInMatches(s[j + 2..], r[j + 2..])
    ensures ChangedOnlyInMatches(s, r)
  {
    var d, t := j + 2, s[j + 2..];
    assert MatchStarts(s) == {0} + Shifted(MatchStarts(t), d);
    forall k | 0 <= k < |s| && r[k] != s[k] ensures InsideMatch(s, k) {
      if k < d {
        InsideFrontMatch(s, j, k);
      } else {
        ChangedShift(s, t, r, r[d..], d, k);
      }
    }
  }

  /** Every position of a match at the front lies inside a replaced match. */
  lemma InsideFrontMatch(s: string, j: nat, k: nat)
    requires QuoteMatch(s) == Some(j) && k < j + 2
    ensures InsideMatch(s, k)
  {
    assert 0 in MatchStarts(s) && s[0..] == s;
  }

  /** If the front is kept and the rest changes only inside matches, so does the whole. */
  lemma ChangedKeep(s: string, r: string)
    requires s != [] && QuoteMatch(s).None? && |r| == |s| && r[0] == s[0] && ChangedOnlyInMatches(s[1..], r[1..])
    ensures ChangedOnlyInMatches(s, r)
  {
    var t := s[1..];
    assert MatchStarts(s) == Shifted(MatchStarts(t), 1);
    forall k | 0 <= k < |s| && r[k] != s[k] ensures InsideMatch(s, k) {
      ChangedShift(s, t, r, r[1..], 1, k);
    }
  }

  /** A changed position behind the first d characters lies inside a match of the rest. */
  lemma ChangedShift(s: string, t: string, r: string, u: string, d: nat, k: nat)
    requires d <= k < |s| && |r| == |s| && t == s[d..] && u == r[d..] && r[k] != s[k]
    requires ChangedOnlyInMatches(t, u)
    requires Shifted(MatchStarts(t), d) <= MatchStarts(s)
    ensures InsideMatch(s, k)
  {
    assert u[k - d] == r[k] && t[k - d] == s[k];
    forall q | q in MatchStarts(t) ensures q + d in MatchStarts(s) {
      assert q + d in Shifted(MatchStarts(t), d);
    }
    InsideMatchShift(s, t, d, k);
  }

  /** The repair changes a character only inside a match that the scan replaces. */
  lemma {:induction false} ChangesOnlyInMatches(s: string)
    ensures ChangedOnlyInMatches(s, CleanMidSentenceQuotes(s))
    decreases |s|
  {
    if s != [] {
      match QuoteMatch(s)
      case Some(j) =>
        ChangesOnlyInMatches(s[j + 2..]);
        CleanAfterMatch(s, j);
        ChangedMatch(s, j, CleanMidSentenceQuotes(s));
      case None =>
        ChangesOnlyInMatches(s[1..]);
        CleanAfterKeep(s);
        ChangedKeep(s, CleanMidSentenceQuotes(s));
    }
  }

  /** At p the pattern matches, and r holds its replacement `\s"b"\s` to ` 'b' ` there. */
  ghost predicate SpanReplaced(s: string, r: string, p: nat)
    requires |r| == |s| && p <= |s|
  {
    match QuoteMatch(s[p..])
    case Some(j) => p + j + 2 <= |s| && r[p..p + j + 2] == " '" + s[p + 2..p + j] + "' "
    case None => false
  }

  /** Every match the scan takes is replaced by ` 'b' ` with its quoted text kept. */
  lemma {:induction false} SpansReplaced(s: string)
    ensures forall p :: p in MatchStarts(s) ==> SpanReplaced(s, CleanMidSentenceQuotes(s), p)
    decreases |s|
  {
    if s != [] {
      match QuoteMatch(s)
      case Some(j) =>
        SpansReplaced(s[j + 2..]);
        CleanAfterMatch(s, j);
        SpanMatchStep(s, j, s[j + 2..], CleanMidSentenceQuotes(s));
      case None =>
        SpansReplaced(s[1..]);
        CleanAfterKeep(s);
        SpanKeepStep(s, s[1..], CleanMidSentenceQuotes(s));
    }
  }

  /** SpansReplaced for a match at the front, from SpansReplaced for the rest. */
  lemma SpanMatchStep(s: string, j: nat, t: string, r: string)
    requires QuoteMatch(s) == Some(j) && t == s[j + 2..] && |r| == |s|
    requires r[..j + 2] == " '" + s[2..j] + "' "
    requires forall q :: q in MatchStarts(t) ==> SpanReplaced(t, r[j + 2..], q)
    ensures forall p :: p in MatchStarts(s) ==> SpanReplaced(s, r, p)
  {
    forall p | p in MatchStarts(s) ensures SpanReplaced(s, r, p) {
      if p == 0 {
        SpanAtFront(s, j, r);
      } else {
        SpanAfterFront(s, j, t, r, p);
      }
    }
  }

  /** The match at the front is replaced. */
  lemma SpanAtFront(s: string, j: nat, r: string)
    requires QuoteMatch(s) == Some(j) && |r| == |s| && j + 2 <= |s|
    requires r[..j + 2] == " '" + s[2..j] + "' "
    ensures SpanReplaced(s, r, 0)
  {
    assert s[0..] == s && r[0..j + 2] == r[..j + 2];
  }

  /** A later start of the scan lies in the rest, where its span is replaced. */
  lemma SpanAfterFront(s: string, j: nat, t: string, r: string, p: nat)
    requires QuoteMatch(s) == Some(j) && t == s[j + 2..] && |r| == |s|
    requires forall q :: q in MatchStarts(t) ==> SpanReplaced(t, r[j + 2..], q)
    requires p in MatchStarts(s) && p != 0
    ensures SpanReplaced(s, r, p)
  {
    assert p in Shifted(MatchStarts(t), j + 2);
    SpanShift(s, t, r, r[j + 2..], j + 2, p);
  }

  /** SpansReplaced for a kept first character, from SpansReplaced for the rest. */
  lemma SpanKeepStep(s: string, t: string, r: string)
    requires s != [] && QuoteMatch(s).None? && t == s[1..] && |r| == |s|
    requires forall q :: q in MatchStarts(t) ==> SpanReplaced(t, r[1..], q)
    ensures forall p :: p in MatchStarts(s) ==> SpanReplaced(s, r, p)
  {
    forall p | p in MatchStarts(s) ensures SpanReplaced(s, r, p) {
      assert p in Shifted(MatchStarts(t), 1);
      SpanShift(s, t, r, r[1..], 1, p);
    }
  }

  /** A replaced span of a suffix is a replaced span of the whole text. */
  lemma SpanShift(s: string, t: string, r: string, u: string, d: nat, p: nat)
    requires d <= p <= |s| && |r| == |s| && t == s[d..] && u == r[d..]
    requires SpanReplaced(t, u, p - d)
    ensures SpanReplaced(s, r, p)
  {
    var q := p - d;
    assert t[q..] == s[p..];
    var j := QuoteMatch(s[p..]).value;
    SliceOfSuffix(s, d, q + 2, q + j);
    SliceOfSuffix(r, d, q, q + j + 2);
  }

  /** A slice of a suffix is a slice of the whole, moved by the suffix's start. */
  lemma SliceOfSuffix(s: string, d: nat, a: nat, b: nat)
    requires a <= b && d + b <= |s|
    ensures s[d..][a..b] == s[d + a..d + b]
  {
  }

  /** Where a match at p of the pattern ends, or p itself when none starts there. */
  ghost function SpanEnd(s: string, p: nat): nat
    requires p <= |s|
  {
    match QuoteMatch(s[p..])
    case Some(j) => p + j + 2
    case None => p
  }

  /**
   * The matches the scan takes do not overlap: the scan resumes after each
   * match, so a later start lies at or after the end of every earlier match.
   */
  lemma {:induction false} StartsApart(s: string)
    ensures forall p, p' :: p in MatchStarts(s) && p' in MatchStarts(s) && p < p' ==> SpanEnd(s, p) <= p'
    decreases |s|
  {
    if s != [] {
      match QuoteMatch(s)
      case Some(j) =>
        var t := s[j + 2..];
        StartsApart(t);
        assert MatchStarts(s) == {0} + Shifted(MatchStarts(t), j + 2);
        forall p, p' | p in MatchStarts(s) && p' in MatchStarts(s) && p < p' ensures SpanEnd(s, p) <= p' {
          if p == 0 {
            ApartFront(s, j, t, p');
          } else {
            ApartLater(s, t, j + 2, p, p');
          }
        }
      case None =>
        var t := s[1..];
        StartsApart(t);
        assert MatchStarts(s) == Shifted(MatchStarts(t), 1);
        forall p, p' | p in MatchStarts(s) && p' in MatchStarts(s) && p < p' ensures SpanEnd(s, p) <= p' {
          ApartLater(s, t, 1, p, p');
        }
    }
  }

  /** The match at the front ends before any later start. */
  lemma ApartFront(s: string, j: nat, t: string, p': nat)
    requires QuoteMatch(s) == Some(j) && t == s[j + 2..] && p' in Shifted(MatchStarts(t), j + 2)
    ensures SpanEnd(s, 0) <= p'
  {
    assert s[0..] == s;
  }

  /** Two starts behind the first d characters are apart because they are apart in the rest. */
  lemma ApartLater(s: string, t: string, d: nat, p: nat, p': nat)
    requires d <= |s| && t == s[d..]
    requires forall q, q' :: q in MatchStarts(t) && q' in MatchStarts(t) && q < q' ==> SpanEnd(t, q) <= q'
    requires p in Shifted(MatchStarts(t), d) && p' in Shifted(MatchStarts(t), d) && p < p'
    ensures SpanEnd(s, p) <= p'
  {
    assert SpanEnd(t, p - d) <= p' - d;
    SpanEndShift(s, t, d, p);
  }

  /** The end of a match in a suffix, moved by the suffix's start. */
  lemma SpanEndShift(s: string, t: string, d: nat, p: nat)
    requires d <= p <= |s| && t == s[d..]
    ensures SpanEnd(s, p) == SpanEnd(t, p - d) + d
  {
    assert t[p - d..] == s[p..];
  }

  /** Text without `"` in front of a text that does not start with `"` is kept as it is. */
  lemma {:induction false} PlainPrefixKept(a: string, t: string)
    requires '"' !in a && (t != [] ==> t[0] != '"')
    ensures CleanMidSentenceQuotes(a + t) == a + CleanMidSentenceQuotes(t)
    decreases |a|
  {
    if a != [] {
      var s := a + t;
      assert s[1..] == a[1..] + t;
      assert QuoteMatch(s).None? by {
        if |s| >= 2 {
          assert s[1] == if |a| > 1 then a[1] else t[0];
        }
      }
      PlainPrefixKept(a[1..], t);
      assert a == [a[0]] + a[1..];
    } else {
      assert a + t == t;
    }
  }

  /**
   * The promise of the docstring: a quoted span `"b"` between two whitespace
   * characters, in text with no other `"`, becomes `'b'` between two spaces,
   * and everything around it is kept.
   */
  lemma QuotedSpanRepaired(a: string, w1: char, b: string, w2: char, c: string)
    requires '"' !in a && '"' !in b && '"' !in c && b != []
    requires IsSpace(w1) && IsSpace(w2)
    ensures CleanMidSentenceQuotes(a + [w1, '"'] + b + ['"', w2] + c) == a + " '" + b + "' " + c
  {
    var t := [w1, '"'] + b + ['"', w2] + c;
    Regroup(a, [w1, '"'], b, ['"', w2], c);
    Regroup(a, " '", b, "' ", c);
    PlainPrefixKept(a, t);
    SpanRepaired(w1, b, w2, c);
  }

  /** Concatenation regrouped so that the text in front stands apart. */
  lemma Regroup(a: string, x: string, b: string, y: string, c: string)
    ensures a + x + b + y + c == a + (x + b + y + c)
  {
  }

  /** QuotedSpanRepaired without the text in front of the span. */
  lemma SpanRepaired(w1: char, b: string, w2: char, c: string)
    requires '"' !in b && '"' !in c && b != []
    requires IsSpace(w1) && IsSpace(w2)
    ensures CleanMidSentenceQuotes([w1, '"'] + b + ['"', w2] + c) == " '" + b + "' " + c
  {
    var t := [w1, '"'] + b + ['"', w2] + c;
    var j := |b| + 2;
    SpanMatches(w1, b, w2, c);
    assert t[2..j] == b && t[j + 2..] == c;
    NoQuoteUnchanged(c);
  }

  /** The pattern matches a quoted span between whitespace, closing at its second quote. */
  lemma SpanMatches(w1: char, b: string, w2: char, c: string)
    requires '"' !in b && b != []
    requires IsSpace(w1) && IsSpace(w2)
    ensures QuoteMatch([w1, '"'] + b + ['"', w2] + c) == Some(|b| + 2)
  {
    var t := [w1, '"'] + b + ['"', w2] + c;
    var j := |b| + 2;
    assert forall k :: 2 <= k < j ==> t[k] == b[k - 2];
    assert t[j] == '"' && t[j + 1] == w2;
    assert MatchEndsAt(t, j);
  }

  /** The number of occurrences of c in s. */
  function Count(s: string, c: char): nat
  {
    if s == [] then 0 else (if s[0] == c then 1 else 0) + Count(s[1..], c)
  }

  /** A position-wise replacement that never produces c cannot add occurrences of c. */
  lemma {:induction false} CountNotIncreased(s: string, r: string, c: char)
    requires |r| == |s|
    requires forall k :: 0 <= k < |s| && r[k] == c ==> s[k] == c
    ensures Count(r, c) <= Count(s, c)
  {
    if s != [] {
      assert forall k :: 0 <= k < |s| - 1 ==> r[1..][k] == r[k + 1] && s[1..][k] == s[k + 1];
      CountNotIncreased(s[1..], r[1..], c);
    }
  }

  /** The repair never increases the number of double quotes. */
  lemma QuotesNotIncreased(s: string)
    ensures Count(CleanMidSentenceQuotes(s), '"') <= Count(s, '"')
  {
    CountNotIncreased(s, CleanMidSentenceQuotes(s), '"');
  }

  /** Text without a double quote is returned unchanged. */
  lemma {:induction false} NoQuoteUnchanged(s: string)
    requires '"' !in s
    ensures CleanMidSentenceQuotes(s) == s
    decreases |s|
  {
    if s != [] {
      assert QuoteMatch(s).None?;
      assert '"' !in s[1..];
      NoQuoteUnchanged(s[1..]);
    }
  }

  /**
   * The guard of safe_parse_json around a decoder: blank text and text that
   * strips to `{}` give the empty profile without decoding, a decoding failure
   * gives the empty profile, and otherwise the decoded object is returned.
   */
  function SafeParseJson<V>(text: string, decode: string -> Option<map<string, V>>): (profile: map<string, V>)
    ensures IsBlank(text) ==> profile == map[]
    ensures Strip(text) == "{}" ==> profile == map[]
    ensures decode(text).None? ==> profile == map[]
    ensures profile != map[] ==> decode(text) == Some(profile)
    ensures !IsBlank(text) && Strip(text) != "{}" && decode(text).Some? ==> profile == decode(text).value
  {
    if Strip(text) == [] || Strip(text) == "{}" then map[]
    else
      match decode(text)
      case Some(obj) => obj
      case None => map[]
  }
}
