/**
 * The text normalizers of the graph-population scripts (newver.py and
 * populate_neo4j.py define the same three functions): splitting a skills
 * cell, splitting a responsibilities cell, and canonicalising a role title.
 *
 * Characters are treated as ASCII: whitespace is what Python's `str.isspace`
 * and the regular-expression class `\s` accept among the ASCII characters, and
 * lower-casing maps only `A`-`Z`.
 */
module Text {
  import opened Options

  /** A table cell as the normalizers receive it: a string, or a non-string value (pandas' NaN for an empty cell). */
  datatype Cell = Str(s: string) | NonStr

  // ---------------------------------------------------------------------------
  // Characters

  /** ASCII whitespace as Python sees it: space, \t \n \v \f \r, and the separators 0x1C-0x1F. */
  predicate IsSpace(c: char)
  {
    c == ' ' || ('\t' <= c <= '\r') || ('\U{1C}' <= c <= '\U{1F}')
  }

  predicate IsUpper(c: char)
  {
    'A' <= c <= 'Z'
  }

  predicate IsAsciiAlnum(c: char)
  {
    'a' <= c <= 'z' || 'A' <= c <= 'Z' || '0' <= c <= '9'
  }

  function LowerChar(c: char): (d: char)
    ensures !IsUpper(d)
    ensures !IsUpper(c) ==> d == c
  {
    if IsUpper(c) then (c as int + 32) as char else c
  }

  /** `str.lower()` restricted to ASCII letters. */
  function Lower(s: string): (r: string)
    ensures |r| == |s|
    ensures forall i :: 0 <= i < |r| ==> !IsUpper(r[i])
    ensures forall i :: 0 <= i < |s| ==> r[i] == LowerChar(s[i])
  {
    if s == [] then [] else [LowerChar(s[0])] + Lower(s[1..])
  }

  // ---------------------------------------------------------------------------
  // Substrings: Python's `p in s`

  predicate StartsWith(s: string, p: string)
  {
    |p| <= |s| && s[..|p|] == p
  }

  /** `p in s` for strings: p occurs in s at some position. */
  predicate Contains(s: string, p: string)
    decreases |s|
  {
    StartsWith(s, p) || (s != [] && Contains(s[1..], p))
  }

  lemma {:induction false} ContainsInSuffix(s: string, i: nat, p: string)
    requires i <= |s|
    requires Contains(s[i..], p)
    ensures Contains(s, p)
    decreases i
  {
    if i > 0 {
      assert s[1..][i - 1..] == s[i..];
      ContainsInSuffix(s[1..], i - 1, p);
    }
  }

  lemma {:induction false} ContainsInPrefix(s: string, j: nat, p: string)
    requires j <= |s|
    requires Contains(s[..j], p)
    ensures Contains(s, p)
    decreases j
  {
    if StartsWith(s[..j], p) {
      assert s[..j][..|p|] == s[..|p|];
    } else {
      assert s[..j] != [] && Contains(s[..j][1..], p);
      assert s[..j][1..] == s[1..][..j - 1];
      ContainsInPrefix(s[1..], j - 1, p);
    }
  }

  /** An occurrence inside a slice is an occurrence in the whole string. */
  lemma ContainsInSlice(s: string, i: nat, j: nat, p: string)
    requires i <= j <= |s|
    requires Contains(s[i..j], p)
    ensures Contains(s, p)
  {
    assert s[i..j] == s[..j][i..];
    ContainsInSuffix(s[..j], i, p);
    ContainsInPrefix(s, j, p);
  }

  /** Every character of an occurring string is a character of the string it occurs in. */
  lemma {:induction false} ContainsChars(s: string, p: string, k: nat)
    requires Contains(s, p)
    requires k < |p|
    ensures p[k] in s
    decreases |s|
  {
    if StartsWith(s, p) {
      assert s[k] == p[k];
    } else {
      ContainsChars(s[1..], p, k);
    }
  }

  /** Two strings that occur in each other are equal. */
  lemma {:induction false} ContainsBothWays(a: string, b: string)
    requires Contains(a, b) && Contains(b, a)
    ensures a == b
  {
    ContainsLength(a, b);
    ContainsLength(b, a);
    ContainsSameLength(a, b);
  }

  lemma {:induction false} ContainsLength(s: string, p: string)
    requires Contains(s, p)
    ensures |p| <= |s|
    decreases |s|
  {
    if !StartsWith(s, p) {
      ContainsLength(s[1..], p);
    }
  }

  lemma {:induction false} ContainsSameLength(s: string, p: string)
    requires Contains(s, p) && |p| == |s|
    ensures p == s
  {
    if !StartsWith(s, p) {
      ContainsLength(s[1..], p);
    }
  }

  /** Every string occurs in itself. */
  lemma ContainsSelf(s: string)
    ensures Contains(s, s)
  {
    assert StartsWith(s, s);
  }

  // ---------------------------------------------------------------------------
  // Stripping: Python's `str.strip()`

  /** All characters are whitespace (the empty string included): `not s.strip()`. */
  predicate IsBlank(s: string)
  {
    forall i :: 0 <= i < |s| ==> IsSpace(s[i])
  }

  /** No whitespace at either end. */
  predicate IsStripped(s: string)
  {
    s == [] || (!IsSpace(s[0]) && !IsSpace(s[|s| - 1]))
  }

  /** The number of whitespace characters at the start of s. */
  function LeadingSpace(s: string): (n: nat)
    ensures n <= |s|
    ensures forall i :: 0 <= i < n ==> IsSpace(s[i])
    ensures n < |s| ==> !IsSpace(s[n])
  {
    if s != [] && IsSpace(s[0]) then 1 + LeadingSpace(s[1..]) else 0
  }

  /** The number of whitespace characters at the end of s. */
  function TrailingSpace(s: string): (n: nat)
    ensures n <= |s|
    ensures forall i :: |s| - n <= i < |s| ==> IsSpace(s[i])
    ensures n < |s| ==> !IsSpace(s[|s| - 1 - n])
  {
    if s != [] && IsSpace(s[|s| - 1]) then 1 + TrailingSpace(s[..|s| - 1]) else 0
  }

  /**
   * `s.strip()`: the slice of s left after removing whitespace at both ends.
   * It is empty exactly when s is blank; what is cut from either end is
   * whitespace.
   */
  function Strip(s: string): (r: string)
    ensures IsStripped(r)
    ensures r == [] <==> IsBlank(s)
    ensures LeadingSpace(s) + |r| <= |s| && r == s[LeadingSpace(s)..LeadingSpace(s) + |r|]
    ensures IsBlank(s[..LeadingSpace(s)]) && IsBlank(s[LeadingSpace(s) + |r|..])
  {
    var i := LeadingSpace(s);
    if i == |s| then [] else s[i..|s| - TrailingSpace(s)]
  }

  /** Stripping a stripped string changes nothing, so `strip` is idempotent. */
  lemma StrippedIsFixed(s: string)
    requires IsStripped(s)
    ensures Strip(s) == s
  {
    assert LeadingSpace(s) == 0;
    assert s != [] ==> TrailingSpace(s) == 0;
  }

  /** A property of every character survives stripping. */
  lemma StripKeepsChars(s: string, k: nat)
    requires k < |Strip(s)|
    ensures Strip(s)[k] in s
  {
    var r := Strip(s);
    assert r[k] == s[LeadingSpace(s) + k];
  }

  /** Stripping cannot make a string occur that did not occur before. */
  lemma StripKeepsAbsence(s: string, p: string)
    requires !Contains(s, p)
    ensures !Contains(Strip(s), p)
  {
    var r := Strip(s);
    var i := LeadingSpace(s);
    if Contains(r, p) {
      ContainsInSlice(s, i, i + |r|, p);
    }
  }

  // ---------------------------------------------------------------------------
  // Splitting: `re.split` on an alternation of literal separators

  /** The separators of an alternation are non-empty (so every match makes progress). */
  predicate NonEmptySeps(seps: seq<string>)
  {
    forall k :: 0 <= k < |seps| ==> seps[k] != []
  }

  /** No separator occurs anywhere in p. */
  predicate SepFree(p: string, seps: seq<string>)
  {
    forall k :: 0 <= k < |seps| ==> !Contains(p, seps[k])
  }

  /**
   * The length of the first separator (in the order of the alternation) that s
   * starts with, or 0 when the alternation does not match at the start of s.
   */
  function MatchSep(s: string, seps: seq<string>): (n: nat)
    requires NonEmptySeps(seps)
    ensures n == 0 <==> forall k :: 0 <= k < |seps| ==> !StartsWith(s, seps[k])
    ensures n > 0 ==> n <= |s| && s[..n] in seps
  {
    if seps == [] then 0
    else if StartsWith(s, seps[0]) then |seps[0]|
    else
      var n := MatchSep(s, seps[1..]);
      assert forall k :: 1 <= k < |seps| ==> seps[k] == seps[1..][k - 1];
      n
  }

  /**
   * `re.split(sep1|sep2|..., s)`: scanning left to right, cut at every
   * leftmost non-overlapping match.
   */
  function Split(s: string, seps: seq<string>): (pieces: seq<string>)
    requires NonEmptySeps(seps)
    ensures |pieces| >= 1
    decreases |s|
  {
    if s == [] then [""]
    else
      var n := MatchSep(s, seps);
      if n > 0 then [""] + Split(s[n..], seps)
      else
        var rest := Split(s[1..], seps);
        [[s[0]] + rest[0]] + rest[1..]
  }

  /** Every piece is free of separators, and the first piece is a prefix of s. */
  lemma {:induction false} SplitSepFree(s: string, seps: seq<string>)
    requires NonEmptySeps(seps)
    ensures StartsWith(s, Split(s, seps)[0])
    ensures forall k :: 0 <= k < |Split(s, seps)| ==> SepFree(Split(s, seps)[k], seps)
    decreases |s|
  {
    assert SepFree("", seps);
    if s != [] {
      var n := MatchSep(s, seps);
      if n > 0 {
        SplitSepFree(s[n..], seps);
        assert Split(s, seps) == [""] + Split(s[n..], seps);
      } else {
        var rest := Split(s[1..], seps);
        SplitSepFree(s[1..], seps);
        var first := [s[0]] + rest[0];
        assert Split(s, seps) == [first] + rest[1..];
        assert first == s[..|first|];
        assert SepFree(first, seps) by {
          forall k | 0 <= k < |seps| ensures !Contains(first, seps[k]) {
            assert first[1..] == rest[0];
          }
        }
      }
    }
  }

  /**
   * The cuts are leftmost: the alternation matches at no position inside the
   * first piece, and it does match right after it when there is a next piece.
   */
  lemma {:induction false} SplitLeftmost(s: string, seps: seq<string>)
    requires NonEmptySeps(seps)
    ensures |Split(s, seps)[0]| <= |s|
    ensures forall i :: 0 <= i < |Split(s, seps)[0]| ==> MatchSep(s[i..], seps) == 0
    ensures |Split(s, seps)| > 1 ==> MatchSep(s[|Split(s, seps)[0]|..], seps) > 0
    decreases |s|
  {
    if s != [] {
      var n := MatchSep(s, seps);
      if n > 0 {
        assert Split(s, seps)[0] == "";
        assert s[0..] == s;
      } else {
        var rest := Split(s[1..], seps);
        SplitLeftmost(s[1..], seps);
        SplitSepFree(s[1..], seps);
        var first := [s[0]] + rest[0];
        assert Split(s, seps) == [first] + rest[1..];
        forall i | 0 <= i < |first| ensures MatchSep(s[i..], seps) == 0 {
          if i > 0 {
            assert s[i..] == s[1..][i - 1..];
          } else {
            assert s[0..] == s;
          }
        }
        if |rest| > 1 {
          assert s[|first|..] == s[1..][|rest[0]|..];
        }
      }
    }
  }

  /** The separators that `Split` cut out, in order. */
  function Cuts(s: string, seps: seq<string>): (cuts: seq<string>)
    requires NonEmptySeps(seps)
    ensures forall k :: 0 <= k < |cuts| ==> cuts[k] in seps
    decreases |s|
  {
    if s == [] then []
    else
      var n := MatchSep(s, seps);
      if n > 0 then [s[..n]] + Cuts(s[n..], seps)
      else Cuts(s[1..], seps)
  }

  /** pieces[0] + cuts[0] + pieces[1] + ... + cuts[n-1] + pieces[n] */
  function Interleave(pieces: seq<string>, cuts: seq<string>): string
    requires |pieces| == |cuts| + 1
  {
    if cuts == [] then pieces[0] else pieces[0] + cuts[0] + Interleave(pieces[1..], cuts[1..])
  }

  lemma {:induction false} InterleaveCons(c: char, pieces: seq<string>, cuts: seq<string>)
    requires |pieces| == |cuts| + 1
    ensures Interleave([[c] + pieces[0]] + pieces[1..], cuts) == [c] + Interleave(pieces, cuts)
  {
    var ps := [[c] + pieces[0]] + pieces[1..];
    if cuts != [] {
      assert ps[1..] == pieces[1..];
    }
  }

  /** Splitting loses nothing: the pieces glued back with the cut separators give the input. */
  lemma {:induction false} SplitRoundTrip(s: string, seps: seq<string>)
    requires NonEmptySeps(seps)
    ensures |Split(s, seps)| == |Cuts(s, seps)| + 1
    ensures Interleave(Split(s, seps), Cuts(s, seps)) == s
    decreases |s|
  {
    if s != [] {
      var n := MatchSep(s, seps);
      if n > 0 {
        SplitRoundTrip(s[n..], seps);
        SplitRoundTripCut(s, seps, n);
      } else {
        SplitRoundTrip(s[1..], seps);
        SplitRoundTripChar(s, seps);
      }
    }
  }

  /** The round trip extends over a separator at the start of s. */
  lemma SplitRoundTripCut(s: string, seps: seq<string>, n: nat)
    requires NonEmptySeps(seps) && s != [] && n == MatchSep(s, seps) && n > 0
    requires |Split(s[n..], seps)| == |Cuts(s[n..], seps)| + 1
    requires Interleave(Split(s[n..], seps), Cuts(s[n..], seps)) == s[n..]
    ensures |Split(s, seps)| == |Cuts(s, seps)| + 1
    ensures Interleave(Split(s, seps), Cuts(s, seps)) == s
  {
    SplitAtCut(s, seps, n);
    InterleaveCut(s, n, Split(s[n..], seps), Cuts(s[n..], seps));
  }

  lemma SplitAtCut(s: string, seps: seq<string>, n: nat)
    requires NonEmptySeps(seps) && s != [] && n == MatchSep(s, seps) && n > 0
    ensures Split(s, seps) == [""] + Split(s[n..], seps)
    ensures Cuts(s, seps) == [s[..n]] + Cuts(s[n..], seps)
  {
  }

  lemma InterleaveCut(s: string, n: nat, pieces: seq<string>, cuts: seq<string>)
    requires n <= |s| && |pieces| == |cuts| + 1 && Interleave(pieces, cuts) == s[n..]
    ensures Interleave([""] + pieces, [s[..n]] + cuts) == s
  {
    SplitRoundTripStep(s[..n], pieces, cuts);
    assert s == s[..n] + s[n..];
  }

  /** The round trip extends over a character at the start of s that starts no separator. */
  lemma SplitRoundTripChar(s: string, seps: seq<string>)
    requires NonEmptySeps(seps) && s != [] && MatchSep(s, seps) == 0
    requires |Split(s[1..], seps)| == |Cuts(s[1..], seps)| + 1
    requires Interleave(Split(s[1..], seps), Cuts(s[1..], seps)) == s[1..]
    ensures |Split(s, seps)| == |Cuts(s, seps)| + 1
    ensures Interleave(Split(s, seps), Cuts(s, seps)) == s
  {
    var ps', cs' := Split(s[1..], seps), Cuts(s[1..], seps);
    assert Split(s, seps) == [[s[0]] + ps'[0]] + ps'[1..];
    assert Cuts(s, seps) == cs';
    InterleaveCons(s[0], ps', cs');
  }

  lemma SplitRoundTripStep(cut: string, pieces: seq<string>, cuts: seq<string>)
    requires |pieces| == |cuts| + 1
    ensures Interleave([""] + pieces, [cut] + cuts) == cut + Interleave(pieces, cuts)
  {
    var ps, cs := [""] + pieces, [cut] + cuts;
    assert ps[1..] == pieces && cs[1..] == cuts;
    assert Interleave(ps, cs) == ps[0] + cs[0] + Interleave(ps[1..], cs[1..]);
  }

  /** Every piece stripped, in order. */
  function StripEach(pieces: seq<string>): seq<string>
  {
    seq(|pieces|, k requires 0 <= k < |pieces| => Strip(pieces[k]))
  }

  /** The non-empty strings of xs, in order. */
  function NonEmpty(xs: seq<string>): (r: seq<string>)
    ensures |r| <= |xs|
    ensures forall k :: 0 <= k < |r| ==> r[k] != []
  {
    if xs == [] then [] else (if xs[0] == [] then [] else [xs[0]]) + NonEmpty(xs[1..])
  }

  /** Every element of NonEmpty(xs) is an element of xs. */
  lemma {:induction false} NonEmptyOrigin(xs: seq<string>, k: nat) returns (j: nat)
    requires k < |NonEmpty(xs)|
    ensures j < |xs| && NonEmpty(xs)[k] == xs[j]
  {
    var front := if xs[0] == [] then [] else [xs[0]];
    assert NonEmpty(xs) == front + NonEmpty(xs[1..]);
    if k < |front| {
      j := 0;
    } else {
      var j' := NonEmptyOrigin(xs[1..], k - |front|);
      j := j' + 1;
    }
  }

  /** Every non-empty element of xs is kept. */
  lemma {:induction false} NonEmptyKeeps(xs: seq<string>, j: nat)
    requires j < |xs| && xs[j] != []
    ensures xs[j] in NonEmpty(xs)
  {
    var front := if xs[0] == [] then [] else [xs[0]];
    assert NonEmpty(xs) == front + NonEmpty(xs[1..]);
    if j > 0 {
      NonEmptyKeeps(xs[1..], j - 1);
    }
  }

  /** Dropping the empty strings keeps a sequence of stripped strings stripped. */
  lemma NonEmptyStripped(xs: seq<string>)
    requires forall k :: 0 <= k < |xs| ==> IsStripped(xs[k])
    ensures forall k :: 0 <= k < |NonEmpty(xs)| ==> IsStripped(NonEmpty(xs)[k])
  {
    forall k | 0 <= k < |NonEmpty(xs)| ensures IsStripped(NonEmpty(xs)[k]) {
      var j := NonEmptyOrigin(xs, k);
    }
  }

  /** `[p.strip() for p in pieces if p.strip()]` */
  function StripNonBlank(pieces: seq<string>): (r: seq<string>)
    ensures |r| <= |pieces|
    ensures forall k :: 0 <= k < |r| ==> r[k] != [] && IsStripped(r[k])
  {
    NonEmptyStripped(StripEach(pieces));
    NonEmpty(StripEach(pieces))
  }

  /** Every kept element is the stripped form of some input piece. */
  lemma StripNonBlankOrigin(pieces: seq<string>, k: nat) returns (j: nat)
    requires k < |StripNonBlank(pieces)|
    ensures j < |pieces| && StripNonBlank(pieces)[k] == Strip(pieces[j])
  {
    j := NonEmptyOrigin(StripEach(pieces), k);
  }

  /** Every input piece that is not blank is kept, stripped. */
  lemma StripNonBlankKeeps(pieces: seq<string>, j: nat)
    requires j < |pieces| && Strip(pieces[j]) != []
    ensures Strip(pieces[j]) in StripNonBlank(pieces)
  {
    NonEmptyKeeps(StripEach(pieces), j);
  }

  /** Stripped pieces of separator-free pieces are separator-free. */
  lemma {:induction false} StripNonBlankSepFree(pieces: seq<string>, seps: seq<string>)
    requires forall k :: 0 <= k < |pieces| ==> SepFree(pieces[k], seps)
    ensures forall k :: 0 <= k < |StripNonBlank(pieces)| ==> SepFree(StripNonBlank(pieces)[k], seps)
  {
    var r := StripNonBlank(pieces);
    forall k | 0 <= k < |r| ensures SepFree(r[k], seps) {
      var j := StripNonBlankOrigin(pieces, k);
      forall m | 0 <= m < |seps| ensures !Contains(r[k], seps[m]) {
        StripKeepsAbsence(pieces[j], seps[m]);
      }
    }
  }

  // ---------------------------------------------------------------------------
  // Parenthesised asides: `re.sub(r"\(.*?\)", "", s)`

  /**
   * The position, in t, of the `)` that closes a `(` standing just before t:
   * the first `)` of t, provided no line break comes before it (`.` does not
   * match a newline).
   */
  function FindClose(t: string): (r: Option<nat>)
    ensures r.Some? ==> r.value < |t| && t[r.value] == ')'
    ensures r.Some? ==> forall k :: 0 <= k < r.value ==> t[k] != ')' && t[k] != '\n'
    ensures r.None? ==> forall k :: 0 <= k < |t| && t[k] == ')' ==> '\n' in t[..k]
  {
    if t == [] then None
    else if t[0] == ')' then Some(0)
    else if t[0] == '\n' then
      assert forall k :: 0 < k < |t| ==> t[..k][0] == '\n';
      None
    else
      match FindClose(t[1..])
      case Some(j) => Some(j + 1)
      case None =>
        assert forall k :: 1 <= k < |t| ==> t[1..][..k - 1] == t[..k][1..];
        None
  }

  /** The aside pattern matches nowhere in s. */
  predicate NoAside(s: string)
  {
    forall i :: 0 <= i < |s| && s[i] == '(' ==> FindClose(s[i + 1..]).None?
  }

  /** Remove every leftmost, non-overlapping `(...)` aside (no line break inside). */
  function RemoveParens(s: string): (r: string)
    ensures |r| <= |s|
    ensures '(' !in s ==> r == s
    decreases |s|
  {
    if s == [] then []
    else if s[0] == '(' then
      match FindClose(s[1..])
      case Some(j) => RemoveParens(s[j + 2..])
      case None => [s[0]] + RemoveParens(s[1..])
    else
      assert '(' !in s ==> '(' !in s[1..];
      [s[0]] + RemoveParens(s[1..])
  }

  /** Text with no closing `)` before its first line break keeps that property once asides are removed. */
  lemma {:induction false} RemoveParensKeepsUnclosed(t: string)
    requires FindClose(t).None?
    ensures FindClose(RemoveParens(t)).None?
    decreases |t|
  {
    if t != [] && t[0] != '\n' {
      if t[0] == '(' {
        assert FindClose(t[1..]).None?;
      }
      RemoveParensKeepsUnclosed(t[1..]);
      assert RemoveParens(t)[1..] == RemoveParens(t[1..]);
    }
  }

  /** RemoveParens keeps a first character that does not open a closed aside. */
  lemma RemoveParensAtKept(s: string)
    requires s != [] && !(s[0] == '(' && FindClose(s[1..]).Some?)
    ensures RemoveParens(s) == [s[0]] + RemoveParens(s[1..])
  {
  }

  /** Putting a character in front of aside-free text keeps it aside-free unless it opens an aside. */
  lemma NoAsideCons(x: char, rest: string)
    requires NoAside(rest)
    requires x == '(' ==> FindClose(rest).None?
    ensures NoAside([x] + rest)
  {
    var r := [x] + rest;
    forall i | 0 <= i < |r| && r[i] == '(' ensures FindClose(r[i + 1..]).None? {
      if i == 0 {
        assert r[1..] == rest;
      } else {
        assert r[i + 1..] == rest[i - 1 + 1..];
        assert rest[i - 1] == '(';
      }
    }
  }

  /** After the substitution the aside pattern matches nowhere: every aside was removed. */
  lemma {:induction false} RemoveParensRemovesAll(s: string)
    ensures NoAside(RemoveParens(s))
    decreases |s|
  {
    if s != [] {
      if s[0] == '(' && FindClose(s[1..]).Some? {
        RemoveParensAtOpen(s, FindClose(s[1..]).value);
        RemoveParensRemovesAll(s[FindClose(s[1..]).value + 2..]);
      } else {
        RemoveParensAtKept(s);
        RemoveParensRemovesAll(s[1..]);
        if s[0] == '(' {
          RemoveParensKeepsUnclosed(s[1..]);
        }
        NoAsideCons(s[0], RemoveParens(s[1..]));
      }
    }
  }

  // ---------------------------------------------------------------------------
  // The three normalizers

  const SkillSeparators: seq<string> := [",", " and "]
  const PhraseSeparators: seq<string> := [",", ".", " and "]

  /**
   * clean_and_split_skills: a non-string or blank cell gives no skills;
   * otherwise asides are removed, the text is split on `,` and ` and `, and the
   * stripped non-empty pieces are kept.
   */
  function CleanAndSplitSkills(cell: Cell): (skills: seq<string>)
    ensures (!cell.Str? || IsBlank(cell.s)) ==> skills == []
    ensures forall k :: 0 <= k < |skills| ==> skills[k] != [] && IsStripped(skills[k])
    ensures forall k :: 0 <= k < |skills| ==> SepFree(skills[k], SkillSeparators)
  {
    if !cell.Str? || Strip(cell.s) == [] then []
    else
      var pieces := Split(RemoveParens(cell.s), SkillSeparators);
      SplitSepFree(RemoveParens(cell.s), SkillSeparators);
      StripNonBlankSepFree(pieces, SkillSeparators);
      StripNonBlank(pieces)
  }

  /**
   * extract_keywords_from_responsibilities: a non-string or blank cell gives no
   * phrases; otherwise the text is split on `,`, `.` and ` and `, and the
   * stripped non-empty pieces are kept.
   */
  function ExtractKeywords(cell: Cell): (phrases: seq<string>)
    ensures (!cell.Str? || IsBlank(cell.s)) ==> phrases == []
    ensures forall k :: 0 <= k < |phrases| ==> phrases[k] != [] && IsStripped(phrases[k])
    ensures forall k :: 0 <= k < |phrases| ==> SepFree(phrases[k], PhraseSeparators)
  {
    if !cell.Str? || Strip(cell.s) == [] then []
    else
      var pieces := Split(cell.s, PhraseSeparators);
      SplitSepFree(cell.s, PhraseSeparators);
      StripNonBlankSepFree(pieces, PhraseSeparators);
      StripNonBlank(pieces)
  }

  /** The characters standardize_role keeps: `[a-zA-Z0-9\s]`. */
  predicate IsRoleChar(c: char)
  {
    IsAsciiAlnum(c) || IsSpace(c)
  }

  predicate AllRoleChars(s: string)
  {
    forall i :: 0 <= i < |s| ==> IsRoleChar(s[i])
  }

  /** `re.sub(r"[^a-zA-Z0-9\s]", "", s)`: the subsequence of kept characters. */
  function KeepRoleChars(s: string): (r: string)
    ensures |r| <= |s|
    ensures AllRoleChars(r)
    ensures AllRoleChars(s) ==> r == s
    ensures forall i :: 0 <= i < |s| && IsRoleChar(s[i]) ==> s[i] in r
    ensures forall i :: 0 <= i < |r| ==> r[i] in s
  {
    if s == [] then []
    else
      var rest := KeepRoleChars(s[1..]);
      assert forall i :: 1 <= i < |s| ==> s[i] == s[1..][i - 1];
      if IsRoleChar(s[0]) then [s[0]] + rest else rest
  }

  /**
   * standardize_role: a non-string cell is returned unchanged; a string loses
   * every character outside `[a-zA-Z0-9\s]` and is then stripped.
   */
  function StandardizeRole(cell: Cell): (r: Cell)
    ensures !cell.Str? ==> r == cell
    ensures cell.Str? ==> r.Str? && IsStripped(r.s) && AllRoleChars(r.s)
  {
    match cell
    case NonStr => NonStr
    case Str(s) =>
      var t := KeepRoleChars(s);
      var r := Strip(t);
      assert AllRoleChars(r) by {
        forall k | 0 <= k < |r| ensures IsRoleChar(r[k]) {
          StripKeepsChars(t, k);
        }
      }
      Str(r)
  }

  /** Standardizing an already standardized role returns it unchanged. */
  lemma StandardizeRoleIdempotent(cell: Cell)
    ensures StandardizeRole(StandardizeRole(cell)) == StandardizeRole(cell)
  {
    if cell.Str? {
      var r := StandardizeRole(cell).s;
      assert KeepRoleChars(r) == r;
      StrippedIsFixed(r);
    }
  }

  /**
   * Text without `(` is split as it is: the skills are the stripped non-blank
   * pieces of the text itself.
   */
  lemma SkillsWithoutAsides(s: string)
    requires '(' !in s && !IsBlank(s)
    ensures CleanAndSplitSkills(Str(s)) == StripNonBlank(Split(s, SkillSeparators))
  {
    assert Strip(s) != [];
    assert RemoveParens(s) == s;
  }

  /** The first `)` of b + ")" + c closes the aside when b has no `)` and no line break. */
  lemma {:induction false} FindCloseAt(b: string, c: string)
    requires ')' !in b && '\n' !in b
    ensures FindClose(b + ")" + c) == Some(|b|)
    decreases |b|
  {
    if b != [] {
      assert (b + ")" + c)[1..] == b[1..] + ")" + c;
      FindCloseAt(b[1..], c);
    }
  }

  /** RemoveParens at a `(` whose aside closes at offset j of the rest. */
  lemma RemoveParensAtOpen(s: string, j: nat)
    requires s != [] && s[0] == '(' && FindClose(s[1..]) == Some(j)
    ensures j + 2 <= |s| && RemoveParens(s) == RemoveParens(s[j + 2..])
  {
  }

  /** RemoveParens keeps a first character that is not `(`. */
  lemma RemoveParensAtChar(s: string)
    requires s != [] && s[0] != '('
    ensures RemoveParens(s) == [s[0]] + RemoveParens(s[1..])
  {
  }

  /** An aside at the very front is cut out together with its parentheses. */
  lemma RemoveParensFrontAside(b: string, c: string)
    requires ')' !in b && '\n' !in b
    ensures RemoveParens("(" + b + ")" + c) == RemoveParens(c)
  {
    var s := "(" + b + ")" + c;
    assert s[0] == '(';
    assert s[1..] == b + ")" + c;
    FindCloseAt(b, c);
    RemoveParensAtOpen(s, |b|);
    assert s[|b| + 2..] == c;
  }

  /** Text without `(` in front of anything passes through RemoveParens unchanged. */
  lemma {:induction false} RemoveParensPlainPrefix(a: string, t: string)
    requires '(' !in a
    ensures RemoveParens(a + t) == a + RemoveParens(t)
    decreases |a|
  {
    if a != [] {
      var s := a + t;
      assert s[0] == a[0] && s[1..] == a[1..] + t;
      RemoveParensAtChar(s);
      RemoveParensPlainPrefix(a[1..], t);
      assert a == [a[0]] + a[1..];
    } else {
      assert a + t == t;
    }
  }

  /** One aside after text without `(` is cut out together with its parentheses. */
  lemma RemoveParensAside(a: string, b: string, c: string)
    requires '(' !in a && ')' !in b && '\n' !in b
    ensures RemoveParens(a + "(" + b + ")" + c) == a + RemoveParens(c)
  {
    var t := "(" + b + ")" + c;
    assert a + "(" + b + ")" + c == a + t;
    RemoveParensPlainPrefix(a, t);
    RemoveParensFrontAside(b, c);
  }

  /**
   * An aside is removed before splitting: the skills of a + "(" + b + ")" + c
   * are those of a + c, so "Python (advanced), SQL" is split as "Python , SQL".
   */
  lemma AsideRemovedBeforeSplit(a: string, b: string, c: string)
    requires '(' !in a && '(' !in c && ')' !in b && '\n' !in b
    requires !IsBlank(a + "(" + b + ")" + c)
    ensures CleanAndSplitSkills(Str(a + "(" + b + ")" + c)) == StripNonBlank(Split(a + c, SkillSeparators))
  {
    RemoveParensAside(a, b, c);
    assert Strip(a + "(" + b + ")" + c) != [];
  }
}
