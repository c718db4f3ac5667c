/**
 * The token patterns of fincheck all have one shape,
 *   `((?<=[^\w])|(?<=^))` BODY `(?=[^\w]|$)`,
 * where BODY is a fixed-length run of character classes. This module models such a
 * pattern as the sequence of its classes, the boundary rule as a predicate on a
 * position, and Python's `re.finditer` as a left-to-right scan that resumes after
 * each match. `Accepted` is the reference: every matching position, in order.
 */
module Scan {
  import opened Chars
  import opened Seqs

  /** One character class of a token pattern. */
  datatype CharClass =
    | Digit      // [0-9] and \d
    | Letter     // [A-Za-z]
    | Alnum      // [A-Za-z0-9]
    | SedolChar  // [0-9BCDFGHJKLMNPQRSTVWXYZ]

  predicate InClass(c: char, cls: CharClass)
  {
    match cls
    case Digit => IsDigit(c)
    case Letter => IsLetter(c)
    case Alnum => IsAlnum(c)
    case SedolChar => IsDigit(c) || IsConsonant(c)
  }

  /** A capital letter other than a vowel. */
  predicate IsConsonant(c: char)
  {
    IsUpper(c) && c != 'A' && c != 'E' && c != 'I' && c != 'O' && c != 'U'
  }

  /** The regex spells the SEDOL class out as `[0-9BCDFGHJKLMNPQRSTVWXYZ]`: the same characters. */
  lemma SedolClassLiteral(c: char)
    ensures InClass(c, SedolChar) <==> IsDigit(c) || c in "BCDFGHJKLMNPQRSTVWXYZ"
  {
    var consonants := "BCDFGHJKLMNPQRSTVWXYZ";
    assert forall i :: 0 <= i < |consonants| ==> IsConsonant(consonants[i]);
    if IsConsonant(c) {
      var skipped := (if c > 'A' then 1 else 0) + (if c > 'E' then 1 else 0) + (if c > 'I' then 1 else 0)
                   + (if c > 'O' then 1 else 0) + (if c > 'U' then 1 else 0);
      assert consonants[c as int - 'A' as int - skipped] == c;
    }
  }

  /** The body of a token pattern: a non-empty, fixed-length run of classes. */
  type Pattern = p: seq<CharClass> | |p| > 0 witness [Digit]

  /** `t` matches the body of `pat` character by character. */
  predicate Fits(t: string, pat: Pattern)
  {
    |t| == |pat| && forall j :: 0 <= j < |t| ==> InClass(t[j], pat[j])
  }

  /**
   * The whole pattern, boundaries included, matches at position `i` of `s`.
   * Every class admits only word characters, so a match is one run of `\w`.
   */
  predicate MatchesAt(s: string, pat: Pattern, i: nat): (b: bool)
    ensures b ==> i + |pat| <= |s| && forall j :: i <= j < i + |pat| ==> IsWordChar(s[j])
  {
    && i + |pat| <= |s|
    && Fits(s[i..i + |pat|], pat)
    && (i == 0 || !IsWordChar(s[i - 1]))
    && (i + |pat| == |s| || !IsWordChar(s[i + |pat|]))
  }

  /** Two matches of the same pattern never overlap. */
  lemma MatchesDisjoint(s: string, pat: Pattern, i: nat, j: nat)
    requires i < j && MatchesAt(s, pat, i) && MatchesAt(s, pat, j)
    ensures i + |pat| <= j
  {
  }

  /** What `re.finditer` yields for one match: where it starts and its text, `m.group(0)`. */
  datatype Match = Match(start: nat, text: string)

  /** `m` is a match of `pat` in `s`, boundaries included, and carries that token's text. */
  predicate IsMatch(s: string, pat: Pattern, m: Match)
  {
    MatchesAt(s, pat, m.start) && m.text == s[m.start..m.start + |pat|]
  }

  /**
   * `re.finditer` over `s[pos..]`: try each position from left to right; after a
   * match, resume at its end.
   */
  function Finditer(s: string, pat: Pattern, pos: nat): (ms: seq<Match>)
    ensures forall k :: 0 <= k < |ms| ==> pos <= ms[k].start && |ms[k].text| == |pat|
    ensures forall k, l :: 0 <= k < l < |ms| ==> ms[k].start + |pat| <= ms[l].start
    decreases |s| - pos
  {
    if pos + |pat| > |s| then []
    else if MatchesAt(s, pat, pos) then [Match(pos, s[pos..pos + |pat|])] + Finditer(s, pat, pos + |pat|)
    else Finditer(s, pat, pos + 1)
  }

  /**
   * Reference definition: every position at or after `pos` where the pattern
   * matches and whose token `accept` admits, in ascending order.
   */
  function Accepted(s: string, pat: Pattern, accept: string -> bool, pos: nat): (ms: seq<Match>)
    decreases |s| - pos
  {
    if pos + |pat| > |s| then []
    else
      var rest := Accepted(s, pat, accept, pos + 1);
      var t := s[pos..pos + |pat|];
      if MatchesAt(s, pat, pos) && accept(t) then [Match(pos, t)] + rest else rest
  }

  /** The texts of a list of matches, as `[m.group(0) for m in ms]`. */
  function Groups(ms: seq<Match>): (ts: seq<string>)
    ensures |ts| == |ms|
    ensures forall k :: 0 <= k < |ms| ==> ts[k] == ms[k].text
  {
    if ms == [] then [] else [ms[0].text] + Groups(ms[1..])
  }

  /** Everything the scan yields is a genuine match at or after `pos`. */
  lemma {:induction false} FinditerSound(s: string, pat: Pattern, pos: nat, k: nat)
    requires k < |Finditer(s, pat, pos)|
    ensures pos <= Finditer(s, pat, pos)[k].start && IsMatch(s, pat, Finditer(s, pat, pos)[k])
    decreases |s| - pos
  {
    if MatchesAt(s, pat, pos) {
      if k > 0 {
        FinditerSound(s, pat, pos + |pat|, k - 1);
      }
    } else {
      FinditerSound(s, pat, pos + 1, k);
    }
  }

  /** Everything the reference lists is a match at or after `pos` that `accept` admits. */
  lemma {:induction false} AcceptedSound(s: string, pat: Pattern, accept: string -> bool, pos: nat, k: nat)
    requires k < |Accepted(s, pat, accept, pos)|
    ensures var m := Accepted(s, pat, accept, pos)[k];
      pos <= m.start && IsMatch(s, pat, m) && accept(m.text)
    decreases |s| - pos
  {
    var t := s[pos..pos + |pat|];
    var ms := Accepted(s, pat, accept, pos);
    var rest := Accepted(s, pat, accept, pos + 1);
    if MatchesAt(s, pat, pos) && accept(t) {
      assert ms == [Match(pos, t)] + rest;
      if k > 0 {
        assert ms[k] == rest[k - 1];
        AcceptedSound(s, pat, accept, pos + 1, k - 1);
      }
    } else {
      assert ms == rest;
      AcceptedSound(s, pat, accept, pos + 1, k);
    }
  }

  /** The reference misses no accepted position. */
  lemma {:induction false} AcceptedComplete(s: string, pat: Pattern, accept: string -> bool, pos: nat, i: nat)
    requires pos <= i && MatchesAt(s, pat, i) && accept(s[i..i + |pat|])
    ensures Match(i, s[i..i + |pat|]) in Accepted(s, pat, accept, pos)
    decreases |s| - pos
  {
    if pos < i {
      AcceptedComplete(s, pat, accept, pos + 1, i);
    }
  }

  /** The reference lists its matches left to right, and their tokens never overlap. */
  lemma {:induction false} AcceptedOrdered(s: string, pat: Pattern, accept: string -> bool, pos: nat, k: nat, l: nat)
    requires k < l < |Accepted(s, pat, accept, pos)|
    ensures Accepted(s, pat, accept, pos)[k].start + |pat| <= Accepted(s, pat, accept, pos)[l].start
    decreases |s| - pos
  {
    var t := s[pos..pos + |pat|];
    var ms := Accepted(s, pat, accept, pos);
    var rest := Accepted(s, pat, accept, pos + 1);
    if MatchesAt(s, pat, pos) && accept(t) {
      assert ms == [Match(pos, t)] + rest;
      if k == 0 {
        var m := rest[l - 1];
        AcceptedSound(s, pat, accept, pos + 1, l - 1);
        MatchesDisjoint(s, pat, pos, m.start);
      } else {
        AcceptedOrdered(s, pat, accept, pos + 1, k - 1, l - 1);
      }
    } else {
      assert ms == rest;
      AcceptedOrdered(s, pat, accept, pos + 1, k, l);
    }
  }

  /** Positions where nothing matches can be skipped without losing accepted ones. */
  lemma {:induction false} AcceptedSkip(s: string, pat: Pattern, accept: string -> bool, a: nat, b: nat)
    requires a <= b
    requires forall j :: a <= j < b ==> !MatchesAt(s, pat, j)
    ensures Accepted(s, pat, accept, a) == Accepted(s, pat, accept, b)
    decreases b - a
  {
    if a < b && a + |pat| <= |s| {
      AcceptedSkip(s, pat, accept, a + 1, b);
    }
  }

  /** Once the pattern matches at `pos`, the reference finds nothing else before the token ends. */
  lemma AcceptedAfterMatch(s: string, pat: Pattern, accept: string -> bool, pos: nat)
    requires MatchesAt(s, pat, pos)
    ensures Accepted(s, pat, accept, pos + 1) == Accepted(s, pat, accept, pos + |pat|)
  {
    forall j | pos + 1 <= j < pos + |pat|
      ensures !MatchesAt(s, pat, j)
    {
      if MatchesAt(s, pat, j) {
        MatchesDisjoint(s, pat, pos, j);
      }
    }
    AcceptedSkip(s, pat, accept, pos + 1, pos + |pat|);
  }

  lemma GroupsCons(m: Match, ms: seq<Match>)
    ensures Groups([m] + ms) == [m.text] + Groups(ms)
  {
    assert ([m] + ms)[1..] == ms;
  }

  /** The scan and the reference take the same step over a match, given that they agree after it. */
  lemma FinditerStep(s: string, pat: Pattern, accept: string -> bool, pos: nat)
    requires MatchesAt(s, pat, pos)
    requires Keep(Groups(Finditer(s, pat, pos + |pat|)), accept) == Groups(Accepted(s, pat, accept, pos + |pat|))
    ensures Keep(Groups(Finditer(s, pat, pos)), accept) == Groups(Accepted(s, pat, accept, pos))
  {
    var m := Match(pos, s[pos..pos + |pat|]);
    var found := Finditer(s, pat, pos + |pat|);
    var rest := Accepted(s, pat, accept, pos + 1);
    assert Finditer(s, pat, pos) == [m] + found;
    assert Accepted(s, pat, accept, pos) == if accept(m.text) then [m] + rest else rest;
    GroupsCons(m, found);
    KeepCons(m.text, Groups(found), accept);
    AcceptedAfterMatch(s, pat, accept, pos);
    if accept(m.text) {
      GroupsCons(m, rest);
    }
  }

  /**
   * Resuming after each match loses nothing: filtering the tokens that
   * `re.finditer` yields gives exactly the accepted tokens of the reference.
   */
  lemma {:induction false} FinditerComplete(s: string, pat: Pattern, accept: string -> bool, pos: nat)
    ensures Keep(Groups(Finditer(s, pat, pos)), accept) == Groups(Accepted(s, pat, accept, pos))
    decreases |s| - pos
  {
    if pos + |pat| > |s| {
    } else if MatchesAt(s, pat, pos) {
      FinditerComplete(s, pat, accept, pos + |pat|);
      FinditerStep(s, pat, accept, pos);
    } else {
      assert Finditer(s, pat, pos) == Finditer(s, pat, pos + 1);
      assert Accepted(s, pat, accept, pos) == Accepted(s, pat, accept, pos + 1);
      FinditerComplete(s, pat, accept, pos + 1);
    }
  }

  /** A run of word characters longer than the pattern holds no match at all. */
  lemma NoMatchInsideRun(s: string, pat: Pattern, accept: string -> bool)
    requires |s| > |pat|
    requires forall j :: 0 <= j < |s| ==> IsWordChar(s[j])
    ensures Accepted(s, pat, accept, 0) == []
  {
    var ms := Accepted(s, pat, accept, 0);
    forall i: nat | i + |pat| <= |s|
      ensures !MatchesAt(s, pat, i)
    {
      if i == 0 {
        assert IsWordChar(s[|pat|]);
      } else {
        assert IsWordChar(s[i - 1]);
      }
    }
    if ms != [] {
      AcceptedSound(s, pat, accept, 0, 0);
    }
  }
}
