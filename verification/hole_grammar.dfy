/** The inline hole marker `[[HOLE:<id>|<text>]]` and what it means for the
    marker pattern to match at the start of a string.

    The pattern is `\[\[HOLE:([0-9a-fA-F-]{6,})\|([\s\S]*?)\]\]`. Since `|` is
    not an id character, the id is the maximal run of id characters after the
    opening, and it must be followed by `|`. The text is lazy: it ends at the
    first `]]` after the bar. A match is therefore unique when it exists. */
module HoleGrammar {
  import opened Wrappers

  const Open: string := "[[HOLE:"
  const Close: string := "]]"
  const Bar: char := '|'
  const MinIdLength: nat := 6

  /** One marker as the extractor reports it. */
  datatype HoleMatch = HoleMatch(id: string, text: string)

  /** A marker recognised at the start of a string, with the number of
      characters it spans. */
  datatype Found = Found(hole: HoleMatch, end: nat)

  /** The character class `[0-9a-fA-F-]`. */
  predicate IsIdChar(c: char) {
    ('0' <= c <= '9') || ('a' <= c <= 'f') || ('A' <= c <= 'F') || c == '-'
  }

  /** At least six characters of the id class. */
  predicate IsId(id: string) {
    |id| >= MinIdLength && forall k | 0 <= k < |id| :: IsIdChar(id[k])
  }

  /** `]]` starts at position k of s. */
  predicate HasCloseAt(s: string, k: int) {
    0 <= k && k + 1 < |s| && s[k] == ']' && s[k + 1] == ']'
  }

  predicate ContainsClose(s: string) {
    exists k | 0 <= k < |s| :: HasCloseAt(s, k)
  }

  /** A text the lazy group can produce: the first `]]` after the bar is the
      one right after the text, so the text has no `]]` and does not end with
      `]` (or `]` followed by the closing `]]` would close earlier). */
  predicate IsText(t: string) {
    !ContainsClose(t) && (|t| == 0 || t[|t| - 1] != ']')
  }

  predicate WellFormed(h: HoleMatch) {
    IsId(h.id) && IsText(h.text)
  }

  /** The marker spelling of a hole, as the editor writes it. */
  function Encode(h: HoleMatch): string {
    Open + h.id + [Bar] + h.text + Close
  }

  /** Length of the run of id characters of s starting at j. */
  function IdRun(s: string, j: nat): (n: nat)
    requires j <= |s|
    ensures j + n <= |s|
    ensures forall k | j <= k < j + n :: IsIdChar(s[k])
    ensures j + n < |s| ==> !IsIdChar(s[j + n])
    decreases |s| - j
  {
    if j < |s| && IsIdChar(s[j]) then 1 + IdRun(s, j + 1) else 0
  }

  /** The first position at or after j where `]]` starts, if any. */
  function FindClose(s: string, j: nat): (r: Option<nat>)
    requires j <= |s|
    ensures r.Some? ==> j <= r.value && HasCloseAt(s, r.value)
    ensures r.Some? ==> forall k | j <= k < r.value :: !HasCloseAt(s, k)
    ensures r.None? ==> forall k | j <= k :: !HasCloseAt(s, k)
    decreases |s| - j
  {
    if j + 2 > |s| then None
    else if s[j] == ']' && s[j + 1] == ']' then Some(j)
    else FindClose(s, j + 1)
  }

  predicate StartsWith(s: string, p: string) {
    |p| <= |s| && s[..|p|] == p
  }

  /** The marker pattern applied at position 0 of s. What it reports is a
      well-formed marker (and, by MatchPrefixSound, spelled at the start of s). */
  function MatchPrefix(s: string): (r: Option<Found>)
    ensures r.Some? ==> 0 < r.value.end <= |s|
    ensures r.Some? ==> WellFormed(r.value.hole)
  {
    if !StartsWith(s, Open) then None
    else
      var n := IdRun(s, |Open|);
      var bar := |Open| + n;
      if n < MinIdLength || bar >= |s| || s[bar] != Bar then None
      else
        match FindClose(s, bar + 1)
        case None => None
        case Some(c) =>
          var h := HoleMatch(s[|Open|..bar], s[bar + 1..c]);
          TextOfFirstClose(s, bar + 1, c);
          Some(Found(h, c + 2))
  }

  /** The characters a match spans are the marker spelling of what it
      reports. */
  lemma MatchPrefixSound(s: string)
    requires MatchPrefix(s).Some?
    ensures s[..MatchPrefix(s).value.end] == Encode(MatchPrefix(s).value.hole)
  {
  }

  /** The characters strictly between j and the first `]]` at or after j form
      a text the lazy group can produce. */
  lemma TextOfFirstClose(s: string, j: nat, c: nat)
    requires j <= c && HasCloseAt(s, c)
    requires forall k | j <= k < c :: !HasCloseAt(s, k)
    ensures IsText(s[j..c])
  {
    var t := s[j..c];
    if ContainsClose(t) {
      var k :| 0 <= k < |t| && HasCloseAt(t, k);
      assert t[k] == s[j + k] && t[k + 1] == s[j + k + 1];
      assert HasCloseAt(s, j + k);
    }
    if |t| > 0 && t[|t| - 1] == ']' {
      assert HasCloseAt(s, c - 1);
    }
  }

  /** An id spelled at position j and followed by a non-id character is the
      whole run IdRun measures. */
  lemma IdRunOfId(s: string, j: nat, id: string)
    requires j + |id| < |s| && s[j..j + |id|] == id
    requires forall k | 0 <= k < |id| :: IsIdChar(id[k])
    requires !IsIdChar(s[j + |id|])
    ensures IdRun(s, j) == |id|
  {
  }

  /** A text the lazy group can produce, spelled at j and followed by `]]`,
      ends exactly where FindClose stops. */
  lemma FindCloseAfterText(s: string, j: nat, t: string)
    requires IsText(t)
    requires j + |t| + 2 <= |s| && s[j..j + |t|] == t
    requires s[j + |t|] == ']' && s[j + |t| + 1] == ']'
    ensures FindClose(s, j) == Some(j + |t|)
  {
    var c := j + |t|;
    forall k | j <= k < c
      ensures !HasCloseAt(s, k)
    {
      assert s[k] == t[k - j];
      if k + 1 < c {
        assert s[k + 1] == t[k - j + 1];
        assert !HasCloseAt(t, k - j);
      }
    }
    assert HasCloseAt(s, c);
  }

  /** The other direction of MatchPrefix's contract: a well-formed marker
      spelled at the start of s is exactly what the pattern reports there,
      whatever follows it. */
  lemma MatchPrefixEncoded(h: HoleMatch, rest: string)
    requires WellFormed(h)
    ensures MatchPrefix(Encode(h) + rest) == Some(Found(h, |Encode(h)|))
  {
    var s := Encode(h) + rest;
    var bar := |Open| + |h.id|;
    var c := bar + 1 + |h.text|;
    assert s[..|Open|] == Open;
    assert s[|Open|..bar] == h.id;
    assert s[bar] == Bar;
    assert s[bar + 1..c] == h.text;
    assert s[c] == ']' && s[c + 1] == ']';
    IdRunOfId(s, |Open|, h.id);
    FindCloseAfterText(s, bar + 1, h.text);
    MatchPrefixOfParts(s, |h.id|, c);
  }

  /** MatchPrefix assembled from its parts: the opener, an id run of length n
      followed by the bar, and the first `]]` after the bar at c. */
  lemma MatchPrefixOfParts(s: string, n: nat, c: nat)
    requires StartsWith(s, Open) && |Open| + n < |s| && IdRun(s, |Open|) == n
    requires MinIdLength <= n && s[|Open| + n] == Bar
    requires FindClose(s, |Open| + n + 1) == Some(c)
    ensures MatchPrefix(s) == Some(Found(HoleMatch(s[|Open|..|Open| + n], s[|Open| + n + 1..c]), c + 2))
  {
  }

  /** A match at the start of s is exactly a well-formed marker spelled there:
      the contract of MatchPrefix and MatchPrefixEncoded together. */
  lemma MatchPrefixIff(s: string, h: HoleMatch, e: nat)
    ensures MatchPrefix(s) == Some(Found(h, e))
        <==> WellFormed(h) && e == |Encode(h)| && StartsWith(s, Encode(h))
  {
    if WellFormed(h) && e == |Encode(h)| && StartsWith(s, Encode(h)) {
      assert s == Encode(h) + s[e..];
      MatchPrefixEncoded(h, s[e..]);
    }
    if MatchPrefix(s) == Some(Found(h, e)) {
      MatchPrefixSound(s);
    }
  }
}
