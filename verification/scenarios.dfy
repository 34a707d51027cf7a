/** Worked examples: a course from editing to review, and an iteration
    advance over two holes. */
module Scenarios {
  import opened Wrappers
  import opened HoleGrammar
  import opened HoleParser
  import opened HoleStore

  /** Text with no `[` cannot start a marker anywhere. */
  predicate NoOpenBracket(p: string) {
    forall i | 0 <= i < |p| :: p[i] != '['
  }

  lemma NoMatchAtBracketFree(s: string)
    requires |s| > 0 && s[0] != '['
    ensures MatchPrefix(s).None?
  {
  }

  lemma NoOpenBracketTail(p: string)
    requires |p| > 0 && NoOpenBracket(p)
    ensures NoOpenBracket(p[1..])
  {
  }

  /** The scan passes over bracket-free text without reporting anything. */
  lemma {:induction false} MatchesSkipText(p: string, rest: string)
    requires NoOpenBracket(p)
    ensures Matches(p + rest) == Matches(rest)
  {
    if |p| == 0 {
      assert p + rest == rest;
    } else {
      var s := p + rest;
      assert s[0] == p[0];
      assert s[0..] == s;
      NoMatchAtBracketFree(s);
      MatchesSkip(s);
      assert s[1..] == p[1..] + rest;
      NoOpenBracketTail(p);
      MatchesSkipText(p[1..], rest);
    }
  }

  /** The segmentation accumulates bracket-free text as pending html. */
  lemma {:induction false} SegmentSkipText(p: string, rest: string, pending: string)
    requires NoOpenBracket(p)
    ensures SegmentFrom(p + rest, pending) == SegmentFrom(rest, pending + p)
  {
    if |p| == 0 {
      assert p + rest == rest && pending + p == pending;
    } else {
      SegmentSkipChar(p, rest, pending);
      NoOpenBracketTail(p);
      SegmentSkipText(p[1..], rest, pending + [p[0]]);
      assert pending + [p[0]] + p[1..] == pending + p;
    }
  }

  lemma SegmentSkipChar(p: string, rest: string, pending: string)
    requires |p| > 0 && NoOpenBracket(p)
    ensures SegmentFrom(p + rest, pending) == SegmentFrom(p[1..] + rest, pending + [p[0]])
  {
    var s := p + rest;
    assert s[0] == p[0];
    NoMatchAtBracketFree(s);
    SegmentFromSkip(s, pending);
    assert s[1..] == p[1..] + rest;
  }

  lemma MatchesMarker(h: HoleMatch, rest: string)
    requires WellFormed(h)
    ensures Matches(Encode(h) + rest) == [h] + Matches(rest)
  {
    MatchPrefixEncoded(h, rest);
    assert (Encode(h) + rest)[|Encode(h)|..] == rest;
  }

  lemma SegmentMarker(h: HoleMatch, rest: string, pending: string)
    requires WellFormed(h)
    ensures SegmentFrom(Encode(h) + rest, pending)
         == Flush(pending) + [Hole(h.id, h.text)] + SegmentFrom(rest, "")
  {
    MatchPrefixEncoded(h, rest);
    assert (Encode(h) + rest)[|Encode(h)|..] == rest;
  }

  const Content: string := "A [[HOLE:abc123|secret]] B"
  const Secret: HoleMatch := HoleMatch("abc123", "secret")

  lemma SecretWellFormed()
    ensures WellFormed(Secret)
  {
  }

  lemma ContentShape()
    ensures Content == "A " + Encode(Secret) + " B"
  {
  }

  /** The course text with one marker yields that one hole. */
  lemma ExtractExample()
    ensures ExtractHoles(Content) == [Secret]
  {
    SecretWellFormed();
    ContentShape();
    var rest := Encode(Secret) + " B";
    assert Content == "A " + rest;
    assert Matches(Content) == Matches(rest) by {
      MatchesSkipText("A ", rest);
    }
    assert Matches(rest) == [Secret] + Matches(" B") by {
      MatchesMarker(Secret, " B");
    }
    assert Matches(" B") == [] by {
      MatchesSkipText(" B", "");
      assert " B" + "" == " B";
    }
    assert Dedup([Secret], {}) == [Secret];
  }

  /** The same text splits into the html before the marker, the hole, and the
      html after it. */
  lemma SegmentExample()
    ensures SegmentContent(Content) == [Html("A "), Hole("abc123", "secret"), Html(" B")]
  {
    ContentShape();
    SecretWellFormed();
    SegmentAroundMarker("A ", Secret, " B");
  }

  /** A marker spelled inside the text of an earlier match: the scan resumes
      after the outer `]]`, so the inner marker is never found. */
  const Nested: string := "[[HOLE:aaaaaa|[[HOLE:bbbbbb|y]]"
  const Outer: HoleMatch := HoleMatch("aaaaaa", "[[HOLE:bbbbbb|y")
  const Inner: HoleMatch := HoleMatch("bbbbbb", "y")

  lemma SwallowedMarker()
    ensures MarkerAt(Nested, 14) && MatchPrefix(Nested[14..]) == Some(Found(Inner, |Encode(Inner)|))
    ensures Matches(Nested) == [Outer]
    ensures Inner.id !in Ids(ExtractHoles(Nested))
  {
    NestedShape();
    MatchesEncodeAll([Outer]);
    MatchPrefixEncoded(Inner, "");
    assert Ids([Outer]) == {Outer.id};
  }

  lemma NestedShape()
    ensures WellFormed(Outer) && WellFormed(Inner)
    ensures Nested == EncodeAll([Outer])
    ensures Nested[14..] == Encode(Inner) + ""
  {
    OuterWellFormed();
    NestedEncoding();
    NestedSuffix();
  }

  lemma NestedEncoding()
    ensures Nested == EncodeAll([Outer])
  {
    assert EncodeAll([Outer]) == Encode(Outer) + EncodeAll([]);
  }

  lemma NestedSuffix()
    ensures Nested[14..] == Encode(Inner) + ""
  {
  }

  lemma OuterWellFormed()
    ensures WellFormed(Outer) && WellFormed(Inner)
  {
    assert !ContainsClose(Outer.text);
  }

  /** Bracket-free content is one html segment. */
  lemma SegmentBracketFree(p: string)
    requires |p| > 0 && NoOpenBracket(p)
    ensures SegmentFrom(p, "") == [Html(p)]
  {
    SegmentSkipText(p, "", "");
    assert p + "" == p && "" + p == p;
  }

  /** Bracket-free html in front of the rest becomes pending html. */
  lemma SegmentAfterHtml(before: string, rest: string)
    requires NoOpenBracket(before)
    ensures SegmentFrom(before + rest, "") == SegmentFrom(rest, before)
  {
    SegmentSkipText(before, rest, "");
    assert "" + before == before;
  }

  /** Non-empty bracket-free html on both sides of one marker gives exactly
      three segments: the html before, the hole, the html after. */
  lemma SegmentAroundMarker(before: string, h: HoleMatch, after: string)
    requires WellFormed(h)
    requires |before| > 0 && NoOpenBracket(before)
    requires |after| > 0 && NoOpenBracket(after)
    ensures SegmentContent(before + Encode(h) + after)
         == [Html(before), Hole(h.id, h.text), Html(after)]
  {
    var rest := Encode(h) + after;
    assert before + Encode(h) + after == before + rest;
    SegmentAfterHtml(before, rest);
    SegmentMarker(h, after, before);
    SegmentBracketFree(after);
  }

  /** Editing, syncing and reviewing one hole: the first `oui` of user 7
      gives one point, a following `non` gives zero. */
  lemma CourseLifecycle(st: Store)
    requires 1 in st.courses
    ensures var synced := SyncHoles(st, Some(1), Some([HoleEntry(Some("abc123"), Some("secret"))]));
            && synced.response == Ok(1)
            && synced.store.holes["abc123"] == HoleRow(1, "secret")
            && var first := Review(synced.store, "abc123", Some(7), Some("oui"));
               && first.response.Ok? && first.response.value.holeId == "abc123"
               && (("abc123", 7) !in st.states ==> Value(first.response.value.points) == 1.0)
               && var second := Review(first.store, "abc123", Some(7), Some("non"));
                  second.response == Ok(Reviewed("abc123", 0))
  {
  }

  /** A user with two states at 2 and 0.5 points, no course filter: both rows
      are counted and the points become 1 and 0. */
  lemma AdvanceExample(holes: map<HoleId, HoleRow>)
    ensures var st := Store({}, holes, map[("h1", 3) := 4, ("h2", 3) := 1]);
            var out := Advance(st, Some(3), None);
            && out.response == Ok(2)
            && Value(out.store.states[("h1", 3)]) == 1.0
            && out.store.states[("h2", 3)] == 0
  {
    var st := Store({}, holes, map[("h1", 3) := 4, ("h2", 3) := 1]);
    assert ScopeRows(st, 3, None) == {("h1", 3), ("h2", 3)};
    assert ("h1", 3) != ("h2", 3);
  }
}
