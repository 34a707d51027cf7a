/** The hole extractor: a left-to-right scan of course content for hole
    markers, the de-duplicated list of holes it yields, and the segmentation
    of the content into html spans and hole spans used for rendering.

    The regular-expression loop of the source (`exec` with `lastIndex`) is
    written here as recursion over suffixes: when a marker matches at the
    start of the remaining content the scan resumes right after it, and
    otherwise it moves on by one character. */
module HoleParser {
  import opened Wrappers
  import opened HoleGrammar

  /** One piece of segmented content. */
  datatype ContentSegment = Html(html: string) | Hole(id: string, text: string)

  /** The markers the left-to-right scan of s finds, in order. The scan
      resumes after each match, so a marker spelled inside an earlier match's
      text is not found. */
  function Matches(s: string): (r: seq<HoleMatch>)
    ensures forall k | 0 <= k < |r| :: WellFormed(r[k])
    decreases |s|
  {
    if |s| == 0 then []
    else
      match MatchPrefix(s)
      case Some(f) => [f.hole] + Matches(s[f.end..])
      case None => Matches(s[1..])
  }

  /** A marker starts at position p of s. */
  predicate MarkerAt(s: string, p: nat)
    requires p <= |s|
  {
    MatchPrefix(s[p..]).Some?
  }

  /** Leftmost first: when q is the first position of s where a marker
      starts, the scan reports that marker first and resumes right after it. */
  lemma {:induction false} LeftmostFirst(s: string, q: nat)
    requires q < |s| && MarkerAt(s, q)
    requires forall p | 0 <= p < q :: !MarkerAt(s, p)
    ensures var f := MatchPrefix(s[q..]).value;
            q + f.end <= |s| && Matches(s) == [f.hole] + Matches(s[q + f.end..])
  {
    var f := MatchPrefix(s[q..]).value;
    SkipNoMarkers(s, q);
    MatchesFoundAt(s, q, f);
    assert Matches(s) == Matches(s[q..]) == [f.hole] + Matches(s[q + f.end..]);
  }

  /** Positions where no marker starts contribute nothing to the scan. */
  lemma {:induction false} SkipNoMarkers(s: string, q: nat)
    requires q <= |s|
    requires forall p | 0 <= p < q :: !MarkerAt(s, p)
    ensures Matches(s) == Matches(s[q..])
  {
    if q > 0 {
      assert !MarkerAt(s, 0);
      MatchesSkip(s);
      NoMarkerBeforeShift(s, q);
      SkipNoMarkers(s[1..], q - 1);
      SuffixShift(s, q);
    }
  }

  /** The scan of the suffix at a marker reports it and resumes after it. */
  lemma MatchesFoundAt(s: string, q: nat, f: Found)
    requires q < |s| && MatchPrefix(s[q..]) == Some(f)
    ensures q + f.end <= |s| && Matches(s[q..]) == [f.hole] + Matches(s[q + f.end..])
  {
    var u := s[q..];
    assert u[f.end..] == s[q + f.end..];
  }

  /** Where a marker starts, the scan reports it and resumes after it. */
  lemma MatchesAtMarker(s: string)
    requires MatchPrefix(s[0..]).Some?
    ensures var f := MatchPrefix(s[0..]).value;
            f.end <= |s| && Matches(s) == [f.hole] + Matches(s[f.end..])
  {
    assert s[0..] == s;
  }

  /** Where no marker starts, the scan moves on by one character. */
  lemma MatchesSkip(s: string)
    requires |s| > 0 && MatchPrefix(s[0..]).None?
    ensures Matches(s) == Matches(s[1..])
  {
    assert s[0..] == s;
  }

  lemma SuffixShift(s: string, k: nat)
    requires 1 <= k <= |s|
    ensures s[1..][k - 1..] == s[k..]
  {
  }

  /** No marker before q in s means none before q - 1 in s[1..], and a marker
      at q in s is one at q - 1 in s[1..]. */
  lemma NoMarkerBeforeShift(s: string, q: nat)
    requires 0 < q <= |s|
    requires forall p | 0 <= p < q :: !MarkerAt(s, p)
    ensures forall p | 0 <= p < q - 1 :: !MarkerAt(s[1..], p)
  {
    forall p | 0 <= p < q - 1 ensures !MarkerAt(s[1..], p) {
      SuffixShift(s, p + 1);
      assert !MarkerAt(s, p + 1);
    }
  }

  /** The scan reports nothing exactly when no marker starts anywhere. */
  lemma {:induction false} NoneAnywhere(s: string)
    ensures Matches(s) == [] <==> forall q | 0 <= q < |s| :: !MarkerAt(s, q)
    decreases |s|
  {
    if |s| > 0 {
      if MarkerAt(s, 0) {
        MatchesAtMarker(s);
      } else {
        MatchesSkip(s);
        NoneAnywhere(s[1..]);
        NoMarkerShift(s);
      }
    }
  }

  /** When no marker starts at position 0, s has no marker anywhere exactly
      when s[1..] has none. */
  lemma NoMarkerShift(s: string)
    requires |s| > 0 && !MarkerAt(s, 0)
    ensures (forall q | 0 <= q < |s| :: !MarkerAt(s, q))
        <==> (forall q | 0 <= q < |s| - 1 :: !MarkerAt(s[1..], q))
  {
    forall q | 0 < q < |s| ensures MarkerAt(s, q) <==> MarkerAt(s[1..], q - 1) {
      SuffixShift(s, q);
    }
    if forall q | 0 <= q < |s| - 1 :: !MarkerAt(s[1..], q) {
      forall q | 0 <= q < |s| ensures !MarkerAt(s, q) {
        if q > 0 {
          assert !MarkerAt(s[1..], q - 1);
        }
      }
    }
    if forall q | 0 <= q < |s| :: !MarkerAt(s, q) {
      forall q | 0 <= q < |s| - 1 ensures !MarkerAt(s[1..], q) {
        assert !MarkerAt(s, q + 1);
      }
    }
  }

  /** Markers written back to back. */
  function EncodeAll(hs: seq<HoleMatch>): string {
    if |hs| == 0 then "" else Encode(hs[0]) + EncodeAll(hs[1..])
  }

  /** The markers scanned from a sequence of well-formed markers written back
      to back are exactly those markers: the scan never starts a match inside
      a marker it has just consumed. */
  lemma {:induction false} MatchesEncodeAll(hs: seq<HoleMatch>)
    requires forall k | 0 <= k < |hs| :: WellFormed(hs[k])
    ensures Matches(EncodeAll(hs)) == hs
  {
    if |hs| > 0 {
      var s := EncodeAll(hs);
      MatchPrefixEncoded(hs[0], EncodeAll(hs[1..]));
      assert s[|Encode(hs[0])|..] == EncodeAll(hs[1..]);
      MatchesEncodeAll(hs[1..]);
    }
  }

  // ---------------------------------------------------------------------
  // De-duplication by id, first occurrence wins

  function Ids(ms: seq<HoleMatch>): set<string> {
    set k | 0 <= k < |ms| :: ms[k].id
  }

  predicate DistinctIds(ms: seq<HoleMatch>) {
    forall a, b | 0 <= a < b < |ms| :: ms[a].id != ms[b].id
  }

  /** The position of the first match carrying the given id. */
  function FirstIndex(ms: seq<HoleMatch>, id: string): (k: nat)
    requires id in Ids(ms)
    ensures k < |ms| && ms[k].id == id
    ensures forall j | 0 <= j < k :: ms[j].id != id
  {
    if ms[0].id == id then 0
    else
      assert id in Ids(ms[1..]) by {
        var k :| 0 <= k < |ms| && ms[k].id == id;
        assert ms[1..][k - 1].id == id;
      }
      1 + FirstIndex(ms[1..], id)
  }

  lemma IdsCons(ms: seq<HoleMatch>)
    requires |ms| > 0
    ensures Ids(ms) == {ms[0].id} + Ids(ms[1..])
  {
  }

  /** Every element of r is the first match in ms carrying its id. */
  predicate KeepsFirst(ms: seq<HoleMatch>, r: seq<HoleMatch>) {
    forall k | 0 <= k < |r| :: r[k].id in Ids(ms) && r[k] == ms[FirstIndex(ms, r[k].id)]
  }

  /** The elements of r appear in the order of their ids' first occurrences
      in ms. */
  predicate InFirstOrder(ms: seq<HoleMatch>, r: seq<HoleMatch>) {
    forall a, b | 0 <= a < b < |r| ::
      r[a].id in Ids(ms) && r[b].id in Ids(ms) &&
      FirstIndex(ms, r[a].id) < FirstIndex(ms, r[b].id)
  }

  /** r lists the matches of ms whose ids are not in seen, once per id, each
      as it first occurs in ms, in order of first occurrence. */
  predicate FirstOccurrences(ms: seq<HoleMatch>, seen: set<string>, r: seq<HoleMatch>) {
    DistinctIds(r) && Ids(r) == Ids(ms) - seen && KeepsFirst(ms, r) && InFirstOrder(ms, r)
  }

  /** The matches whose ids are not in seen, each id kept once, at its first
      occurrence: the `seen` set of the extractor's loop. */
  function Dedup(ms: seq<HoleMatch>, seen: set<string>): (r: seq<HoleMatch>)
    ensures FirstOccurrences(ms, seen, r)
  {
    if |ms| == 0 then []
    else if ms[0].id in seen then
      var r := Dedup(ms[1..], seen);
      DedupSkipStep(ms, seen, r);
      r
    else
      var rest := Dedup(ms[1..], seen + {ms[0].id});
      DedupKeepStep(ms, seen, rest);
      [ms[0]] + rest
  }

  /** Positions in ms[1..] of ids other than ms[0]'s carry over to ms. */
  lemma KeepsFirstTail(ms: seq<HoleMatch>, r: seq<HoleMatch>)
    requires |ms| > 0 && KeepsFirst(ms[1..], r) && InFirstOrder(ms[1..], r)
    requires forall k | 0 <= k < |r| :: r[k].id != ms[0].id
    ensures KeepsFirst(ms, r) && InFirstOrder(ms, r)
  {
  }

  /** Putting ms[0] in front of such a list keeps both properties. */
  lemma KeepsFirstCons(ms: seq<HoleMatch>, r: seq<HoleMatch>)
    requires |ms| > 0 && KeepsFirst(ms, r) && InFirstOrder(ms, r)
    requires forall k | 0 <= k < |r| :: r[k].id != ms[0].id
    ensures KeepsFirst(ms, [ms[0]] + r) && InFirstOrder(ms, [ms[0]] + r)
  {
  }

  lemma IdsPrepend(x: HoleMatch, r: seq<HoleMatch>)
    ensures Ids([x] + r) == {x.id} + Ids(r)
  {
    IdsCons([x] + r);
    assert ([x] + r)[1..] == r;
  }

  /** Dedup's step when the first match's id was already seen. */
  lemma DedupSkipStep(ms: seq<HoleMatch>, seen: set<string>, r: seq<HoleMatch>)
    requires |ms| > 0 && ms[0].id in seen
    requires FirstOccurrences(ms[1..], seen, r)
    ensures FirstOccurrences(ms, seen, r)
  {
  }

  /** Dedup's step when the first match's id is new: it is kept in front. */
  lemma DedupKeepStep(ms: seq<HoleMatch>, seen: set<string>, rest: seq<HoleMatch>)
    requires |ms| > 0 && ms[0].id !in seen
    requires FirstOccurrences(ms[1..], seen + {ms[0].id}, rest)
    ensures FirstOccurrences(ms, seen, [ms[0]] + rest)
  {
    var x := ms[0];
    forall k | 0 <= k < |rest| ensures rest[k].id != x.id {
      assert rest[k].id in Ids(rest);
    }
    assert Ids([x] + rest) == Ids(ms) - seen by {
      IdsPrepend(x, rest);
      IdsCons(ms);
    }
    KeepsFirstTail(ms, rest);
    KeepsFirstCons(ms, rest);
    assert DistinctIds([x] + rest) by {
      forall a, b | 0 <= a < b < |[x] + rest|
        ensures ([x] + rest)[a].id != ([x] + rest)[b].id
      {
        assert ([x] + rest)[b] == rest[b - 1];
        if a > 0 {
          assert ([x] + rest)[a] == rest[a - 1];
        }
      }
    }
  }

  /** extractHoles: each marker's (id, text), once per id, in order of first
      occurrence, with the text of that first occurrence. */
  function ExtractHoles(content: string): (r: seq<HoleMatch>)
    ensures DistinctIds(r)
    ensures Ids(r) == Ids(Matches(content))
    ensures forall k | 0 <= k < |r| ::
              var ms := Matches(content);
              r[k].id in Ids(ms) && r[k] == ms[FirstIndex(ms, r[k].id)]
    ensures forall a, b | 0 <= a < b < |r| ::
              var ms := Matches(content);
              r[a].id in Ids(ms) && r[b].id in Ids(ms) &&
              FirstIndex(ms, r[a].id) < FirstIndex(ms, r[b].id)
    ensures forall k | 0 <= k < |r| :: WellFormed(r[k])
  {
    var ms := Matches(content);
    var r := Dedup(ms, {});
    assert Ids(ms) - {} == Ids(ms);
    assert forall k | 0 <= k < |r| :: WellFormed(r[k]) by {
      forall k | 0 <= k < |r| ensures WellFormed(r[k]) {
        assert r[k] == ms[FirstIndex(ms, r[k].id)];
      }
    }
    r
  }

  /** Every extracted id is at least six characters of `[0-9a-fA-F-]`, and no
      extracted text contains `]]`. */
  lemma ExtractedShape(content: string, k: nat)
    requires k < |ExtractHoles(content)|
    ensures |ExtractHoles(content)[k].id| >= 6
    ensures forall i | 0 <= i < |ExtractHoles(content)[k].id| :: IsIdChar(ExtractHoles(content)[k].id[i])
    ensures !ContainsClose(ExtractHoles(content)[k].text)
  {
  }

  /** De-duplicating a list whose ids are already distinct changes nothing. */
  lemma {:induction false} DedupDistinct(ms: seq<HoleMatch>, seen: set<string>)
    requires DistinctIds(ms)
    requires Ids(ms) !! seen
    ensures Dedup(ms, seen) == ms
  {
    if |ms| > 0 {
      IdsCons(ms);
      assert ms[0].id !in Ids(ms[1..]) by {
        forall k | 0 <= k < |ms| - 1
          ensures ms[1..][k].id != ms[0].id
        {
          assert ms[1..][k] == ms[k + 1];
        }
      }
      DedupDistinct(ms[1..], seen + {ms[0].id});
    }
  }

  /** Extraction is idempotent: writing the extracted holes back as markers
      and extracting again gives the same list. */
  lemma ExtractIdempotent(content: string)
    ensures ExtractHoles(EncodeAll(ExtractHoles(content))) == ExtractHoles(content)
  {
    var hs := ExtractHoles(content);
    MatchesEncodeAll(hs);
    DedupDistinct(hs, {});
  }

  // ---------------------------------------------------------------------
  // Segmentation

  /** A segment written back as content: a hole becomes its marker again. */
  function RenderSegment(g: ContentSegment): string {
    match g
    case Html(h) => h
    case Hole(id, text) => Encode(HoleMatch(id, text))
  }

  function Render(segs: seq<ContentSegment>): string {
    if |segs| == 0 then "" else RenderSegment(segs[0]) + Render(segs[1..])
  }

  /** The hole segments, as the matches they came from. */
  function HolesOf(segs: seq<ContentSegment>): seq<HoleMatch> {
    if |segs| == 0 then []
    else if segs[0].Hole? then [HoleMatch(segs[0].id, segs[0].text)] + HolesOf(segs[1..])
    else HolesOf(segs[1..])
  }

  predicate NoEmptyHtml(segs: seq<ContentSegment>) {
    forall k | 0 <= k < |segs| :: segs[k].Html? ==> |segs[k].html| > 0
  }

  /** Segments k and k + 1 are both html. */
  predicate HtmlPair(segs: seq<ContentSegment>, k: int) {
    0 <= k && k + 1 < |segs| && segs[k].Html? && segs[k + 1].Html?
  }

  /** Html spans are maximal: two html segments never follow each other. */
  predicate NoAdjacentHtml(segs: seq<ContentSegment>) {
    forall k | 0 <= k < |segs| - 1 :: !HtmlPair(segs, k)
  }

  /** The html that is not yet flushed, if any, as a segment list. */
  function Flush(pending: string): seq<ContentSegment> {
    if |pending| > 0 then [Html(pending)] else []
  }

  /** The body of segmentContent's loop: `pending` is the html seen since the
      end of the last marker (content.slice(lastIndex, here)). */
  function SegmentFrom(s: string, pending: string): seq<ContentSegment>
    decreases |s|
  {
    if |s| == 0 then Flush(pending)
    else
      match MatchPrefix(s)
      case Some(f) => Flush(pending) + [Hole(f.hole.id, f.hole.text)] + SegmentFrom(s[f.end..], "")
      case None => SegmentFrom(s[1..], pending + [s[0]])
  }

  /** SegmentFrom when a marker starts the remaining content. */
  lemma SegmentFromMarker(s: string, pending: string, f: Found)
    requires |s| > 0 && MatchPrefix(s) == Some(f)
    ensures SegmentFrom(s, pending)
         == Flush(pending) + [Hole(f.hole.id, f.hole.text)] + SegmentFrom(s[f.end..], "")
  {
  }

  /** SegmentFrom when no marker starts the remaining content. */
  lemma SegmentFromSkip(s: string, pending: string)
    requires |s| > 0 && MatchPrefix(s).None?
    ensures SegmentFrom(s, pending) == SegmentFrom(s[1..], pending + [s[0]])
  {
  }

  /** The segments have no empty html span, no two html spans in a row, and
      there are none only when there is nothing left to segment. */
  lemma {:induction false} SegmentFromShape(s: string, pending: string)
    ensures NoEmptyHtml(SegmentFrom(s, pending))
    ensures NoAdjacentHtml(SegmentFrom(s, pending))
    ensures |SegmentFrom(s, pending)| == 0 <==> |pending| == 0 && |s| == 0
    decreases |s|
  {
    if |s| > 0 {
      match MatchPrefix(s)
      case Some(f) =>
        var rest := SegmentFrom(s[f.end..], "");
        SegmentFromShape(s[f.end..], "");
        SegmentFromMarker(s, pending, f);
        var pre := Flush(pending);
        var r := pre + [Hole(f.hole.id, f.hole.text)] + rest;
        forall k | 0 <= k < |r| - 1
          ensures !HtmlPair(r, k)
        {
          if k >= |pre| + 1 {
            assert r[k] == rest[k - |pre| - 1];
            assert r[k + 1] == rest[k - |pre|];
            assert !HtmlPair(rest, k - |pre| - 1);
          }
        }
        forall k | 0 <= k < |r| && r[k].Html?
          ensures |r[k].html| > 0
        {
          if k > |pre| {
            assert r[k] == rest[k - |pre| - 1];
          }
        }
      case None =>
        SegmentFromShape(s[1..], pending + [s[0]]);
        SegmentFromSkip(s, pending);
    }
  }

  /** segmentContent: the segmentation, or the whole content as one html
      segment when there is nothing to show (only for empty content). */
  function SegmentContent(content: string): (r: seq<ContentSegment>)
    ensures |r| > 0
    ensures content == "" ==> r == [Html("")]
    ensures forall k | 0 <= k < |r| :: r[k].Html? && r[k].html == "" ==> r == [Html("")] && content == ""
    ensures NoAdjacentHtml(r)
  {
    var segs := SegmentFrom(content, "");
    SegmentFromShape(content, "");
    if |segs| == 0 then [Html(content)] else segs
  }

  lemma {:induction false} RenderAppend(a: seq<ContentSegment>, b: seq<ContentSegment>)
    ensures Render(a + b) == Render(a) + Render(b)
  {
    if |a| == 0 {
      assert a + b == b;
    } else {
      assert (a + b)[0] == a[0];
      assert (a + b)[1..] == a[1..] + b;
      RenderAppend(a[1..], b);
    }
  }

  lemma {:induction false} HolesOfAppend(a: seq<ContentSegment>, b: seq<ContentSegment>)
    ensures HolesOf(a + b) == HolesOf(a) + HolesOf(b)
  {
    if |a| == 0 {
      assert a + b == b;
    } else {
      assert (a + b)[0] == a[0];
      assert (a + b)[1..] == a[1..] + b;
      HolesOfAppend(a[1..], b);
    }
  }

  lemma {:induction false} SegmentFromRender(s: string, pending: string)
    ensures Render(SegmentFrom(s, pending)) == pending + s
    decreases |s|
  {
    if |s| == 0 {
      assert Render(Flush(pending)) == pending;
    } else {
      match MatchPrefix(s)
      case Some(f) =>
        var tail := SegmentFrom(s[f.end..], "");
        SegmentFromRender(s[f.end..], "");
        MatchPrefixSound(s);
        SegmentFromMarker(s, pending, f);
        RenderMarkerStep(s, pending, Hole(f.hole.id, f.hole.text), tail, f.end);
      case None =>
        SegmentFromRender(s[1..], pending + [s[0]]);
        assert pending + [s[0]] + s[1..] == pending + s;
    }
  }

  /** One step of SegmentFromRender: flushed html, then a marker spelling the
      first e characters, then segments rendering the rest. */
  lemma RenderMarkerStep(s: string, pending: string, g: ContentSegment, tail: seq<ContentSegment>, e: nat)
    requires e <= |s| && RenderSegment(g) == s[..e] && Render(tail) == s[e..]
    ensures Render(Flush(pending) + [g] + tail) == pending + s
  {
    var gs := [g] + tail;
    assert Flush(pending) + [g] + tail == Flush(pending) + gs;
    RenderAppend(Flush(pending), gs);
    assert gs[0] == g && gs[1..] == tail;
    assert Render(Flush(pending)) == pending;
    assert s[..e] + s[e..] == s;
  }


  /** Concatenating the segments, each hole written back as its marker,
      reproduces the content exactly: the segments cover it with no gap and
      no overlap. */
  lemma SegmentRoundTrip(content: string)
    ensures Render(SegmentContent(content)) == content
  {
    SegmentFromRender(content, "");
  }

  lemma {:induction false} SegmentFromHoles(s: string, pending: string)
    ensures HolesOf(SegmentFrom(s, pending)) == Matches(s)
    decreases |s|
  {
    if |s| > 0 {
      match MatchPrefix(s)
      case Some(f) =>
        var rest := SegmentFrom(s[f.end..], "");
        SegmentFromHoles(s[f.end..], "");
        HolesOfAppend(Flush(pending) + [Hole(f.hole.id, f.hole.text)], rest);
        HolesOfAppend(Flush(pending), [Hole(f.hole.id, f.hole.text)]);
      case None =>
        SegmentFromHoles(s[1..], pending + [s[0]]);
    }
  }

  /** The hole segments are the markers the scan finds, in order, duplicates
      included: each occurrence of a repeated id gets its own segment. */
  lemma SegmentHoles(content: string)
    ensures HolesOf(SegmentContent(content)) == Matches(content)
  {
    SegmentFromHoles(content, "");
  }

  /** The ids extractHoles reports are exactly the ids of the hole segments. */
  lemma ExtractedIdsAreSegmentIds(content: string)
    ensures Ids(ExtractHoles(content)) == Ids(HolesOf(SegmentContent(content)))
  {
    SegmentHoles(content);
  }

  lemma {:induction false} NoHolesAllHtml(segs: seq<ContentSegment>)
    requires HolesOf(segs) == []
    ensures forall k | 0 <= k < |segs| :: segs[k].Html?
  {
    if |segs| > 0 {
      NoHolesAllHtml(segs[1..]);
      assert forall k | 1 <= k < |segs| :: segs[k] == segs[1..][k - 1];
    }
  }

  /** Content without any marker is one html segment holding all of it. */
  lemma NoMarkersOneSegment(content: string)
    requires Matches(content) == []
    ensures SegmentContent(content) == [Html(content)]
  {
    var r := SegmentContent(content);
    SegmentHoles(content);
    NoHolesAllHtml(r);
    SegmentRoundTrip(content);
    assert |r| > 1 ==> HtmlPair(r, 0);
    assert |r| == 1;
    assert r[1..] == [];
    assert Render(r[1..]) == "";
    assert Render(r) == RenderSegment(r[0]) + Render(r[1..]);
    assert RenderSegment(r[0]) == r[0].html;
    assert r[0].html == content;
    assert r == [Html(r[0].html)];
  }
}
