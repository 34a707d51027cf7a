/** Properties that relate several handler calls, or a handler to the store
    invariant. */
module StoreProperties {
  import opened Wrappers
  import opened HoleStore

  // ---------------------------------------------------------------------
  // The store invariant

  /** Syncing never makes a hole point at a missing course. */
  lemma SyncKeepsConsistent(st: Store, courseId: Option<int>, holes: Option<seq<HoleEntry>>)
    requires Consistent(st)
    ensures Consistent(SyncHoles(st, courseId, holes).store)
  {
  }

  /** Deleting a course, found or not, leaves no hole pointing at a missing
      course. */
  lemma DeleteKeepsConsistent(st: Store, courseId: Option<int>)
    requires Consistent(st)
    ensures Consistent(DeleteCourse(st, courseId).store)
  {
  }

  /** Reviews and iteration advances do not touch holes or courses. */
  lemma ReviewAndAdvanceKeepConsistent(st: Store, holeId: HoleId, userId: Option<int>,
                                       rating: Option<string>, courseId: Option<int>)
    requires Consistent(st)
    ensures Consistent(Review(st, holeId, userId, rating).store)
    ensures Consistent(Advance(st, userId, courseId).store)
  {
  }

  // ---------------------------------------------------------------------
  // Sync

  /** Running the same sync twice leaves the same store as running it once,
      and both runs report the same count. */
  lemma SyncIdempotent(st: Store, courseId: Option<int>, holes: Option<seq<HoleEntry>>)
    ensures SyncHoles(SyncHoles(st, courseId, holes).store, courseId, holes)
         == SyncHoles(st, courseId, holes)
  {
    var once := SyncHoles(st, courseId, holes);
    if once.response.Ok? {
      var valid := ValidHoles(holes.value);
      var h1 := UpsertAll(st.holes, courseId.value, valid);
      assert once.store == st.(holes := h1);
      UpsertAllIdempotent(st.holes, courseId.value, valid);
    }
  }

  /** Replaying the same upserts over their own result changes nothing. */
  lemma UpsertAllIdempotent(holes: map<HoleId, HoleRow>, c: CourseId, us: seq<Upsert>)
    ensures UpsertAll(UpsertAll(holes, c, us), c, us) == UpsertAll(holes, c, us)
  {
  }

  /** On an existing course, `synced` is the number of request entries with a
      string id and a string text, duplicates included. */
  lemma SyncCountsValidEntries(st: Store, c: CourseId, entries: seq<HoleEntry>)
    requires c > 0 && c in st.courses
    ensures SyncHoles(st, Some(c), Some(entries)).response
         == Ok(|set k | 0 <= k < |entries| && IsValidEntry(entries[k])|)
  {
    ValidCount(entries);
  }

  /** When an id is listed several times, the stored hole holds the text of the
      last valid entry with that id, and now belongs to the synced course. */
  lemma SyncLastEntryWins(st: Store, c: CourseId, entries: seq<HoleEntry>, i: nat)
    requires c > 0 && c in st.courses
    requires i < |entries| && IsValidEntry(entries[i])
    requires forall j | i < j < |entries| && IsValidEntry(entries[j]) :: entries[j].id != entries[i].id
    ensures var holes := SyncHoles(st, Some(c), Some(entries)).store.holes;
            && entries[i].id.value in holes
            && holes[entries[i].id.value] == HoleRow(c, entries[i].text.value)
  {
    var valid, ps := ValidHoles(entries), ValidPositions(entries);
    var id := entries[i].id.value;
    assert i in ps;
    var k :| 0 <= k < |ps| && ps[k] == i;
    assert valid[k].id == id;
    assert id in UpsertIds(valid);
    LastValidEntry(entries, id);
    var last := ps[LastIndex(valid, id)];
    assert last == i;
  }

  /** A sync that lists no valid entry changes nothing but still succeeds on
      an existing course. */
  lemma SyncNothingListed(st: Store, courseId: Option<int>, entries: seq<HoleEntry>)
    requires IsPositiveId(courseId) && courseId.value in st.courses
    requires forall e | e in entries :: !IsValidEntry(e)
    ensures SyncHoles(st, courseId, Some(entries)) == Reply(Ok(0), st)
  {
  }

  // ---------------------------------------------------------------------
  // Course delete

  /** On a consistent store, deleting a course that does not exist replies
      NotFound and writes nothing. */
  lemma DeleteMissingWritesNothing(st: Store, courseId: Option<int>)
    requires Consistent(st)
    requires IsPositiveId(courseId) && courseId.value !in st.courses
    ensures DeleteCourse(st, courseId) == Reply(NotFound, st)
  {
  }

  /** After a course is deleted, no hole belongs to it and no state refers to
      one of its former holes. */
  lemma DeleteRemovesCourse(st: Store, courseId: Option<int>)
    requires IsPositiveId(courseId)
    ensures var after := DeleteCourse(st, courseId).store;
            && courseId.value !in after.courses
            && (forall h | h in after.holes :: after.holes[h].course != courseId.value)
            && (forall k | k in after.states :: k.0 !in st.holes || st.holes[k.0].course != courseId.value)
  {
  }

  /** Deleting the same course again replies NotFound and changes nothing,
      whatever the store looked like before the first delete. */
  lemma DeleteTwice(st: Store, courseId: Option<int>)
    requires IsPositiveId(courseId)
    ensures var once := DeleteCourse(st, courseId);
            DeleteCourse(once.store, courseId) == Reply(NotFound, once.store)
  {
  }

  /** Syncing a course after deleting it replies NotFound. */
  lemma SyncAfterDelete(st: Store, courseId: Option<int>, holes: seq<HoleEntry>)
    requires IsPositiveId(courseId)
    ensures SyncHoles(DeleteCourse(st, courseId).store, courseId, Some(holes)).response == NotFound
  {
  }

  // ---------------------------------------------------------------------
  // Review

  /** Reading a user's points right after a review gives the value the
      review replied with; the first review of a pair adds one state row and
      later reviews keep the number of rows. */
  lemma ReviewReadBack(st: Store, holeId: HoleId, userId: Option<int>, rating: Option<string>)
    requires Review(st, holeId, userId, rating).response.Ok?
    ensures var out := Review(st, holeId, userId, rating);
            && PointsOf(out.store, holeId, userId.value) == out.response.value.points
            && out.store.states.Keys == st.states.Keys + {(holeId, userId.value)}
            && |out.store.states| == |st.states| + (if (holeId, userId.value) in st.states then 0 else 1)
  {
  }

  /** A review changes only the reviewed (hole, user) pair: every other
      user's and every other hole's points read the same afterwards. */
  lemma ReviewFrame(st: Store, holeId: HoleId, u: UserId, rating: Option<string>,
                    otherHole: HoleId, otherUser: UserId)
    requires (otherHole, otherUser) != (holeId, u)
    ensures PointsOf(Review(st, holeId, Some(u), rating).store, otherHole, otherUser)
         == PointsOf(st, otherHole, otherUser)
  {
  }

  /** A reset rating followed by another review behaves as if the pair had
      never been reviewed. */
  lemma ResetForgetsHistory(st: Store, holeId: HoleId, u: UserId, reset: string, next: string)
    requires holeId != "" && u > 0
    requires reset in {"neutre", "plutot_non", "non"} && next in RatingNames
    ensures var st1 := Review(st, holeId, Some(u), Some(reset)).store;
            var blank := st.(states := st.states - {(holeId, u)});
            (Review(st1, holeId, Some(u), Some(next)).response
             == Review(blank, holeId, Some(u), Some(next)).response)
  {
  }

  // ---------------------------------------------------------------------
  // Iteration advance

  /** An advance in scope takes back exactly the point an `oui` review just
      added. */
  lemma AdvanceUndoesOui(st: Store, holeId: HoleId, u: UserId, courseId: Option<int>)
    requires holeId != "" && u > 0
    requires CourseFilter(courseId).Some? ==>
               holeId in st.holes && st.holes[holeId].course == courseId.value
    ensures var st1 := Review(st, holeId, Some(u), Some("oui")).store;
            PointsOf(Advance(st1, Some(u), courseId).store, holeId, u) == PointsOf(st, holeId, u)
  {
  }

  /** A state already at 0 in scope stays at 0 and is still counted. */
  lemma AdvanceCountsZeroRows(st: Store, u: UserId, courseId: Option<int>, holeId: HoleId)
    requires u > 0
    requires (holeId, u) in st.states && st.states[(holeId, u)] == 0
    requires InScope(st, u, CourseFilter(courseId), (holeId, u))
    ensures var out := Advance(st, Some(u), courseId);
            && out.store.states[(holeId, u)] == 0
            && out.response.value >= 1
  {
    var out := Advance(st, Some(u), courseId);
    assert Value(out.store.states[(holeId, u)]) == 0.0;
    assert (holeId, u) in ScopeRows(st, u, CourseFilter(courseId));
  }

  /** An empty scope is not an error: the reply is `updated: 0` and nothing
      changes. */
  lemma AdvanceEmptyScope(st: Store, u: UserId, courseId: Option<int>)
    requires u > 0
    requires forall k | k in st.states :: !InScope(st, u, CourseFilter(courseId), k)
    ensures Advance(st, Some(u), courseId) == Reply(Ok(0), st)
  {
  }

  /** What the course filter of an advance selects: a positive integer
      courseId narrows the user's rows to those whose hole belongs to that
      course; any other courseId (missing, 0, negative, not an integer) leaves
      all of the user's rows in scope. */
  lemma CourseFilterScope(st: Store, u: UserId, courseId: Option<int>)
    ensures !IsPositiveId(courseId) ==>
              ScopeRows(st, u, CourseFilter(courseId)) == ScopeRows(st, u, None)
    ensures IsPositiveId(courseId) ==>
              ScopeRows(st, u, CourseFilter(courseId))
              == set k | k in ScopeRows(st, u, None) && k.0 in st.holes
                         && st.holes[k.0].course == courseId.value
  {
  }

  /** A course filter can only shrink the set of rows an advance matches. */
  lemma AdvanceFilterShrinksScope(st: Store, u: UserId, courseId: Option<int>)
    requires u > 0
    ensures Advance(st, Some(u), courseId).response.value <= Advance(st, Some(u), None).response.value
  {
    var scoped, all := ScopeRows(st, u, CourseFilter(courseId)), ScopeRows(st, u, None);
    assert scoped <= all;
    assert all == scoped + (all - scoped);
    assert |all| == |scoped| + |all - scoped|;
  }

  /** Advances leave the user's states of other courses as they are. */
  lemma AdvanceOtherCourse(st: Store, u: UserId, c: CourseId, holeId: HoleId)
    requires u > 0 && c > 0
    requires (holeId, u) in st.states && holeId in st.holes && st.holes[holeId].course != c
    ensures Advance(st, Some(u), Some(c)).store.states[(holeId, u)] == st.states[(holeId, u)]
  {
  }

  /** n advances of the same scope. */
  function AdvanceTimes(st: Store, u: UserId, courseId: Option<int>, n: nat): (r: Store)
    requires u > 0
  {
    if n == 0 then st else Advance(AdvanceTimes(st, u, courseId, n - 1), Some(u), courseId).store
  }

  /** After n advances a matched state has lost n points, floored at zero:
      points decay to 0 in at most ceil(P) iterations. */
  lemma {:induction false} AdvanceTimesDecays(st: Store, u: UserId, courseId: Option<int>, holeId: HoleId, n: nat)
    requires u > 0
    requires (holeId, u) in st.states && InScope(st, u, CourseFilter(courseId), (holeId, u))
    ensures var after := AdvanceTimes(st, u, courseId, n);
            && (holeId, u) in after.states
            && Value(after.states[(holeId, u)]) ==
                 if Value(st.states[(holeId, u)]) - n as real < 0.0 then 0.0
                 else Value(st.states[(holeId, u)]) - n as real
  {
    if n > 0 {
      AdvanceTimesDecays(st, u, courseId, holeId, n - 1);
      var prev := AdvanceTimes(st, u, courseId, n - 1);
      assert prev.holes == st.holes by {
        AdvanceTimesKeepsHoles(st, u, courseId, n - 1);
      }
      assert InScope(prev, u, CourseFilter(courseId), (holeId, u));
    }
  }

  lemma {:induction false} AdvanceTimesKeepsHoles(st: Store, u: UserId, courseId: Option<int>, n: nat)
    requires u > 0
    ensures AdvanceTimes(st, u, courseId, n).holes == st.holes
  {
    if n > 0 {
      AdvanceTimesKeepsHoles(st, u, courseId, n - 1);
    }
  }
}
