/** The server's hole store and the four handlers that change it: syncing a
    course's holes, reviewing a hole, advancing an iteration, and deleting a
    course.

    The SQLite tables become maps: `holes` is keyed by hole id (its primary
    key), and `hole_states` by the (hole, user) pair its UNIQUE constraint
    names, so there is at most one state per pair by construction. A handler
    is a total function from the store and the decoded request to the reply
    status and the new store.

    Points are stored as REAL in the source but only ever change by +1, +0.5,
    a reset to 0, or max(0, P - 1), starting from 0. They are kept here as a
    natural number of half-points. While the points stay below 2^52 a double
    holds every half-integer exactly, and there `Value` gives the number the
    source stores; the contracts state the source's arithmetic through it.
    From 2^52 on the source's double rounds and this model does not. */
module HoleStore {
  import opened Wrappers

  type HoleId = string
  type UserId = int
  type CourseId = int

  /** A number of half-points: p stands for the stored value p / 2. */
  type HalfPoints = nat

  function Value(p: HalfPoints): real {
    p as real / 2.0
  }

  datatype HoleRow = HoleRow(course: CourseId, text: string)

  datatype Store = Store(
    courses: set<CourseId>,
    holes: map<HoleId, HoleRow>,
    states: map<(HoleId, UserId), HalfPoints>)

  /** The HTTP outcome of a handler: 200/201/204, 400 or 404. */
  datatype Response<T> = Ok(value: T) | BadRequest | NotFound

  datatype Reply<T> = Reply(response: Response<T>, store: Store)

  /** A numeric request field after `Number(...)`: Some(n) when that is an
      integer n, None for NaN, fractions and missing fields. The handlers
      accept an id only when it is a positive integer. */
  predicate IsPositiveId(x: Option<int>) {
    x.Some? && x.value > 0
  }

  /** Every hole belongs to a course that exists. Sync only writes holes of
      an existing course and delete removes a course's holes with it. */
  predicate Consistent(st: Store) {
    forall h | h in st.holes :: st.holes[h].course in st.courses
  }

  // ---------------------------------------------------------------------
  // Ratings and the review transition

  datatype Rating = Oui | PlutotOui | Neutre | PlutotNon | Non

  const RatingNames: set<string> := {"oui", "plutot_oui", "neutre", "plutot_non", "non"}

  function RatingName(r: Rating): string {
    match r
    case Oui => "oui"
    case PlutotOui => "plutot_oui"
    case Neutre => "neutre"
    case PlutotNon => "plutot_non"
    case Non => "non"
  }

  /** The rating a request string names, if it is one of the five keys of the
      increments table. */
  function ParseRating(s: string): (r: Option<Rating>)
    ensures r.Some? <==> s in RatingNames
    ensures r.Some? ==> RatingName(r.value) == s
  {
    if s == "oui" then Some(Oui)
    else if s == "plutot_oui" then Some(PlutotOui)
    else if s == "neutre" then Some(Neutre)
    else if s == "plutot_non" then Some(PlutotNon)
    else if s == "non" then Some(Non)
    else None
  }

  /** Parsing a rating's name gives the rating back. */
  lemma ParseRatingName(r: Rating)
    ensures ParseRating(RatingName(r)) == Some(r)
  {
  }

  /** The increments table: `oui` adds one point, `plutot_oui` half a point,
      and the three others reset to zero. */
  function Apply(r: Rating, p: HalfPoints): (q: HalfPoints)
    ensures r == Oui ==> Value(q) == Value(p) + 1.0
    ensures r == PlutotOui ==> Value(q) == Value(p) + 0.5
    ensures r in {Neutre, PlutotNon, Non} ==> Value(q) == 0.0
  {
    match r
    case Oui => p + 2
    case PlutotOui => p + 1
    case _ => 0
  }

  /** The points a user has on a hole: a missing state reads as 0. */
  function PointsOf(st: Store, hole: HoleId, user: UserId): HalfPoints {
    if (hole, user) in st.states then st.states[(hole, user)] else 0
  }

  datatype Reviewed = Reviewed(holeId: HoleId, points: HalfPoints)

  /** POST /holes/:holeId/review with body {userId, rating}; `rating` is None
      when it is not a string. The state is read (0 when missing), the
      transition applied, and the row inserted or updated. The hole itself
      is not looked up. */
  function Review(st: Store, holeId: HoleId, userId: Option<int>, rating: Option<string>): (out: Reply<Reviewed>)
    ensures out.response.Ok? <==>
              holeId != "" && IsPositiveId(userId) && rating.Some? && rating.value in RatingNames
    ensures out.response.NotFound? == false
    ensures !out.response.Ok? ==> out.store == st
    ensures out.response.Ok? ==>
              var p := out.response.value.points;
              var before := PointsOf(st, holeId, userId.value);
              && out.response.value.holeId == holeId
              && out.store == st.(states := st.states[(holeId, userId.value) := p])
              && (rating.value == "oui" ==> Value(p) == Value(before) + 1.0)
              && (rating.value == "plutot_oui" ==> Value(p) == Value(before) + 0.5)
              && (rating.value in {"neutre", "plutot_non", "non"} ==> Value(p) == 0.0)
  {
    if holeId == "" || !IsPositiveId(userId) || rating.None? then Reply(BadRequest, st)
    else
      match ParseRating(rating.value)
      case None => Reply(BadRequest, st)
      case Some(r) =>
        var p := Apply(r, PointsOf(st, holeId, userId.value));
        Reply(Ok(Reviewed(holeId, p)), st.(states := st.states[(holeId, userId.value) := p]))
  }

  // ---------------------------------------------------------------------
  // Iteration advance

  /** The course filter of the advance query: only a positive integer
      courseId restricts the scope. */
  function CourseFilter(courseId: Option<int>): Option<CourseId> {
    if IsPositiveId(courseId) then courseId else None
  }

  /** The WHERE clause of the advance query: the user's states, and, under a
      course filter, only those whose hole belongs to that course. */
  predicate InScope(st: Store, user: UserId, filter: Option<CourseId>, key: (HoleId, UserId)) {
    && key.1 == user
    && (filter.Some? ==> key.0 in st.holes && st.holes[key.0].course == filter.value)
  }

  function ScopeRows(st: Store, user: UserId, filter: Option<CourseId>): set<(HoleId, UserId)> {
    set k | k in st.states && InScope(st, user, filter, k)
  }

  /** One point off, floored at zero: the CASE expression of the query. */
  function Decay(p: HalfPoints): (q: HalfPoints)
    ensures Value(q) == if Value(p) - 1.0 < 0.0 then 0.0 else Value(p) - 1.0
  {
    if p < 2 then 0 else p - 2
  }

  /** POST /iterations/advance with body {userId, courseId?}. Every matched
      row is decayed; the reply counts the matched rows, those already at 0
      included. */
  function Advance(st: Store, userId: Option<int>, courseId: Option<int>): (out: Reply<nat>)
    ensures out.response.Ok? <==> IsPositiveId(userId)
    ensures !IsPositiveId(userId) ==> out == Reply(BadRequest, st)
    ensures out.response.Ok? ==>
              var filter := CourseFilter(courseId);
              && out.store.courses == st.courses
              && out.store.holes == st.holes
              && out.store.states.Keys == st.states.Keys
              && (forall k | k in st.states && InScope(st, userId.value, filter, k) ::
                    Value(out.store.states[k]) == if Value(st.states[k]) - 1.0 < 0.0 then 0.0 else Value(st.states[k]) - 1.0)
              && (forall k | k in st.states && !InScope(st, userId.value, filter, k) ::
                    out.store.states[k] == st.states[k])
              && out.response.value == |ScopeRows(st, userId.value, filter)|
  {
    if !IsPositiveId(userId) then Reply(BadRequest, st)
    else
      var user := userId.value;
      var filter := CourseFilter(courseId);
      var states := map k | k in st.states ::
        if InScope(st, user, filter, k) then Decay(st.states[k]) else st.states[k];
      Reply(Ok(|ScopeRows(st, user, filter)|), st.(states := states))
  }

  // ---------------------------------------------------------------------
  // Sync

  /** One element of the request's `holes` array: id and text are Some when
      they are strings (a null or non-object element has neither). */
  datatype HoleEntry = HoleEntry(id: Option<string>, text: Option<string>)

  /** An entry that passed the filter. */
  datatype Upsert = Upsert(id: HoleId, text: string)

  predicate IsValidEntry(e: HoleEntry) {
    e.id.Some? && e.text.Some?
  }

  /** The entry as the upsert loop uses it. */
  function ToUpsert(e: HoleEntry): Upsert
    requires IsValidEntry(e)
  {
    Upsert(e.id.value, e.text.value)
  }

  /** The positions of the request's entries that pass the filter. */
  function ValidIndexes(entries: seq<HoleEntry>): set<int> {
    set k | 0 <= k < |entries| && IsValidEntry(entries[k])
  }

  /** The positions of the entries that pass the filter, in increasing order:
      each listed position holds a valid entry, and every valid position is
      listed. */
  function ValidPositions(entries: seq<HoleEntry>): (ps: seq<nat>)
    ensures forall k | 0 <= k < |ps| :: ps[k] < |entries| && IsValidEntry(entries[ps[k]])
    ensures forall a, b | 0 <= a < b < |ps| :: ps[a] < ps[b]
    ensures forall i | 0 <= i < |entries| && IsValidEntry(entries[i]) :: i in ps
    ensures |ps| <= |entries|
    ensures (forall i | 0 <= i < |entries| :: IsValidEntry(entries[i])) ==> |ps| == |entries|
    decreases |entries|
  {
    if |entries| == 0 then []
    else
      var n := |entries| - 1;
      var before := ValidPositions(entries[..n]);
      assert forall k | 0 <= k < n :: entries[..n][k] == entries[k];
      if IsValidEntry(entries[n]) then before + [n] else before
  }

  /** The filter of the handler: the entries with a string id and a string
      text, in their request order, each as often as it occurs. Element k of
      the result is the entry at the k-th valid position. */
  function ValidHoles(entries: seq<HoleEntry>): (r: seq<Upsert>)
    ensures |r| == |ValidPositions(entries)|
    ensures forall k | 0 <= k < |r| ::
              var i := ValidPositions(entries)[k]; r[k] == ToUpsert(entries[i])
    decreases |entries|
  {
    if |entries| == 0 then []
    else
      var n := |entries| - 1;
      var before := ValidHoles(entries[..n]);
      assert forall k | 0 <= k < n :: entries[..n][k] == entries[k];
      if IsValidEntry(entries[n]) then before + [ToUpsert(entries[n])] else before
  }

  /** The membership view of the filter: every kept element is an entry of the
      request, every valid entry is kept, and nothing is dropped when all
      entries are valid. */
  lemma ValidHolesMembers(entries: seq<HoleEntry>)
    ensures |ValidHoles(entries)| <= |entries|
    ensures forall k | 0 <= k < |ValidHoles(entries)| ::
              HoleEntry(Some(ValidHoles(entries)[k].id), Some(ValidHoles(entries)[k].text)) in entries
    ensures forall e | e in entries && IsValidEntry(e) :: ToUpsert(e) in ValidHoles(entries)
    ensures (forall e | e in entries :: IsValidEntry(e)) ==> |ValidHoles(entries)| == |entries|
  {
  }

  /** The filter keeps as many entries as there are valid positions: the
      `synced` count is the number of valid entries, duplicates included. */
  lemma ValidCount(entries: seq<HoleEntry>)
    ensures |ValidHoles(entries)| == |ValidIndexes(entries)|
  {
    ValidHolesCount(entries);
    ValidIndexesCount(entries);
  }

  /** The number of valid entries, counted from the front. */
  function CountValid(entries: seq<HoleEntry>): nat
    decreases |entries|
  {
    if |entries| == 0 then 0
    else
      var n := |entries| - 1;
      CountValid(entries[..n]) + (if IsValidEntry(entries[n]) then 1 else 0)
  }

  lemma {:induction false} ValidHolesCount(entries: seq<HoleEntry>)
    ensures |ValidHoles(entries)| == CountValid(entries)
    decreases |entries|
  {
    if |entries| > 0 {
      ValidHolesCount(entries[..|entries| - 1]);
      ValidHolesSnoc(entries);
    }
  }

  lemma {:induction false} ValidIndexesCount(entries: seq<HoleEntry>)
    ensures |ValidIndexes(entries)| == CountValid(entries)
    decreases |entries|
  {
    if |entries| > 0 {
      ValidIndexesCount(entries[..|entries| - 1]);
      ValidIndexesCountSnoc(entries);
    }
  }

  /** One more entry adds one element to the filter's result when it is
      valid, and none otherwise. */
  lemma ValidHolesSnoc(entries: seq<HoleEntry>)
    requires |entries| > 0
    ensures var n := |entries| - 1;
            ValidHoles(entries) == ValidHoles(entries[..n])
                                   + (if IsValidEntry(entries[n]) then [ToUpsert(entries[n])] else [])
  {
  }

  /** One more entry adds one valid position when it is valid, and none
      otherwise. */
  lemma ValidIndexesCountSnoc(entries: seq<HoleEntry>)
    requires |entries| > 0
    ensures var n := |entries| - 1;
            |ValidIndexes(entries)|
            == |ValidIndexes(entries[..n])| + (if IsValidEntry(entries[n]) then 1 else 0)
  {
    ValidIndexesSnoc(entries);
  }

  /** The valid positions of a request are those of all but its last entry,
      plus the last position when that entry is valid. */
  lemma ValidIndexesSnoc(entries: seq<HoleEntry>)
    requires |entries| > 0
    ensures var n := |entries| - 1;
            && n !in ValidIndexes(entries[..n])
            && ValidIndexes(entries)
               == ValidIndexes(entries[..n]) + (if IsValidEntry(entries[n]) then {n} else {})
  {
  }

  /** The element the upsert loop writes last for an id is the request's last
      valid entry with that id. */
  lemma LastValidEntry(entries: seq<HoleEntry>, id: HoleId)
    requires id in UpsertIds(ValidHoles(entries))
    ensures var r, ps := ValidHoles(entries), ValidPositions(entries);
            var i := ps[LastIndex(r, id)];
            && i < |entries| && IsValidEntry(entries[i])
            && entries[i].id.value == id
            && r[LastIndex(r, id)].text == entries[i].text.value
            && (forall j | i < j < |entries| && IsValidEntry(entries[j]) :: entries[j].id.value != id)
  {
  }

  function UpsertIds(us: seq<Upsert>): set<HoleId> {
    set k | 0 <= k < |us| :: us[k].id
  }

  /** The position of the last entry carrying the given id. */
  function LastIndex(us: seq<Upsert>, id: HoleId): (k: nat)
    requires id in UpsertIds(us)
    ensures k < |us| && us[k].id == id
    ensures forall j | k < j < |us| :: us[j].id != id
    decreases |us|
  {
    var n := |us| - 1;
    if us[n].id == id then n
    else
      assert id in UpsertIds(us[..n]) by {
        var k :| 0 <= k < |us| && us[k].id == id;
        assert us[..n][k].id == id;
      }
      LastIndex(us[..n], id)
  }

  /** The handler's loop of `INSERT ... ON CONFLICT(id) DO UPDATE`, one entry
      after the other: all but the last entry, then the last. */
  function UpsertAll(holes: map<HoleId, HoleRow>, course: CourseId, us: seq<Upsert>): (r: map<HoleId, HoleRow>)
    ensures r.Keys == holes.Keys + UpsertIds(us)
    ensures forall id | id in holes && id !in UpsertIds(us) :: r[id] == holes[id]
    ensures forall id | id in UpsertIds(us) :: r[id] == HoleRow(course, us[LastIndex(us, id)].text)
    decreases |us|
  {
    if |us| == 0 then holes
    else
      var n := |us| - 1;
      var before := UpsertAll(holes, course, us[..n]);
      assert UpsertIds(us) == UpsertIds(us[..n]) + {us[n].id} by {
        forall id | id in UpsertIds(us) ensures id in UpsertIds(us[..n]) + {us[n].id} {
          var k :| 0 <= k < |us| && us[k].id == id;
          if k < n {
            assert us[..n][k].id == id;
          }
        }
      }
      before[us[n].id := HoleRow(course, us[n].text)]
  }

  /** POST /courses/:courseId/sync-holes with body {holes}; `holes` is None
      when it is not an array. The reply counts the entries that passed the
      filter, duplicates included. Holes not listed are left as they are. */
  function SyncHoles(st: Store, courseId: Option<int>, holes: Option<seq<HoleEntry>>): (out: Reply<nat>)
    ensures !IsPositiveId(courseId) || holes.None? ==> out == Reply(BadRequest, st)
    ensures IsPositiveId(courseId) && holes.Some? && courseId.value !in st.courses ==>
              out == Reply(NotFound, st)
    ensures out.response.Ok? <==>
              IsPositiveId(courseId) && holes.Some? && courseId.value in st.courses
    ensures out.response.Ok? ==>
              var valid := ValidHoles(holes.value);
              && out.response.value == |valid|
              && out.store.courses == st.courses
              && out.store.states == st.states
              && out.store.holes.Keys == st.holes.Keys + UpsertIds(valid)
              && (forall id | id in UpsertIds(valid) ::
                    out.store.holes[id] == HoleRow(courseId.value, valid[LastIndex(valid, id)].text))
              && (forall id | id in st.holes && id !in UpsertIds(valid) ::
                    out.store.holes[id] == st.holes[id])
  {
    if !IsPositiveId(courseId) || holes.None? then Reply(BadRequest, st)
    else
      var valid := ValidHoles(holes.value);
      if courseId.value !in st.courses then Reply(NotFound, st)
      else Reply(Ok(|valid|), st.(holes := UpsertAll(st.holes, courseId.value, valid)))
  }

  // ---------------------------------------------------------------------
  // Course delete

  /** DELETE /courses/:courseId: the states of the course's holes, then the
      holes, then the course. The two cascading deletes run before the course
      is looked up, so they happen even when the reply is NotFound. */
  function DeleteCourse(st: Store, courseId: Option<int>): (out: Reply<()>)
    ensures !IsPositiveId(courseId) ==> out == Reply(BadRequest, st)
    ensures IsPositiveId(courseId) ==>
              var c := courseId.value;
              && (out.response.Ok? <==> c in st.courses)
              && (out.response.NotFound? <==> c !in st.courses)
              && out.store.courses == st.courses - {c}
              && (forall h :: h in out.store.holes <==> h in st.holes && st.holes[h].course != c)
              && (forall h | h in out.store.holes :: out.store.holes[h] == st.holes[h])
              && (forall k :: k in out.store.states <==>
                    k in st.states && !(k.0 in st.holes && st.holes[k.0].course == c))
              && (forall k | k in out.store.states :: out.store.states[k] == st.states[k])
  {
    if !IsPositiveId(courseId) then Reply(BadRequest, st)
    else
      var c := courseId.value;
      var states := map k | k in st.states && !(k.0 in st.holes && st.holes[k.0].course == c) :: st.states[k];
      var holes := map h | h in st.holes && st.holes[h].course != c :: st.holes[h];
      var after := Store(st.courses - {c}, holes, states);
      if c in st.courses then Reply(Ok(()), after) else Reply(NotFound, after)
  }
}
