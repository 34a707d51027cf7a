# Hole lifecycle of the psychology course app, in Dafny

The application lets a user write a course as HTML. Inside that HTML the user marks
"holes" as `[[HOLE:<id>|<text>]]`. Each hole is then reviewed with a five-way
self-rating. Each user accumulates points per hole, and an "iteration advance"
decays those points.

This project models the two pieces that carry that logic:

- **The hole-marker parser** (`frontend/src/lib/holeParser.ts`).
  - `HoleGrammar` gives the meaning of the marker pattern at one position. The id is
    the maximal run of at least six `[0-9a-fA-F-]` characters. It is followed by
    `|`. The text runs lazily up to the first `]]`.
  - `HoleParser` holds the rest:
    - the leftmost-first scan (`Matches`);
    - `extractHoles`, which de-duplicates by id with the first occurrence winning (`ExtractHoles`);
    - `segmentContent`, which splits the content into html and hole segments (`SegmentContent`).
  - The scan is written as recursion over suffixes. It does the same thing as the
    source's `exec`/`lastIndex` loop: after a match it resumes right after the
    marker, and otherwise it moves on one character.
- **The hole store and the four handlers that change it** (`server.js`), in `HoleStore`.
  - The `holes` and `hole_states` tables become maps. `hole_states` is keyed by the
    (hole, user) pair its UNIQUE constraint names. The courses become a set of ids.
  - Each handler is a total function from the store and the decoded request to a
    status (`Ok`, `BadRequest`, `NotFound`) and the new store. The four handlers are:
    - sync-holes (`SyncHoles`);
    - review (`Review`);
    - iteration advance (`Advance`);
    - course delete (`DeleteCourse`).
  - Points are kept as a natural number of half-points. They only ever change by +1,
    by +0.5, by a reset to 0, or to max(0, P - 1), starting from 0. While the points
    stay below 2^52, a double holds every such half-integer, so the model is exact
    there: `Value(p) = p / 2` is the number the source stores, and the contracts state
    the source's arithmetic through it. Above that bound the two part ways (see
    "Left out").
  - A numeric request field is an `Option<int>`: `Some(n)` when `Number(x)` is the
    integer n, and `None` for NaN, fractions and missing fields.

`StoreProperties` relates several handler calls to each other. `Scenarios` works two
concrete examples through the parser and the store.

Course delete runs its two cascading DELETEs (server.js:246-250) before the course
row itself is deleted and checked (server.js:251-254). So a request for a missing
course still replies 404, but it first removes any holes (and their states) that
name that course id. `DeleteCourse` models this order. `DeleteMissingWritesNothing`
shows that on a store where every hole's course exists, this NotFound reply writes
nothing.

## Model

| member | source | states |
|---|---|---|
| HoleGrammar.IdRun | frontend/src/lib/holeParser.ts:1 | the id group `[0-9a-fA-F-]{6,}` before the bar: the run it measures consists of id characters and is maximal (the next character is not one) |
| HoleGrammar.FindClose | frontend/src/lib/holeParser.ts:1 | the lazy `([\s\S]*?)\]\]`: the position found is a `]]` and no `]]` starts earlier; None means there is no `]]` at or after the bar |
| HoleGrammar.MatchPrefix | frontend/src/lib/holeParser.ts:1 | a match at the start of a string spans a non-empty prefix and reports a well-formed hole: an id of at least 6 id characters and a text with no `]]` that does not end in `]` |
| HoleGrammar.MatchPrefixSound | frontend/src/lib/holeParser.ts:1 | the characters a match spans are exactly `[[HOLE:` + id + bar + text + `]]` of the hole it reports |
| HoleGrammar.MatchPrefixEncoded | frontend/src/lib/holeParser.ts:1 | a well-formed marker at the start of a string is matched there in full, whatever follows it (the lazy text stops at the marker's own `]]`) |
| HoleGrammar.MatchPrefixIff | frontend/src/lib/holeParser.ts:1 | the pattern matches at a position with hole h and length e if and only if h is well formed, e is the length of its marker, and that marker is spelled there |
| HoleParser.Matches | frontend/src/lib/holeParser.ts:17-19 | every match the scan reports carries an id of at least 6 `[0-9a-fA-F-]` characters and a text the lazy group can produce |
| HoleParser.LeftmostFirst | frontend/src/lib/holeParser.ts:17-19 | when q is the first position at which a marker starts, the first match `regex.exec` reports is that marker, and the scan resumes right after its `]]` (lastIndex), so the rest of the matches are the scan of what follows it |
| HoleParser.SkipNoMarkers | frontend/src/lib/holeParser.ts:17-19 | positions at which no marker starts contribute nothing: the scan of the content equals the scan of its suffix from the first such position on |
| HoleParser.NoneAnywhere | frontend/src/lib/holeParser.ts:17-19 | the scan reports no match if and only if no marker starts at any position of the content |
| HoleParser.MatchesEncodeAll | frontend/src/lib/holeParser.ts:1 | markers of well-formed holes written back to back scan to exactly those holes, in order: no match starts inside a marker just consumed |
| HoleParser.FirstIndex | frontend/src/lib/holeParser.ts:17-23 | the position returned carries the id and no earlier position does |
| HoleParser.Dedup | frontend/src/lib/holeParser.ts:14-23 | with a `seen` set: the result has distinct ids, its ids are those scanned minus `seen`, each element is the first scanned match with its id, and elements appear in order of first occurrence |
| HoleParser.ExtractHoles | frontend/src/lib/holeParser.ts:12-26 | extractHoles returns pairwise-distinct ids, exactly the ids of the markers the left-to-right scan finds (a marker spelled inside an earlier match's text is not found); each element is that id's first occurrence (its text included), in order of first occurrence |
| HoleParser.ExtractedShape | frontend/src/lib/holeParser.ts:1 | every extracted id is at least 6 characters of `[0-9a-fA-F-]` and no extracted text contains `]]` |
| HoleParser.DedupDistinct | frontend/src/lib/holeParser.ts:17-23 | on matches whose ids are already distinct and not yet seen, de-duplication changes nothing |
| HoleParser.ExtractIdempotent | frontend/src/lib/holeParser.ts:12-26 | writing the extracted holes back as markers and extracting again gives the same list |
| HoleParser.SegmentFromShape | frontend/src/lib/holeParser.ts:34-44 | the loop never emits an empty html span or two html spans in a row, and emits nothing only when there was nothing to segment |
| HoleParser.SegmentContent | frontend/src/lib/holeParser.ts:28-51 | segmentContent never returns an empty list; empty content gives exactly `[html ""]`; an empty html segment occurs only in that case; no two html segments are adjacent |
| HoleParser.SegmentFromRender | frontend/src/lib/holeParser.ts:34-44 | the pending html followed by the rest of the content is reproduced by concatenating the segments, each hole re-encoded as its marker |
| HoleParser.SegmentRoundTrip | frontend/src/lib/holeParser.ts:28-51 | concatenating the html segments, with each hole segment re-encoded as `[[HOLE:` + id + bar + text + `]]`, reproduces the content exactly |
| HoleParser.SegmentFromHoles | frontend/src/lib/holeParser.ts:34-40 | the hole segments the loop emits are the scanned matches, in order |
| HoleParser.SegmentHoles | frontend/src/lib/holeParser.ts:28-51 | the hole segments of segmentContent are the markers the left-to-right scan finds, in order, duplicates included; a marker spelled inside an earlier match's text is not among them |
| HoleParser.ExtractedIdsAreSegmentIds | frontend/src/lib/holeParser.ts:12-44 | the ids extractHoles returns are exactly the ids of segmentContent's hole segments on the same content |
| HoleParser.NoMarkersOneSegment | frontend/src/lib/holeParser.ts:42-48 | content with no marker is a single html segment holding all of it |
| HoleStore.ParseRating | server.js:329-339 | a rating string is accepted if and only if it is one of the five keys `oui`, `plutot_oui`, `neutre`, `plutot_non`, `non`, and the rating it names spells that string |
| HoleStore.ParseRatingName | server.js:329-335 | every rating is recognised from its own name |
| HoleStore.Apply | server.js:346-353 | `oui` gives P + 1, `plutot_oui` gives P + 0.5, the three others give exactly 0; the result is a non-negative number of half-points |
| HoleStore.Review | server.js:319-371 | the reply is Ok if and only if holeId is non-empty, userId is a positive integer and rating is a string among the five keys; otherwise it is BadRequest and the store is unchanged. On Ok, only the (hole, user) state changes, a missing state reads as 0, the new points follow the increments table, and the reply returns them |
| HoleStore.Decay | server.js:384 | `CASE WHEN points - 1 < 0 THEN 0 ELSE points - 1 END` on the stored value |
| HoleStore.Advance | server.js:373-397 | Ok if and only if userId is a positive integer, else BadRequest with the store unchanged. Every in-scope state of the user becomes max(0, P - 1), all other states are unchanged, the state keys, holes and courses stay the same, and the count is the number of in-scope rows |
| HoleStore.ValidPositions | server.js:271-273 | the positions of the entries with a string id and a string text: strictly increasing, each holding a valid entry, every valid position listed (so this list is unique) |
| HoleStore.ValidHoles | server.js:271-273 | the filter keeps the valid entries in request order, each as often as it occurs: element k is the entry at the k-th valid position |
| HoleStore.ValidHolesMembers | server.js:271-273 | every kept element is an entry of the request, every valid entry is kept, and nothing is dropped when all entries are valid |
| HoleStore.ValidCount | server.js:271-273 | the filter keeps exactly as many elements as there are positions holding a valid entry |
| HoleStore.LastValidEntry | server.js:271-287 | the element the upsert loop writes last for an id comes from a valid request entry with that id and its text, and no later valid entry carries that id |
| HoleStore.LastIndex | server.js:281-287 | the position returned carries the id and no later position does |
| HoleStore.UpsertAll | server.js:281-287 | after the upsert loop the hole ids are the old ones plus the listed ones; a listed id holds the course and the text of its last entry; unlisted holes are untouched |
| HoleStore.SyncHoles | server.js:261-293 | a non-positive or non-integer course id or a non-array `holes` is BadRequest; a missing course is NotFound; both write nothing. Otherwise Ok, with `synced` equal to the number of valid entries, courses and states unchanged, and holes upserted as in UpsertAll |
| HoleStore.DeleteCourse | server.js:239-259 | an invalid id is BadRequest with no write. Otherwise the reply is Ok if and only if the course existed, and NotFound if and only if it did not. The course is gone, exactly the holes of that course are gone, and exactly the states of those holes are gone; everything else keeps its value |
| StoreProperties.SyncKeepsConsistent | server.js:276-287 | sync never leaves a hole pointing at a course that does not exist |
| StoreProperties.DeleteKeepsConsistent | server.js:246-251 | course delete, found or not, leaves no hole pointing at a missing course |
| StoreProperties.ReviewAndAdvanceKeepConsistent | server.js:342-393 | reviews and advances preserve the rule that every hole's course exists |
| StoreProperties.SyncCountsValidEntries | server.js:271-289 | on an existing course, `synced` is the number of request entries with a string id and a string text, duplicates included |
| StoreProperties.SyncLastEntryWins | server.js:281-287 | for an id listed several times, the stored hole holds the text of the last valid entry with that id and belongs to the synced course |
| StoreProperties.SyncIdempotent | server.js:261-293 | running the same sync twice gives the same store and the same reply as running it once |
| StoreProperties.UpsertAllIdempotent | server.js:281-287 | replaying the same upserts over their own result changes nothing |
| StoreProperties.SyncNothingListed | server.js:271-289 | on an existing course, a sync with no valid entry replies `synced: 0` and changes nothing |
| StoreProperties.DeleteMissingWritesNothing | server.js:246-253 | on a store where every hole's course exists, deleting a missing course replies NotFound and writes nothing |
| StoreProperties.DeleteRemovesCourse | server.js:246-251 | after a delete, the course is absent, no hole belongs to it, and no state refers to one of its former holes |
| StoreProperties.DeleteTwice | server.js:251-254 | deleting the same course again replies NotFound and changes nothing |
| StoreProperties.SyncAfterDelete | server.js:276-279 | a sync on a course that was just deleted replies NotFound |
| StoreProperties.ReviewReadBack | server.js:342-367 | after a review, the stored points are those in the reply; the first review of a pair adds one state row and later reviews keep the number of rows (at most one state per pair) |
| StoreProperties.ReviewFrame | server.js:355-365 | a review leaves the points of every other (hole, user) pair unchanged |
| StoreProperties.ResetForgetsHistory | server.js:349-353 | after a `neutre`, `plutot_non` or `non`, the next review replies as if the pair had never been reviewed |
| StoreProperties.AdvanceUndoesOui | server.js:346-389 | an in-scope advance takes back exactly the point that an `oui` just added |
| StoreProperties.AdvanceCountsZeroRows | server.js:384-393 | an in-scope state already at 0 stays at 0 and is still counted |
| StoreProperties.AdvanceEmptyScope | server.js:392-393 | an empty scope replies `updated: 0`, which is not an error, and changes nothing |
| StoreProperties.CourseFilterScope | server.js:376-390 | a positive integer courseId narrows the advance to the user's rows whose hole belongs to that course; any other courseId leaves all of the user's rows in scope |
| StoreProperties.AdvanceFilterShrinksScope | server.js:386-390 | a course filter never matches more rows than no filter |
| StoreProperties.AdvanceOtherCourse | server.js:386-390 | under a course filter, the user's states on holes of other courses are unchanged |
| StoreProperties.AdvanceTimesDecays | server.js:384 | after n in-scope advances, a state holds max(0, P - n): points reach 0 after at most ceil(P) iterations |
| StoreProperties.AdvanceTimesKeepsHoles | server.js:384-390 | repeated advances never change the holes table |
| Scenarios.ExtractExample | frontend/src/lib/holeParser.ts:12-26 | extractHoles on the content `A `, the marker for (`abc123`, `secret`), then ` B`, gives the single hole (`abc123`, `secret`) |
| Scenarios.SegmentAroundMarker | frontend/src/lib/holeParser.ts:34-44 | non-empty html without `[` on both sides of one well-formed marker gives exactly three segments: that html, the hole, that html |
| Scenarios.SegmentExample | frontend/src/lib/holeParser.ts:28-51 | segmentContent on the same content gives html `A `, the hole, then html ` B` |
| Scenarios.SwallowedMarker | frontend/src/lib/holeParser.ts:1-19 | in `[[HOLE:aaaaaa` + bar followed by the marker for (`bbbbbb`, `y`), a marker starts at position 14, yet the lazy text of the marker at 0 runs to the only `]]`: the scan finds the outer hole alone, with text `[[HOLE:bbbbbb` + bar + `y`, and `bbbbbb` is not among the extracted ids |
| Scenarios.CourseLifecycle | server.js:261-371 | syncing one hole into an existing course replies `synced: 1`; a first `oui` by user 7 then gives 1 point, and a following `non` gives 0 |
| Scenarios.AdvanceExample | server.js:373-397 | a user with states of 2 and 0.5 points and no course filter gets `updated: 2`, and the points become 1 and 0 |

## Left out

- Express routing, CORS, JSON body parsing and HTTP status codes. Request bodies are
  already-decoded values (`Option<int>` for `Number(...)`, `Option<string>` for a
  field that must be a string). Replies are the `Response` datatype.
- The SQLite engine, the SQL strings and the `run`/`get`/`all` promise wrappers
  (server.js:58-92). The tables are maps and a set.
- The 500 "Erreur interne." replies. A store failure cannot be expressed over maps.
- Timestamps (`created_at`, `updated_at`, `CURRENT_TIMESTAMP`). They depend on the
  clock, and none of the four modelled handlers reads them.
- String encoding. JavaScript strings are sequences of UTF-16 code units, while a
  Dafny `string` holds Unicode scalar values. So a lone surrogate cannot be
  represented here, and indices differ for characters outside the Basic
  Multilingual Plane. Every character the marker pattern names is ASCII, so which
  markers match, and the slices between them, are the same in both.
- Floating-point points. The source adds to a JavaScript double (server.js:350) and
  stores it in a REAL column (server.js:49). A double represents every half-integer
  only below 2^52. From 2^52 on, `P + 0.5` is rounded; from 2^53 on, `P + 1` is too
  (at P = 2^53, `P + 1 == P`); and above 2^53, `P - 1` is rounded as well.
  The model's natural number of half-points never rounds, so it agrees with the source
  only while the points stay below 2^52. Reaching that bound takes more than 4 * 10^15
  reviews of one hole.
- ParseRating: the source accepts any `rating` for which `rating in increments`
  holds, and that includes inherited object keys such as `toString`
  (server.js:337). The model accepts only the five keys. The inherited-key path is
  not reproduced.
- The read-then-write race between two concurrent reviews of the same pair
  (server.js:342-365). Each handler is one atomic step here.
- The user and course create/read/update handlers (server.js:98-237). They pass
  values straight through to the store.
- GET /courses/:courseId/holes (server.js:295-317). It only reads, and it changes no state.
- Foreign keys. SQLite does not enforce them unless told to, and the server never
  does. So a review of a hole id that is not in `holes` is accepted and creates a
  state, as in the source.
- The React components, `frontend/src/api/*.ts` and `frontend/src/lib/storage.ts`.
  These are the user interface, the fetch wrappers and localStorage I/O.
