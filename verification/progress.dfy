/** The progress tracker of app.js: the persisted state, its fallback on
    bad stored data, question selection with resume, and marking a question
    solved.  The module-level `state` of the source is threaded explicitly as
    a `Tracker`, which pairs the in-memory state with the stored value. */
module Progress {
  import opened Wrappers
  import opened Catalog

  /** `{ solvedIds, currentId }`; `None` is `null`. */
  datatype ProgressState = ProgressState(solvedIds: seq<Id>, currentId: Option<Id>)

  /** `{ solvedIds: [], currentId: null }`. */
  function EmptyState(): ProgressState
  {
    ProgressState([], None)
  }

  /** What the key-value store holds under the progress key, as far as
      `loadProgress` can tell: nothing (or the empty string); text that `JSON.parse` rejects (or
      that parses to `null`, whose field access throws); or an object whose
      `solvedIds` is an array (`Some`) or anything else (`None`), and whose
      `currentId` is an id or missing/`null` (`None`). */
  datatype Stored =
    | Absent
    | Malformed
    | Record(solvedArray: Option<seq<Id>>, current: Option<Id>)

  /** The stored value is unusable and loading falls back to the empty state. */
  predicate Unusable(stored: Stored)
  {
    stored.Absent? || stored.Malformed? || (stored.Record? && stored.solvedArray.None?)
  }

  /** `loadProgress`: never fails; the three unusable shapes give the empty
      state, a usable record is passed through unchanged (no deduplication)
      with a missing `currentId` read as `null`. */
  function LoadProgress(stored: Stored): (s: ProgressState)
    ensures Unusable(stored) ==> s == EmptyState()
    ensures !Unusable(stored) ==>
      s.solvedIds == stored.solvedArray.value && s.currentId == stored.current
  {
    match stored
    case Absent => EmptyState()
    case Malformed => EmptyState()
    case Record(solved, current) =>
      if solved.None? then EmptyState()
      else ProgressState(solved.value, current)
  }

  /** `saveProgress`: what `JSON.stringify(state)` writes reads back as the
      same state. */
  function SaveProgress(s: ProgressState): (stored: Stored)
    ensures !Unusable(stored)
    ensures LoadProgress(stored) == s
  {
    Record(Some(s.solvedIds), s.currentId)
  }

  /** `resetProgress`: the key is removed, so the next load is empty. */
  function ResetProgress(): (stored: Stored)
    ensures LoadProgress(stored) == EmptyState()
  {
    Absent
  }

  /** The in-memory state together with what the store holds. */
  datatype Tracker = Tracker(state: ProgressState, store: Stored)

  /** Reloading the page would rebuild exactly the in-memory state. */
  predicate Synced(t: Tracker)
  {
    LoadProgress(t.store) == t.state
  }

  /** Page start: `let state = loadProgress()`. */
  function Start(store: Stored): (t: Tracker)
    ensures t.store == store && Synced(t)
  {
    Tracker(LoadProgress(store), store)
  }

  /** How the resume branch tests `currentId`: the source's truthiness test
      `if (state.currentId)`, or plain presence (`!= null`). */
  datatype ResumeTest = Truthiness | Presence

  predicate Passes(test: ResumeTest, current: Option<Id>)
  {
    current.Some? && (test.Presence? || Truthy(current.value))
  }

  /** The current question can be resumed: `currentId` passes the test and
      some unsolved question carries it. */
  predicate Resumable(catalog: seq<Question>, s: ProgressState, test: ResumeTest)
  {
    && Passes(test, s.currentId)
    && exists q :: q in Unsolved(catalog, s.solvedIds) && q.id == s.currentId.value
  }

  /** The draw `Math.floor(Math.random() * unsolved.length)` is in range. */
  predicate ValidDraw(catalog: seq<Question>, s: ProgressState, k: nat)
  {
    Unsolved(catalog, s.solvedIds) != [] ==> k < |Unsolved(catalog, s.solvedIds)|
  }

  /** The result of `pickQuestion`: the question (`None` is `null`, i.e. the
      quiz is complete) and the tracker afterwards. */
  datatype Picked = Picked(question: Option<Question>, tracker: Tracker)

  /** `pickQuestion` with the resume test as a parameter.  Complete when
      nothing is unsolved; otherwise resume the current question; otherwise
      take the drawn unsolved question, make it current and save. */
  function Pick(catalog: seq<Question>, t: Tracker, k: nat, test: ResumeTest): (r: Picked)
    requires ValidDraw(catalog, t.state, k)
    ensures r.question.None? <==> Unsolved(catalog, t.state.solvedIds) == []
    ensures r.question.None? ==> r.tracker == t
    ensures r.tracker.state.solvedIds == t.state.solvedIds
    ensures r.question.Some? ==>
      && r.question.value in Unsolved(catalog, t.state.solvedIds)
      && r.tracker.state.currentId == Some(r.question.value.id)
    ensures Resumable(catalog, t.state, test) ==>
      && r.tracker == t
      && r.question == FindById(Unsolved(catalog, t.state.solvedIds), t.state.currentId.value)
    ensures Unsolved(catalog, t.state.solvedIds) != [] && !Resumable(catalog, t.state, test) ==>
      && r.question == Some(Unsolved(catalog, t.state.solvedIds)[k])
      && r.tracker.store == SaveProgress(r.tracker.state)
    ensures Synced(t) ==> Synced(r.tracker)
  {
    var unsolved := Unsolved(catalog, t.state.solvedIds);
    if |unsolved| == 0 then Picked(None, t)
    else
      var found :=
        if Passes(test, t.state.currentId) then FindById(unsolved, t.state.currentId.value)
        else None;
      if found.Some? then Picked(found, t)
      else
        var q := unsolved[k];
        var s := t.state.(currentId := Some(q.id));
        Picked(Some(q), Tracker(s, SaveProgress(s)))
  }

  /** `pickQuestion` as written: a falsy `currentId` is never resumed. */
  function PickQuestion(catalog: seq<Question>, t: Tracker, k: nat): (r: Picked)
    requires ValidDraw(catalog, t.state, k)
    ensures Resumable(catalog, t.state, Truthiness) ==>
      && r.tracker == t
      && r.question.Some?
      && r.question.value.id == t.state.currentId.value
  {
    Pick(catalog, t, k, Truthiness)
  }

  /** `pickQuestion` as its comment describes it ("if there is a currentId
      that is not yet solved, that question first"): any present id resumes. */
  function PickQuestionIntended(catalog: seq<Question>, t: Tracker, k: nat): (r: Picked)
    requires ValidDraw(catalog, t.state, k)
    ensures Resumable(catalog, t.state, Presence) ==>
      && r.tracker == t
      && r.question.Some?
      && r.question.value.id == t.state.currentId.value
  {
    Pick(catalog, t, k, Presence)
  }

  /** No id is recorded twice. */
  predicate NoDuplicates(ids: seq<Id>)
  {
    forall i, j :: 0 <= i < j < |ids| ==> ids[i] != ids[j]
  }

  /** `markSolved`: record the id once, clear the current question, save. */
  function MarkSolved(t: Tracker, id: Id): (r: Tracker)
    ensures id in r.state.solvedIds
    ensures id in t.state.solvedIds ==> r.state.solvedIds == t.state.solvedIds
    ensures id !in t.state.solvedIds ==> r.state.solvedIds == t.state.solvedIds + [id]
    ensures (set x | x in r.state.solvedIds) == (set x | x in t.state.solvedIds) + {id}
    ensures t.state.solvedIds <= r.state.solvedIds
    ensures |r.state.solvedIds| <= |t.state.solvedIds| + 1
    ensures NoDuplicates(t.state.solvedIds) ==> NoDuplicates(r.state.solvedIds)
    ensures r.state.currentId.None?
    ensures Synced(r)
  {
    var solved :=
      if id in t.state.solvedIds then t.state.solvedIds else t.state.solvedIds + [id];
    var s := ProgressState(solved, None);
    Tracker(s, SaveProgress(s))
  }

  /** Marking the same id twice is the same as marking it once. */
  lemma MarkSolvedIdempotent(t: Tracker, id: Id)
    ensures MarkSolved(MarkSolved(t, id), id) == MarkSolved(t, id)
  {
  }

  /** Reset then load (the reset and restart buttons): the empty state, in
      sync with the emptied store. */
  function Restart(): (t: Tracker)
    ensures t.state == EmptyState() && Synced(t)
  {
    Start(ResetProgress())
  }
}
