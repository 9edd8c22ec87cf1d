/** Properties of the tracker across several operations: the state
    invariant, play rounds (pick, answer, mark solved), completion, and
    resuming after a page reload. */
module Session {
  import opened Wrappers
  import opened Catalog
  import opened Progress

  /** The design invariant of the progress state: no id is recorded twice,
      and the current question is a catalog question not yet solved. */
  predicate WellFormed(catalog: seq<Question>, s: ProgressState)
  {
    && NoDuplicates(s.solvedIds)
    && (s.currentId.Some? ==>
          s.currentId.value !in s.solvedIds
          && exists q :: q in catalog && q.id == s.currentId.value)
  }

  /** Picking keeps the invariant, whichever resume test is used. */
  lemma PickKeepsWellFormed(catalog: seq<Question>, t: Tracker, k: nat, test: ResumeTest)
    requires ValidDraw(catalog, t.state, k)
    requires WellFormed(catalog, t.state)
    ensures WellFormed(catalog, Pick(catalog, t, k, test).tracker.state)
  {
  }

  /** A loaded record is passed through as is, so the invariant holds only
      for states built from the empty state: a stored list with a repeated
      id loads with the repetition. */
  lemma LoadKeepsDuplicates()
    ensures !NoDuplicates(LoadProgress(Record(Some([Num(7), Num(7)]), None)).solvedIds)
  {
    var ids := LoadProgress(Record(Some([Num(7), Num(7)]), None)).solvedIds;
    assert ids[0] == ids[1];
  }

  /** One round of play: the next button picks a question, the user answers
      it and it is marked solved.  `test` selects the resume test: the
      source's `Truthiness` or the corrected `Presence`. */
  function Round(catalog: seq<Question>, t: Tracker, k: nat, test: ResumeTest): (r: Tracker)
    requires Unsolved(catalog, t.state.solvedIds) != []
    requires ValidDraw(catalog, t.state, k)
    ensures |Unsolved(catalog, r.state.solvedIds)| < |Unsolved(catalog, t.state.solvedIds)|
    ensures WellFormed(catalog, t.state) ==> WellFormed(catalog, r.state)
    ensures r.state.currentId.None? && Synced(r)
  {
    var p := Pick(catalog, t, k, test);
    var q := p.question.value;
    assert q in Unsolved(catalog, t.state.solvedIds);
    UnsolvedShrinks(catalog, t.state.solvedIds, q.id);
    assert WellFormed(catalog, t.state) ==> WellFormed(catalog, p.tracker.state) by {
      if WellFormed(catalog, t.state) {
        PickKeepsWellFormed(catalog, t, k, test);
      }
    }
    MarkSolved(p.tracker, q.id)
  }

  /** `ts` is a sequence of trackers where each is one round after the
      previous one, with the draws `ks` and the resume test `test`. */
  predicate IsRun(catalog: seq<Question>, ts: seq<Tracker>, ks: seq<nat>, test: ResumeTest)
  {
    && |ts| == |ks| + 1
    && forall i :: 0 <= i < |ks| ==>
         && Unsolved(catalog, ts[i].state.solvedIds) != []
         && ValidDraw(catalog, ts[i].state, ks[i])
         && ts[i + 1] == Round(catalog, ts[i], ks[i], test)
  }

  /** Every round solves at least one question, so a run has at most as many
      rounds as there were unsolved questions, and after that many rounds
      nothing is left. */
  lemma {:induction false} RunSolvesOnePerRound(catalog: seq<Question>, ts: seq<Tracker>, ks: seq<nat>, test: ResumeTest)
    requires IsRun(catalog, ts, ks, test)
    ensures |Unsolved(catalog, ts[|ts| - 1].state.solvedIds)| + |ks|
            <= |Unsolved(catalog, ts[0].state.solvedIds)|
    decreases |ks|
  {
    if |ks| > 0 {
      RunTail(catalog, ts, ks, test);
      RunSolvesOnePerRound(catalog, ts[1..], ks[1..], test);
      assert ts[1] == Round(catalog, ts[0], ks[0], test);
    }
  }

  /** A run without its first round is a run. */
  lemma RunTail(catalog: seq<Question>, ts: seq<Tracker>, ks: seq<nat>, test: ResumeTest)
    requires IsRun(catalog, ts, ks, test) && |ks| > 0
    ensures IsRun(catalog, ts[1..], ks[1..], test)
  {
  }

  /** From a fresh start, a catalog of `n` questions is complete after any
      `n` rounds: the next pick reports completion. */
  lemma CompleteAfterCatalogSizeRounds(catalog: seq<Question>, ts: seq<Tracker>, ks: seq<nat>, test: ResumeTest, k: nat)
    requires IsRun(catalog, ts, ks, test)
    requires ts[0] == Restart()
    requires |ks| == |catalog|
    ensures Unsolved(catalog, ts[|ts| - 1].state.solvedIds) == []
    ensures ValidDraw(catalog, ts[|ts| - 1].state, k)
            && Pick(catalog, ts[|ts| - 1], k, test).question.None?
  {
    RunSolvesOnePerRound(catalog, ts, ks, test);
  }

  /** With the corrected resume test, a page reload right after a pick picks
      the same question again and changes nothing. */
  lemma ReloadResumes(catalog: seq<Question>, t: Tracker, k: nat, k': nat)
    requires UniqueIds(catalog) && Synced(t)
    requires ValidDraw(catalog, t.state, k) && ValidDraw(catalog, t.state, k')
    ensures var p := PickQuestionIntended(catalog, t, k);
            p.question.Some? ==> PickQuestionIntended(catalog, Start(p.tracker.store), k') == p
  {
  }

  /** The source's truthiness test behaves the same when no catalog id is
      falsy. */
  lemma ReloadResumesTruthyIds(catalog: seq<Question>, t: Tracker, k: nat, k': nat)
    requires UniqueIds(catalog) && AllTruthy(catalog) && Synced(t)
    requires ValidDraw(catalog, t.state, k) && ValidDraw(catalog, t.state, k')
    ensures var p := PickQuestion(catalog, t, k);
            p.question.Some? ==> PickQuestion(catalog, Start(p.tracker.store), k') == p
  {
  }

  /** A question with id `0`: as written, `if (state.currentId)` is false
      for it, so after a reload a different question is drawn instead of
      resuming it. */
  lemma FalsyIdNotResumed()
    ensures var q0 := Question(Num(0), "first", None, ["a", "b"], 1, "");
            var q1 := Question(Num(1), "second", None, ["a", "b"], 2, "");
            var p := PickQuestion([q0, q1], Restart(), 0);
            && p.question == Some(q0)
            && PickQuestion([q0, q1], Start(p.tracker.store), 1).question == Some(q1)
  {
  }
}
