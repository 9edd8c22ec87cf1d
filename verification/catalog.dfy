/** The question catalog (`QUIZ_DATA`) and the two queries the progress
    tracker runs over it: the unsolved filter and the lookup by id. */
module Catalog {
  import opened Wrappers

  /** A question id.  The catalog is plain JavaScript data, so an id is a
      number or a string; both `Set.has`/`includes` (SameValueZero) and `===`
      coincide with structural equality on these. */
  datatype Id = Num(n: int) | Str(s: string)

  /** JavaScript truthiness of an id: `0` and `""` are falsy. */
  predicate Truthy(id: Id)
  {
    match id
    case Num(n) => n != 0
    case Str(s) => s != ""
  }

  /** One catalog record.  `answer` is the 1-based position of the correct
      choice; the catalog is trusted, so nothing bounds it. */
  datatype Question = Question(
    id: Id,
    question: string,
    passage: Option<string>,
    choices: seq<string>,
    answer: int,
    explanation: string)

  /** No two catalog questions share an id. */
  predicate UniqueIds(catalog: seq<Question>)
  {
    forall i, j :: 0 <= i < j < |catalog| ==> catalog[i].id != catalog[j].id
  }

  /** Every catalog id is truthy (no `0`, no `""`). */
  predicate AllTruthy(catalog: seq<Question>)
  {
    forall i :: 0 <= i < |catalog| ==> Truthy(catalog[i].id)
  }

  /** `getUnsolvedQuestions`: the catalog questions whose id is not among
      the solved ids.  Membership is exactly that; the order is the
      catalog's (see `UnsolvedAppend`). */
  function Unsolved(catalog: seq<Question>, solvedIds: seq<Id>): (r: seq<Question>)
    ensures forall q :: q in r <==> q in catalog && q.id !in solvedIds
    ensures |r| <= |catalog|
  {
    if |catalog| == 0 then []
    else
      (if catalog[0].id in solvedIds then [] else [catalog[0]])
      + Unsolved(catalog[1..], solvedIds)
  }

  /** The filter distributes over concatenation: a catalog split in two is
      filtered part by part, so the catalog order is kept. */
  lemma {:induction false} UnsolvedAppend(a: seq<Question>, b: seq<Question>, solvedIds: seq<Id>)
    ensures Unsolved(a + b, solvedIds) == Unsolved(a, solvedIds) + Unsolved(b, solvedIds)
    decreases |a|
  {
    if |a| > 0 {
      assert (a + b)[0] == a[0];
      assert (a + b)[1..] == a[1..] + b;
      UnsolvedAppend(a[1..], b, solvedIds);
    } else {
      assert a + b == b;
    }
  }

  /** Nothing is left exactly when every catalog id has been solved. */
  lemma AllSolvedIffNoneUnsolved(catalog: seq<Question>, solvedIds: seq<Id>)
    ensures Unsolved(catalog, solvedIds) == [] <==>
            forall i :: 0 <= i < |catalog| ==> catalog[i].id in solvedIds
  {
  }

  /** Solving the id of an unsolved question removes at least that question
      from the unsolved list. */
  lemma {:induction false} UnsolvedShrinks(catalog: seq<Question>, solvedIds: seq<Id>, id: Id)
    requires exists q :: q in Unsolved(catalog, solvedIds) && q.id == id
    ensures |Unsolved(catalog, solvedIds + [id])| < |Unsolved(catalog, solvedIds)|
    decreases |catalog|
  {
    UnsolvedMonotone(catalog[1..], solvedIds, id);
    if catalog[0].id != id {
      var q :| q in Unsolved(catalog, solvedIds) && q.id == id;
      assert q in catalog[1..] by {
        assert q in catalog && q != catalog[0];
      }
      assert q in Unsolved(catalog[1..], solvedIds);
      UnsolvedShrinks(catalog[1..], solvedIds, id);
    }
  }

  /** Solving one more id never grows the unsolved list. */
  lemma {:induction false} UnsolvedMonotone(catalog: seq<Question>, solvedIds: seq<Id>, id: Id)
    ensures |Unsolved(catalog, solvedIds + [id])| <= |Unsolved(catalog, solvedIds)|
    decreases |catalog|
  {
    if |catalog| > 0 {
      UnsolvedMonotone(catalog[1..], solvedIds, id);
    }
  }

  /** `find((q) => q.id === id)`: the first question carrying `id`. */
  function FindById(qs: seq<Question>, id: Id): (r: Option<Question>)
    ensures r.None? <==> forall q :: q in qs ==> q.id != id
    ensures r.Some? ==> exists k :: 0 <= k < |qs| && qs[k] == r.value && r.value.id == id
                                    && forall i :: 0 <= i < k ==> qs[i].id != id
  {
    if |qs| == 0 then None
    else if qs[0].id == id then Some(qs[0])
    else
      var r := FindById(qs[1..], id);
      assert r.Some? ==> exists k :: 0 <= k < |qs[1..]| && qs[1..][k] == r.value && r.value.id == id
                                      && forall i :: 0 <= i < k ==> qs[1..][i].id != id;
      if r.Some? then
        var k :| 0 <= k < |qs[1..]| && qs[1..][k] == r.value && r.value.id == id
                  && forall i :: 0 <= i < k ==> qs[1..][i].id != id;
        assert qs[k + 1] == r.value;
        assert forall i :: 0 <= i < k + 1 ==> qs[i].id != id by {
          forall i | 0 <= i < k + 1 ensures qs[i].id != id {
            if i > 0 { assert qs[i] == qs[1..][i - 1]; }
          }
        }
        r
      else
        assert forall q :: q in qs ==> q.id != id by {
          forall q | q in qs ensures q.id != id {
            if q != qs[0] { assert q in qs[1..]; }
          }
        }
        r
  }

  /** With unique ids, the lookup finds the one question with that id. */
  lemma FindByUniqueId(catalog: seq<Question>, solvedIds: seq<Id>, q: Question)
    requires UniqueIds(catalog)
    requires q in Unsolved(catalog, solvedIds)
    ensures FindById(Unsolved(catalog, solvedIds), q.id) == Some(q)
  {
  }
}
