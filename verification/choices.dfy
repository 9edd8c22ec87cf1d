/** Answer-choice packing and the lookup of the correct choice after the
    choices have been shuffled (app.js, `renderQuestion` and the choice click
    handler). */
module Choices {
  import Shuffle

  /** One packed answer choice: its text and whether it is the right one. */
  datatype Choice = Choice(text: string, isCorrect: bool)

  /** The texts of a list of choices, in order. */
  function Texts(cs: seq<Choice>): (r: seq<string>)
    ensures |r| == |cs|
  {
    if |cs| == 0 then [] else [cs[0].text] + Texts(cs[1..])
  }

  /** Exactly one choice is marked correct, the one at index `k`. */
  predicate OnlyCorrectAt(cs: seq<Choice>, k: int)
  {
    && 0 <= k < |cs|
    && cs[k].isCorrect
    && forall i :: 0 <= i < |cs| && i != k ==> !cs[i].isCorrect
  }

  /** No choice is marked correct. */
  predicate NoneCorrect(cs: seq<Choice>)
  {
    forall i :: 0 <= i < |cs| ==> !cs[i].isCorrect
  }

  /** `answer` is a valid 1-based position into the choices. */
  predicate AnswerInRange(choices: seq<string>, answer: int)
  {
    1 <= answer <= |choices|
  }

  /** Tag each choice with `isCorrect: idx + 1 === answer`.  The packing keeps
      the texts in order; it marks exactly the entry at `answer - 1` when the
      answer is a valid position and marks nothing otherwise. */
  function Pack(choices: seq<string>, answer: int): (r: seq<Choice>)
    ensures Texts(r) == choices
    ensures AnswerInRange(choices, answer) ==> OnlyCorrectAt(r, answer - 1)
    ensures !AnswerInRange(choices, answer) ==> NoneCorrect(r)
    decreases |choices|
  {
    if |choices| == 0 then []
    else [Choice(choices[0], answer == 1)] + Pack(choices[1..], answer - 1)
  }

  /** `findIndex((x) => x.isCorrect)`: the first correct position, or -1. */
  function FindCorrect(cs: seq<Choice>): (r: int)
    ensures -1 <= r < |cs|
    ensures r == -1 <==> NoneCorrect(cs)
    ensures r >= 0 ==> cs[r].isCorrect && forall i :: 0 <= i < r ==> !cs[i].isCorrect
  {
    if |cs| == 0 then -1
    else if cs[0].isCorrect then 0
    else
      var k := FindCorrect(cs[1..]);
      if k == -1 then -1 else k + 1
  }

  /** A value that occurs at two positions occurs at least twice. */
  lemma {:induction false} TwoPositionsTwoCopies<T>(s: seq<T>, a: nat, b: nat)
    requires a < b < |s| && s[a] == s[b]
    ensures multiset(s)[s[b]] >= 2
  {
    assert s == s[..b] + [s[b]] + s[b + 1..];
    assert s[a] in s[..b];
  }

  /** A value that occurs at one position only occurs exactly once. */
  lemma {:induction false} OnePositionOneCopy<T>(s: seq<T>, k: nat)
    requires k < |s|
    requires forall i :: 0 <= i < |s| && i != k ==> s[i] != s[k]
    ensures multiset(s)[s[k]] == 1
  {
    assert s == s[..k] + [s[k]] + s[k + 1..];
    assert s[k] !in s[..k];
    assert s[k] !in s[k + 1..];
  }

  /** In a rearrangement of choices with a single correct entry at `p`,
      every entry marked correct is that entry. */
  lemma CorrectEntriesAreTheOne(packed: seq<Choice>, p: int, shuffled: seq<Choice>)
    requires OnlyCorrectAt(packed, p)
    requires multiset(shuffled) == multiset(packed)
    ensures forall i :: 0 <= i < |shuffled| && shuffled[i].isCorrect ==> shuffled[i] == packed[p]
  {
    forall i | 0 <= i < |shuffled| && shuffled[i].isCorrect
      ensures shuffled[i] == packed[p]
    {
      assert shuffled[i] in multiset(packed);
      var q :| 0 <= q < |packed| && packed[q] == shuffled[i];
    }
  }

  /** A rearrangement of choices with a single correct entry at `p` has
      exactly one correct entry, equal to the one at `p`. */
  lemma OnlyCorrectAfterRearranging(packed: seq<Choice>, p: int, shuffled: seq<Choice>)
    requires OnlyCorrectAt(packed, p)
    requires multiset(shuffled) == multiset(packed)
    ensures exists k :: OnlyCorrectAt(shuffled, k) && shuffled[k] == packed[p]
  {
    var x := packed[p];
    OnePositionOneCopy(packed, p);
    CorrectEntriesAreTheOne(packed, p, shuffled);
    assert x in multiset(shuffled);
    var k :| 0 <= k < |shuffled| && shuffled[k] == x;
    forall i | 0 <= i < |shuffled| && i != k
      ensures !shuffled[i].isCorrect
    {
      if shuffled[i].isCorrect {
        if i < k {
          TwoPositionsTwoCopies(shuffled, i, k);
        } else {
          TwoPositionsTwoCopies(shuffled, k, i);
        }
        assert false;
      }
    }
    assert OnlyCorrectAt(shuffled, k);
  }

  /** Any rearrangement of the packed choices of a valid answer still has
      exactly one correct entry, carrying the text at `answer - 1`, and
      `findIndex` lands on it. */
  lemma CorrectAfterRearranging(choices: seq<string>, answer: int, shuffled: seq<Choice>)
    requires AnswerInRange(choices, answer)
    requires multiset(shuffled) == multiset(Pack(choices, answer))
    ensures var k := FindCorrect(shuffled);
            OnlyCorrectAt(shuffled, k) && shuffled[k] == Choice(choices[answer - 1], true)
  {
    var packed := Pack(choices, answer);
    assert packed[answer - 1].text == choices[answer - 1] by {
      TextsAt(packed, answer - 1);
    }
    OnlyCorrectAfterRearranging(packed, answer - 1, shuffled);
    var k :| OnlyCorrectAt(shuffled, k) && shuffled[k] == packed[answer - 1];
    assert FindCorrect(shuffled) == k;
  }

  /** A rearrangement of choices none of which is correct has none either. */
  lemma NoneCorrectStays(packed: seq<Choice>, shuffled: seq<Choice>)
    requires NoneCorrect(packed)
    requires multiset(shuffled) == multiset(packed)
    ensures NoneCorrect(shuffled)
  {
    forall i | 0 <= i < |shuffled|
      ensures !shuffled[i].isCorrect
    {
      assert shuffled[i] in multiset(packed);
    }
  }

  /** With an out-of-range answer no rearrangement has a correct entry, and
      `findIndex` gives -1. */
  lemma NoneCorrectAfterRearranging(choices: seq<string>, answer: int, shuffled: seq<Choice>)
    requires !AnswerInRange(choices, answer)
    requires multiset(shuffled) == multiset(Pack(choices, answer))
    ensures FindCorrect(shuffled) == -1
  {
    NoneCorrectStays(Pack(choices, answer), shuffled);
  }

  /** `Texts` reads the text of each choice. */
  lemma {:induction false} TextsAt(cs: seq<Choice>, i: nat)
    requires i < |cs|
    ensures Texts(cs)[i] == cs[i].text
    decreases i
  {
    if i > 0 {
      assert cs[1..][i - 1] == cs[i];
      TextsAt(cs[1..], i - 1);
    }
  }

  /** Pack the choices, shuffle them and locate the correct one
      (app.js:108-113 and 165-166).  `correctIdx + 1` is the 1-based number
      shown to the user as the right answer. */
  method ShuffleChoices(choices: seq<string>, answer: int, picks: seq<nat>)
    returns (shuffled: seq<Choice>, correctIdx: int)
    requires Shuffle.ValidPicks(picks, |choices|)
    ensures multiset(shuffled) == multiset(Pack(choices, answer))
    ensures AnswerInRange(choices, answer) ==>
      && OnlyCorrectAt(shuffled, correctIdx)
      && shuffled[correctIdx].text == choices[answer - 1]
    ensures !AnswerInRange(choices, answer) ==> correctIdx == -1 && NoneCorrect(shuffled)
  {
    var packed := Pack(choices, answer);
    shuffled := Shuffle.Shuffle(packed, picks);
    correctIdx := FindCorrect(shuffled);
    if AnswerInRange(choices, answer) {
      CorrectAfterRearranging(choices, answer, shuffled);
    } else {
      NoneCorrectAfterRearranging(choices, answer, shuffled);
    }
  }

  /** The click handler reports "correct" for the picked button exactly when
      it is the one `findIndex` located. */
  lemma PickedCorrectIffAtCorrectIdx(choices: seq<string>, answer: int, shuffled: seq<Choice>, idx: nat)
    requires multiset(shuffled) == multiset(Pack(choices, answer))
    requires idx < |shuffled|
    ensures shuffled[idx].isCorrect <==> idx == FindCorrect(shuffled)
  {
    if AnswerInRange(choices, answer) {
      CorrectAfterRearranging(choices, answer, shuffled);
    } else {
      NoneCorrectAfterRearranging(choices, answer, shuffled);
    }
  }
}
