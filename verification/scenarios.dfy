/**
 Worked sessions on a two-question store: the judging of a padded reply,
 a session won by knowing both answers, and one lost on the first question.
 */
module Scenarios {
  import opened Answers
  import opened Play

  function SampleStore(): Store {
    [Quiz("2+2?", "4"), Quiz("capital of France?", "Paris")]
  }

  /** Typing " 4 " for the first question counts as correct; the comparison
      is case-sensitive, so "paris" does not match "Paris". */
  lemma TestPaddedReply()
    ensures Judge(Typed(" 4 "), "4")
    ensures !Judge(Typed("paris"), "Paris")
  {
    var x := " 4 ";
    assert x[1..2] == "4";
    TrimUnique(x, 1, 2);
    var y := "paris";
    assert y[0..5] == y;
    TrimUnique(y, 0, 5);
  }

  /** The replies "4" and "Paris" are the sample store's answers. */
  lemma SampleRepliesCorrect()
    ensures Judge(Typed("4"), "4") && Judge(Typed("Paris"), "Paris")
  {
    assert "4"[0..1] == "4" && "Paris"[0..5] == "Paris";
    TrimUnique("4", 0, 1);
    TrimUnique("Paris", 0, 5);
  }

  /** Answering "4" and "Paris" wins with score 2, whatever order the
      questions come in. */
  lemma WinBoth(draws: seq<nat>)
    requires Tape(draws, 2)
    ensures Game(SampleStore(), [Typed("4"), Typed("Paris")], draws).final
              == Session([], 2, Exhausted)
  {
    var store := SampleStore();
    var answers := [Typed("4"), Typed("Paris")];
    SampleRepliesCorrect();
    assert forall id :: 0 <= id < |store| ==> Correct(store, answers, id) by {
      assert Correct(store, answers, 0) && Correct(store, answers, 1);
    }
    GameWonIff(store, answers, draws);
    var t := Game(store, answers, draws);
    assert |t.final.toBeResolved| == 0;
  }

  /** Answering "wrong" to whichever question comes first loses at once with
      score 0. */
  lemma LoseFirst(draws: seq<nat>)
    requires Tape(draws, 2)
    ensures Game(SampleStore(), [Typed("wrong"), Typed("wrong")], draws).final.status == Incorrect
    ensures Game(SampleStore(), [Typed("wrong"), Typed("wrong")], draws).final.score == 0
  {
    var store := SampleStore();
    var answers := [Typed("wrong"), Typed("wrong")];
    assert "wrong"[0..5] == "wrong";
    TrimUnique("wrong", 0, 5);
    assert !Correct(store, answers, 0) && !Correct(store, answers, 1);
    var t := Game(store, answers, draws);
    RunStopsAtFirstMiss(store, answers, Start(store), draws);
    assert t.final.status == Incorrect;
    assert !Correct(store, answers, t.asked[0]);
  }
}
