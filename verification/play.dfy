/**
 The `play` command: every quiz of the store is asked once, in random order,
 until the user misses one or none is left. The session keeps a working set
 of store indices still to be asked (`toBeResolved`) and a score; the store
 itself is only read.

 The random position drawn in each round is an input here: a tape `draws`
 whose k-th entry is the position picked in the k-th round, when the working
 set holds `count - k` indices. The user is an input too: `answers[id]` is
 what the user types when question `id` is posed (each question is posed at
 most once per session, see `Run`, so one reply per question is enough).
 */
module Play {
  import opened Answers

  /** One question/answer pair of the store. */
  datatype Quiz = Quiz(question: string, answer: string)

  /** The store as the session sees it: read-only, addressed by position. */
  type Store = seq<Quiz>

  /** `Playing` covers choosing the next question and waiting for its reply;
      the other two are the terminal states. */
  datatype Status = Playing | Exhausted | Incorrect

  datatype Session = Session(toBeResolved: seq<nat>, score: nat, status: Status)

  /** A whole session: the state it ends in and the store indices it asked,
      in order. */
  datatype Transcript = Transcript(final: Session, asked: seq<nat>)

  predicate Distinct(xs: seq<nat>) {
    forall i, j :: 0 <= i < j < |xs| ==> xs[i] != xs[j]
  }

  /** The invariant the session keeps: the working set holds valid store
      indices, each at most once, and together with the score it accounts
      for every question of the store. */
  predicate Valid(store: Store, s: Session) {
    && Distinct(s.toBeResolved)
    && (forall i :: 0 <= i < |s.toBeResolved| ==> s.toBeResolved[i] < |store|)
    && s.score + |s.toBeResolved| == |store|
    && (s.status == Exhausted ==> |s.toBeResolved| == 0)
    && (s.status == Incorrect ==> |s.toBeResolved| > 0)
  }

  /** The question with store index `id` was answered correctly. */
  predicate Correct(store: Store, answers: seq<Reply>, id: nat) {
    id < |store| && id < |answers| && Judge(answers[id], store[id].answer)
  }

  /** A tape of random positions for `n` rounds: the k-th is a position in a
      working set of `n - k` entries, as `Math.trunc(Math.random() * length)`
      yields. */
  predicate Tape(draws: seq<nat>, n: nat) {
    |draws| == n && forall k :: 0 <= k < n ==> draws[k] < n - k
  }

  /** The indices `0, 1, ..., n - 1`, in order. */
  function Range(n: nat): (r: seq<nat>)
    ensures |r| == n
    ensures forall i :: 0 <= i < n ==> r[i] == i
  {
    if n == 0 then [] else Range(n - 1) + [n - 1]
  }

  /** The set-up loop of `play`: counts down from the number of quizzes,
      filling slot `cuenta - 1` with `cuenta - 1` each time. */
  method BuildWorkingSet(count: nat) returns (toBeResolved: seq<nat>)
    ensures |toBeResolved| == count
    ensures forall i :: 0 <= i < count ==> toBeResolved[i] == i
    ensures toBeResolved == Range(count)
  {
    toBeResolved := [];
    var cuenta: nat := count;
    while cuenta > 0
      invariant cuenta <= count
      invariant |toBeResolved| == count - cuenta
      invariant forall k :: 0 <= k < |toBeResolved| ==> toBeResolved[k] == cuenta + k
    {
      toBeResolved := [cuenta - 1] + toBeResolved;
      cuenta := cuenta - 1;
    }
  }

  /** The session before its first round. */
  function Start(store: Store): (s: Session)
    ensures Valid(store, s)
    ensures s.status == Playing && s.score == 0
    ensures forall id: nat :: id in s.toBeResolved <==> id < |store|
  {
    StartIsPermutation(|store|);
    Session(Range(|store|), 0, Playing)
  }

  /** `toBeResolved.splice(k, 1)`: removes the entry at position `k`. */
  function Splice(xs: seq<nat>, k: nat): (r: seq<nat>)
    requires k < |xs|
    ensures |r| == |xs| - 1
    ensures forall i :: 0 <= i < k ==> r[i] == xs[i]
    ensures forall i :: k <= i < |r| ==> r[i] == xs[i + 1]
    ensures multiset(r) + multiset{xs[k]} == multiset(xs)
  {
    assert xs == xs[..k] + [xs[k]] + xs[k + 1..];
    xs[..k] + xs[k + 1..]
  }

  /** The store index asked in a round: the entry at the drawn position. */
  function Draw(store: Store, s: Session, rand: nat): (id: nat)
    requires Valid(store, s) && rand < |s.toBeResolved|
    ensures id in s.toBeResolved && id < |store|
  {
    s.toBeResolved[rand]
  }

  /** One call of `playOne`: with nothing left the session is exhausted;
      otherwise the question at position `rand` is posed and `reply` is the
      user's reply to it. */
  function PlayOne(store: Store, s: Session, rand: nat, reply: Reply): (r: Session)
    requires Valid(store, s) && s.status == Playing
    requires |s.toBeResolved| > 0 ==> rand < |s.toBeResolved|
    ensures Valid(store, r)
    ensures r.status == Exhausted <==> |s.toBeResolved| == 0
    ensures r.status == Playing <==>
              |s.toBeResolved| > 0 && Judge(reply, store[Draw(store, s, rand)].answer)
    ensures r.status != Playing ==> r.score == s.score && r.toBeResolved == s.toBeResolved
    ensures r.status == Playing ==>
              r.score == s.score + 1 && r.toBeResolved == Splice(s.toBeResolved, rand)
  {
    if |s.toBeResolved| == 0 then
      s.(status := Exhausted)
    else
      var id := Draw(store, s, rand);
      if Judge(reply, store[id].answer) then
        SpliceDistinct(s.toBeResolved, rand);
        Session(Splice(s.toBeResolved, rand), s.score + 1, Playing)
      else
        s.(status := Incorrect)
  }

  /** The whole recursion of `playOne` from session `s`, drawing positions
      from `draws`. */
  function Run(store: Store, answers: seq<Reply>, s: Session, draws: seq<nat>): (t: Transcript)
    requires Valid(store, s) && s.status == Playing && |answers| == |store|
    requires Tape(draws, |s.toBeResolved|)
    // the session always reaches a terminal state, keeping the invariant
    ensures t.final.status != Playing
    ensures Valid(store, t.final)
    // a question is asked exactly when one is left, starting with the drawn one
    ensures |t.asked| > 0 <==> |s.toBeResolved| > 0
    ensures |t.asked| > 0 ==> t.asked[0] == s.toBeResolved[draws[0]]
    // one point per question asked, except for a missed last one
    ensures t.final.status == Exhausted ==> t.final.score == s.score + |t.asked|
    ensures t.final.status == Incorrect ==> t.final.score == s.score + |t.asked| - 1
    decreases |s.toBeResolved|
  {
    if |s.toBeResolved| == 0 then
      Transcript(PlayOne(store, s, 0, Undefined), [])
    else
      var id := Draw(store, s, draws[0]);
      var next := PlayOne(store, s, draws[0], answers[id]);
      if next.status == Playing then
        TapeTail(draws, |s.toBeResolved|);
        var rest := Run(store, answers, next, draws[1..]);
        Transcript(rest.final, [id] + rest.asked)
      else
        Transcript(next, [id])
  }

  /** `play`: the set-up followed by the first call of `playOne`. */
  function Game(store: Store, answers: seq<Reply>, draws: seq<nat>): (t: Transcript)
    requires |answers| == |store| && Tape(draws, |store|)
    ensures t.final.status != Playing
    ensures t.final.score <= |store|
    ensures t.final.status == Exhausted ==> t.final.score == |store| == |t.asked|
    ensures t.final.status == Incorrect ==> t.final.score == |t.asked| - 1 < |store|
    ensures Distinct(t.asked) && forall x :: x in t.asked ==> x < |store|
  {
    RunAsksEachOnce(store, answers, Start(store), draws);
    RunAsksFromWorkingSet(store, answers, Start(store), draws);
    Run(store, answers, Start(store), draws)
  }

  // ---------------------------------------------------------------------
  // Properties of the session

  /** The draws left after the first round still fit the smaller working set. */
  lemma TapeTail(draws: seq<nat>, n: nat)
    requires Tape(draws, n) && n > 0
    ensures Tape(draws[1..], n - 1)
  {
    assert forall k :: 0 <= k < n - 1 ==> draws[1..][k] == draws[k + 1];
  }

  /** Every entry of `asked` is in `pool`, and there are no more of them
      than `pool` holds. */
  predicate AskedWithin(asked: seq<nat>, pool: seq<nat>) {
    |asked| <= |pool| && forall k :: 0 <= k < |asked| ==> asked[k] in pool
  }

  /** Asking one entry of `pool` before questions taken from what is left
      of `pool` without it stays within `pool`. */
  lemma AskedWithinPrepend(id: nat, rest: seq<nat>, smaller: seq<nat>, pool: seq<nat>)
    requires AskedWithin(rest, smaller) && id in pool && |smaller| < |pool|
    requires forall x :: x in smaller ==> x in pool
    ensures AskedWithin([id] + rest, pool)
  {
    var asked := [id] + rest;
    forall k | 0 <= k < |asked|
      ensures asked[k] in pool
    {
      if k > 0 { assert asked[k] == rest[k - 1]; }
    }
  }

  /** Only questions still to be resolved are asked, and no more of them
      than there are. */
  lemma {:induction false} RunAsksFromWorkingSet(store: Store, answers: seq<Reply>, s: Session, draws: seq<nat>)
    requires Valid(store, s) && s.status == Playing && |answers| == |store|
    requires Tape(draws, |s.toBeResolved|)
    ensures var t := Run(store, answers, s, draws);
            && |t.asked| <= |s.toBeResolved|
            && forall k :: 0 <= k < |t.asked| ==> t.asked[k] in s.toBeResolved
    decreases |s.toBeResolved|
  {
    if |s.toBeResolved| > 0 {
      var id := Draw(store, s, draws[0]);
      var next := PlayOne(store, s, draws[0], answers[id]);
      if next.status == Playing {
        TapeTail(draws, |s.toBeResolved|);
        SpliceDistinct(s.toBeResolved, draws[0]);
        RunAsksFromWorkingSet(store, answers, next, draws[1..]);
        var rest := Run(store, answers, next, draws[1..]);
        AskedWithinPrepend(id, rest.asked, next.toBeResolved, s.toBeResolved);
      }
    }
  }

  /** Putting a value in front of a list that lacks it keeps the list free
      of repetitions. */
  lemma DistinctPrepend(x: nat, xs: seq<nat>)
    requires Distinct(xs) && x !in xs
    ensures Distinct([x] + xs)
  {
    var ys := [x] + xs;
    forall i, j | 0 <= i < j < |ys|
      ensures ys[i] != ys[j]
    {
      assert ys[j] == xs[j - 1];
      if i > 0 { assert ys[i] == xs[i - 1]; }
    }
  }

  /** No question is asked twice in one session. */
  lemma {:induction false} RunAsksEachOnce(store: Store, answers: seq<Reply>, s: Session, draws: seq<nat>)
    requires Valid(store, s) && s.status == Playing && |answers| == |store|
    requires Tape(draws, |s.toBeResolved|)
    ensures Distinct(Run(store, answers, s, draws).asked)
    decreases |s.toBeResolved|
  {
    if |s.toBeResolved| > 0 {
      var id := Draw(store, s, draws[0]);
      var next := PlayOne(store, s, draws[0], answers[id]);
      if next.status == Playing {
        TapeTail(draws, |s.toBeResolved|);
        SpliceDistinct(s.toBeResolved, draws[0]);
        RunAsksEachOnce(store, answers, next, draws[1..]);
        RunAsksFromWorkingSet(store, answers, next, draws[1..]);
        var rest := Run(store, answers, next, draws[1..]);
        assert id !in rest.asked by {
          forall k | 0 <= k < |rest.asked|
            ensures rest.asked[k] != id
          {
            assert rest.asked[k] in next.toBeResolved;
          }
        }
        DistinctPrepend(id, rest.asked);
      }
    }
  }

  /** An exhausted session has asked every question it still had to ask. */
  lemma {:induction false} RunExhaustedAsksAll(store: Store, answers: seq<Reply>, s: Session, draws: seq<nat>)
    requires Valid(store, s) && s.status == Playing && |answers| == |store|
    requires Tape(draws, |s.toBeResolved|)
    ensures Run(store, answers, s, draws).final.status == Exhausted ==>
              forall x :: x in s.toBeResolved ==> x in Run(store, answers, s, draws).asked
    decreases |s.toBeResolved|
  {
    if |s.toBeResolved| > 0 {
      var id := Draw(store, s, draws[0]);
      var next := PlayOne(store, s, draws[0], answers[id]);
      if next.status == Playing {
        TapeTail(draws, |s.toBeResolved|);
        RunExhaustedAsksAll(store, answers, next, draws[1..]);
        var rest := Run(store, answers, next, draws[1..]);
        assert Run(store, answers, s, draws).asked == [id] + rest.asked;
      }
    }
  }

  /** The k-th question asked was answered correctly exactly when it was not
      the last one asked, or the session ended exhausted. */
  predicate StopsAtFirstMiss(store: Store, answers: seq<Reply>, t: Transcript) {
    forall k :: 0 <= k < |t.asked| ==>
      (Correct(store, answers, t.asked[k]) <==>
         k < |t.asked| - 1 || t.final.status == Exhausted)
  }

  /** A correctly answered question in front of a transcript that stops at
      its first miss gives a transcript that stops at its first miss. */
  lemma StopsAtFirstMissPrepend(store: Store, answers: seq<Reply>, id: nat, rest: Transcript, t: Transcript)
    requires StopsAtFirstMiss(store, answers, rest) && Correct(store, answers, id)
    requires |rest.asked| == 0 ==> rest.final.status == Exhausted
    requires t.asked == [id] + rest.asked && t.final == rest.final
    ensures StopsAtFirstMiss(store, answers, t)
  {
    forall k | 0 <= k < |t.asked|
      ensures Correct(store, answers, t.asked[k]) <==>
                k < |t.asked| - 1 || t.final.status == Exhausted
    {
      if k > 0 {
        assert t.asked[k] == rest.asked[k - 1];
      }
    }
  }

  /** The session stops at the first miss: every question before the last
      was answered correctly, and the last one too exactly when the session
      ended exhausted. */
  lemma {:induction false} RunStopsAtFirstMiss(store: Store, answers: seq<Reply>, s: Session, draws: seq<nat>)
    requires Valid(store, s) && s.status == Playing && |answers| == |store|
    requires Tape(draws, |s.toBeResolved|)
    ensures StopsAtFirstMiss(store, answers, Run(store, answers, s, draws))
    decreases |s.toBeResolved|
  {
    if |s.toBeResolved| > 0 {
      var t := Run(store, answers, s, draws);
      var id := Draw(store, s, draws[0]);
      var next := PlayOne(store, s, draws[0], answers[id]);
      if next.status == Playing {
        TapeTail(draws, |s.toBeResolved|);
        RunStopsAtFirstMiss(store, answers, next, draws[1..]);
        StopsAtFirstMissPrepend(store, answers, id, Run(store, answers, next, draws[1..]), t);
      } else {
        assert t.asked == [id];
      }
    }
  }

  /** The starting working set holds every store index exactly once. */
  lemma {:induction false} StartIsPermutation(count: nat)
    ensures Distinct(Range(count))
    ensures forall x: nat :: x in Range(count) <==> x < count
  {
    var r := Range(count);
    forall x: nat | x < count
      ensures x in r
    {
      assert r[x] == x;
    }
  }

  /** Splicing one entry out of a list without repetitions removes exactly
      that value and keeps the list free of repetitions. */
  lemma SpliceDistinct(xs: seq<nat>, k: nat)
    requires k < |xs| && Distinct(xs)
    ensures Distinct(Splice(xs, k))
    ensures forall x :: x in Splice(xs, k) <==> x in xs && x != xs[k]
  {
  }

  /** A correct reply scores one point and splices exactly the drawn index
      out of the working set, keeping the others in their order. */
  lemma CorrectReplyRemovesDrawn(store: Store, s: Session, rand: nat, reply: Reply)
    requires Valid(store, s) && s.status == Playing && rand < |s.toBeResolved|
    requires Judge(reply, store[s.toBeResolved[rand]].answer)
    ensures var r := PlayOne(store, s, rand, reply);
            var id := s.toBeResolved[rand];
            && r.status == Playing
            && r.score == s.score + 1
            && |r.toBeResolved| == |s.toBeResolved| - 1
            && id !in r.toBeResolved
            && (forall x :: x in r.toBeResolved <==> x in s.toBeResolved && x != id)
            && (forall i :: 0 <= i < rand ==> r.toBeResolved[i] == s.toBeResolved[i])
            && (forall i :: rand <= i < |r.toBeResolved| ==> r.toBeResolved[i] == s.toBeResolved[i + 1])
  {
    SpliceDistinct(s.toBeResolved, rand);
  }

  /** A wrong reply, an empty or a missing one included, ends the session
      with the score and the working set as they were. */
  lemma WrongReplyEnds(store: Store, s: Session, rand: nat, reply: Reply)
    requires Valid(store, s) && s.status == Playing && rand < |s.toBeResolved|
    requires !Judge(reply, store[s.toBeResolved[rand]].answer)
    ensures var r := PlayOne(store, s, rand, reply);
            r == Session(s.toBeResolved, s.score, Incorrect)
  {
  }

  /** Every round that does not end the session shrinks the working set, so
      a session asks at most as many questions as the store holds. */
  lemma StepShrinks(store: Store, s: Session, rand: nat, reply: Reply)
    requires Valid(store, s) && s.status == Playing
    requires |s.toBeResolved| > 0 ==> rand < |s.toBeResolved|
    ensures PlayOne(store, s, rand, reply).status == Playing ==>
              |PlayOne(store, s, rand, reply).toBeResolved| < |s.toBeResolved|
  {
  }

  /** A session ends exhausted exactly when every question it still had to
      ask gets a correct reply; the order of the draws does not matter. */
  lemma {:induction false} RunWonIff(store: Store, answers: seq<Reply>, s: Session, draws: seq<nat>)
    requires Valid(store, s) && s.status == Playing && |answers| == |store|
    requires Tape(draws, |s.toBeResolved|)
    ensures Run(store, answers, s, draws).final.status == Exhausted <==>
              forall x :: x in s.toBeResolved ==> Correct(store, answers, x)
  {
    var t := Run(store, answers, s, draws);
    RunAsksFromWorkingSet(store, answers, s, draws);
    RunExhaustedAsksAll(store, answers, s, draws);
    RunStopsAtFirstMiss(store, answers, s, draws);
    if t.final.status == Exhausted {
      forall x | x in s.toBeResolved
        ensures Correct(store, answers, x)
      {
        var k :| 0 <= k < |t.asked| && t.asked[k] == x;
      }
    }
    if t.final.status == Incorrect {
      var last := t.asked[|t.asked| - 1];
      assert last in s.toBeResolved && !Correct(store, answers, last);
    }
  }

  /** The session ends on the first miss: a question answered wrongly is the
      last one asked, and the session is then over as `Incorrect`. */
  lemma FirstMissEnds(store: Store, answers: seq<Reply>, s: Session, draws: seq<nat>, k: nat)
    requires Valid(store, s) && s.status == Playing && |answers| == |store|
    requires Tape(draws, |s.toBeResolved|)
    requires k < |Run(store, answers, s, draws).asked|
    requires !Correct(store, answers, Run(store, answers, s, draws).asked[k])
    ensures k == |Run(store, answers, s, draws).asked| - 1
    ensures Run(store, answers, s, draws).final.status == Incorrect
  {
    RunStopsAtFirstMiss(store, answers, s, draws);
  }

  /** `play` is won, with the full score, exactly when the user knows every
      answer of the store; a win asks every question exactly once. */
  lemma GameWonIff(store: Store, answers: seq<Reply>, draws: seq<nat>)
    requires |answers| == |store| && Tape(draws, |store|)
    ensures Game(store, answers, draws).final.status == Exhausted <==>
              forall id :: 0 <= id < |store| ==> Correct(store, answers, id)
    ensures Game(store, answers, draws).final.status == Exhausted ==>
              forall id :: 0 <= id < |store| ==> id in Game(store, answers, draws).asked
  {
    var s := Start(store);
    RunWonIff(store, answers, s, draws);
    RunExhaustedAsksAll(store, answers, s, draws);
    assert (forall x :: x in s.toBeResolved ==> Correct(store, answers, x)) <==>
           (forall id :: 0 <= id < |store| ==> Correct(store, answers, id));
  }

  /** With an empty store the session ends at once, exhausted, with score 0
      and without asking anything. */
  lemma EmptyStore(answers: seq<Reply>, draws: seq<nat>)
    requires |answers| == 0 && Tape(draws, 0)
    ensures Game([], answers, draws) == Transcript(Session([], 0, Exhausted), [])
  {
  }
}
