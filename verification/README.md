# Quiz play session — a Dafny model

This project models the logic of a command-line quiz program (`cmds.js`).
The program keeps question/answer pairs in a store. Its `play` command asks
every question once, in random order. Each correct reply scores a point. The
session ends at the first wrong reply, or when no question is left. The
`test` and `play` commands share one judging rule: the reply (or `""` when
there is none) is trimmed and compared exactly with the stored answer.

Three modules:

- `Answers` (`answers.dfy`): JavaScript's `String.prototype.trim` over the
  ECMAScript white-space and line-terminator characters, and the judging
  rule `Judge`.
- `Play` (`play.dfy`): the session state (working set `toBeResolved`, score,
  status), the set-up loop, one round (`PlayOne`, the body of `playOne`),
  the whole recursion (`Run`) and the command (`Game`).
- `Scenarios` (`scenarios.dfy`): sessions worked through on a two-question
  store.

How inputs are represented:

- The store is read-only in a session. It is a `seq<Quiz>`, addressed by
  position, as `model.count()` and `model.getByIndex(id)` see it.
- Each round's random position is an input. `draws[k]` is the position drawn
  in round `k`, when the working set has `count - k` entries. The predicate
  `Tape` requires `draws[k] < count - k`, the range
  `Math.trunc(Math.random() * toBeResolved.length)` produces.
- The user is an input. `answers[id]` is what the user types when question
  `id` is posed. No question is posed twice in a session (`RunAsksEachOnce`),
  so one reply per question covers every possible user.
- A reply is `Undefined` or `Typed(text)`. `OrEmpty` is the `answer || ""`
  defaulting.

Two consequences of the judging rule:

- A missing reply is read as `""`. So an empty or missing reply is correct
  exactly when the stored answer is empty (`Judge`).
- Only the reply is trimmed. So a stored answer that begins or ends with
  white space never matches (`PaddedAnswerNeverMatches`).

## Model

| member | source | states |
|---|---|---|
| `Answers.Trim` | cmds.js:158 | White space means the ECMAScript WhiteSpace and LineTerminator characters (`IsSpace`). The result has no white space at either end. It is the slice of the input between its leading and its trailing white space. |
| `Answers.TrimUnique` | cmds.js:158 | Trimming has one possible result: any cut of only white space from the two ends that leaves a bare string equals `Trim`. |
| `Answers.TrimIdempotent` | cmds.js:158 | Trimming an already trimmed string changes nothing. |
| `Answers.TrimMatches` | cmds.js:158 | Trimming `x` gives `stored` iff `stored` has no outer white space and `x` is `stored` with white space cut from its two ends. Both directions. |
| `Answers.TrimEmptyIff` | cmds.js:158 | A string trims to `""` iff every character is white space in the ECMAScript sense (`IsSpace`: tab, vertical tab, form feed, space, no-break space, byte order mark, the Unicode space separators, and the line terminators LF, CR, U+2028, U+2029). |
| `Answers.Judge` | cmds.js:158-159 | The reply is correct iff `Trim(reply or "")` equals the stored answer, read independently: a typed reply is correct iff the stored answer has no outer white space and the reply is exactly that answer with white space around it, case-sensitive with no other normalisation; a missing reply is correct iff the stored answer is empty. Both directions. |
| `Answers.PaddedAnswerNeverMatches` | cmds.js:208-209 | No reply matches a stored answer that starts or ends with white space. |
| `Play.Range` | cmds.js:186-192 | The initial working set has length `count`, and position `i` holds index `i`. |
| `Play.BuildWorkingSet` | cmds.js:188-192 | The count-down loop that fills slot `cuenta - 1` with `cuenta - 1` yields exactly the indices `0..count-1` in order, the same list as `Range(count)`. |
| `Play.StartIsPermutation` | cmds.js:186-192 | The initial working set holds each index `0..count-1` exactly once and nothing else. |
| `Play.Start` | cmds.js:185-192 | The starting session is playing, with score 0 and a working set that is a permutation of the store's indices. The session invariant holds. |
| `Play.Splice` | cmds.js:214 | `splice(rand, 1)` shortens the list by one. Entries before `rand` stay put, entries after it shift down one place, and the multiset loses exactly the drawn entry. |
| `Play.SpliceDistinct` | cmds.js:214 | Splicing from a list without repetitions removes exactly the drawn value and keeps the list free of repetitions. |
| `Play.Draw` | cmds.js:202-204 | A position inside the working set yields an index that is in the working set and is a valid store index, so `getByIndex` cannot fail. |
| `Play.PlayOne` | cmds.js:195-223 | One round keeps the invariant: score + working-set size = count, no repeats, all valid indices. It ends `Exhausted` iff the set was empty. It continues iff the reply to the drawn question is judged correct, then with score + 1 and the drawn entry spliced out. Otherwise the score and working set are unchanged. |
| `Play.CorrectReplyRemovesDrawn` | cmds.js:208-215 | A correct reply adds exactly 1 to the score and removes exactly the drawn index. The other indices keep their relative order. |
| `Play.WrongReplyEnds` | cmds.js:216-220 | A wrong reply, including an empty or missing one, ends the session as `Incorrect`. Score and working set are unchanged. |
| `Play.StepShrinks` | cmds.js:209-215 | Every round that does not end the session strictly shrinks the working set. |
| `Play.Run` | cmds.js:195-225 | The recursion always reaches a terminal state and keeps the invariant. It asks a question iff one is left, first the drawn one. Exhausted: score grows by the number asked. Incorrect: by one less. |
| `Play.RunAsksFromWorkingSet` | cmds.js:202-204 | Only indices still in the working set are asked, and at most as many as it holds. |
| `Play.RunAsksEachOnce` | cmds.js:202-215 | No index is drawn twice in a session. |
| `Play.RunExhaustedAsksAll` | cmds.js:196-215 | A session that ends exhausted has asked every index that was in its working set. |
| `Play.RunStopsAtFirstMiss` | cmds.js:207-221 | Question k was answered correctly iff it was not the last one asked or the session ended exhausted. No question follows a miss. |
| `Play.FirstMissEnds` | cmds.js:216-220 | A wrongly answered question is the last one asked, and the session then ends as `Incorrect`. |
| `Play.RunWonIff` | cmds.js:196-221 | A session ends exhausted iff every question left in it gets a correct reply. The order of draws makes no difference. |
| `Play.Game` | cmds.js:184-226 | `play` terminates once every posed question is answered, with score in `0..count`. Exhausted means score = count = questions asked. Incorrect means score = questions asked - 1 < count. The asked indices are distinct valid store indices. |
| `Play.GameWonIff` | cmds.js:184-226 | `play` ends exhausted iff every store answer is known. Then every index was asked. |
| `Play.EmptyStore` | cmds.js:188-200 | With an empty store the session ends exhausted at once, with score 0 and no question asked. |
| `Scenarios.TestPaddedReply` | cmds.js:158-159 | `" 4 "` matches the answer `"4"`, but `"paris"` does not match `"Paris"`. |
| `Scenarios.WinBoth` | cmds.js:184-226 | On the two-question sample store, the replies "4" and "Paris" end exhausted with score 2, for every order of draws. |
| `Scenarios.LoseFirst` | cmds.js:216-220 | On the sample store, replying "wrong" ends the session as `Incorrect` with score 0, for every order of draws. |

## Left out

- The quiz store (`./model`: `add`, `update`, `deleteByIndex`, `getAll`, `getByIndex`) is not part of this model. Its source is not available. A session only reads it, so it appears as a read-only sequence.
- The `list`, `show`, `add`, `delete`, `edit`, `help`, `credits` and `quit` commands are left out. They are console glue around store calls and contain no logic of their own.
- The "missing id" guards and `getByIndex` error handling of `show`, `delete`, `edit` and `test` are left out. They wrap store calls whose code is not available. `test` appears only through its judging rule, `Judge`.
- Readline (`rl.question`, `rl.prompt`, `rl.close`) and the TTY pre-fill in `edit` are left out. The asynchronous callbacks are modelled as the recursion `Run` over given replies.
- Output (`log`, `biglog`, `errorlog`, `colorize`, `console.log`) is left out. The score it reports is the session's `score`.
- `Math.random` and `Math.trunc` are floating point. They are replaced by an input position in range for each round.
- The uniform distribution of the draw is not modelled: any in-range position is accepted.
- The set-up loop writes into slots of a sparse JavaScript array from the top slot down. `BuildWorkingSet` prepends to a sequence instead. The finished list is the same.
