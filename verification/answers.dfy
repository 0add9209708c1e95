/**
 The answer-judging rule shared by the `test` and `play` commands: the
 user's input (or the empty string when there is none) is trimmed of
 leading and trailing white space and then compared, character by
 character, with the stored answer. There is no case folding and no
 other normalisation.
 */
module Answers {

  /** What the prompt callback receives: no value at all, or a line of text. */
  datatype Reply = Undefined | Typed(text: string) {

    /** The `answer || ""` defaulting: a missing reply reads as the empty string. */
    function OrEmpty(): string {
      match this
      case Undefined => ""
      case Typed(t) => t
    }
  }

  /** The characters `String.prototype.trim` strips: the ECMAScript WhiteSpace
      set (tab, vertical tab, form feed, space, no-break space, byte order mark
      and every other Unicode space separator) and the LineTerminator set. */
  predicate IsSpace(c: char) {
    || c == '\t' || c == '\U{000B}' || c == '\U{000C}' || c == ' '
    || c == '\U{00A0}' || c == '\U{FEFF}'
    || c == '\U{1680}' || ('\U{2000}' <= c <= '\U{200A}')
    || c == '\U{202F}' || c == '\U{205F}' || c == '\U{3000}'
    || c == '\n' || c == '\r' || c == '\U{2028}' || c == '\U{2029}'
  }

  /** Every character of `s` from position `lo` up to (not including) `hi`
      is white space. */
  predicate SpaceBetween(s: string, lo: int, hi: int)
    requires 0 <= lo && hi <= |s|
  {
    forall i :: lo <= i < hi ==> IsSpace(s[i])
  }

  /** A string with no white space at either end: what trimming can produce. */
  predicate Bare(t: string) {
    t == [] || (!IsSpace(t[0]) && !IsSpace(t[|t| - 1]))
  }

  /** `s[i..j]` is `s` with only white space cut from its two ends. */
  predicate Padded(s: string, i: int, j: int) {
    && 0 <= i <= j <= |s|
    && SpaceBetween(s, 0, i)
    && SpaceBetween(s, j, |s|)
  }

  /** The trimmed part of `s` starts here: the first position at or after
      `i` that does not hold white space (or the end of `s`). */
  function SkipLeading(s: string, i: nat): (k: nat)
    requires i <= |s|
    ensures i <= k <= |s|
    ensures SpaceBetween(s, i, k)
    ensures k == |s| || !IsSpace(s[k])
    decreases |s| - i
  {
    if i < |s| && IsSpace(s[i]) then SkipLeading(s, i + 1) else i
  }

  /** The trimmed part of `s` ends here: going back from `j`, but not past
      `lo`, the first position whose predecessor is not white space. */
  function SkipTrailing(s: string, lo: nat, j: nat): (k: nat)
    requires lo <= j <= |s|
    ensures lo <= k <= j
    ensures SpaceBetween(s, k, j)
    ensures k == lo || !IsSpace(s[k - 1])
    decreases j
  {
    if j > lo && IsSpace(s[j - 1]) then SkipTrailing(s, lo, j - 1) else j
  }

  /** How many white-space characters `s` begins with. */
  function Lead(s: string): nat
    ensures Lead(s) <= |s|
  {
    SkipLeading(s, 0)
  }

  /** Where the trailing white space of `s` begins. */
  function Tail(s: string): nat
    ensures Lead(s) <= Tail(s) <= |s|
  {
    SkipTrailing(s, Lead(s), |s|)
  }

  /** `String.prototype.trim`: cuts white space from both ends and keeps
      everything in between. */
  function Trim(s: string): (r: string)
    ensures Bare(r)
    ensures Padded(s, Lead(s), Tail(s)) && r == s[Lead(s)..Tail(s)]
  {
    var a := Lead(s);
    var b := Tail(s);
    assert a < b ==> s[a..b][0] == s[a] && s[a..b][b - a - 1] == s[b - 1];
    s[a..b]
  }

  /** The rule of both commands: the reply counts as correct exactly when
      its trimmed text equals the stored answer. Read independently: a typed
      reply is correct exactly when the stored answer has no outer white
      space and the reply is that answer with some white space (possibly
      none) around it; a missing reply is read as the empty string. */
  function Judge(reply: Reply, stored: string): (r: bool)
    ensures reply.Typed? ==>
              (r <==> Bare(stored) && exists i, j :: Padded(reply.text, i, j) && reply.text[i..j] == stored)
    ensures reply.Undefined? ==> (r <==> stored == [])
  {
    TrimMatches(reply.OrEmpty(), stored);
    assert Padded("", 0, 0) && ""[0..0] == "";
    Trim(reply.OrEmpty()) == stored
  }

  /** A character that is not white space cannot lie in the cut-off ends. */
  lemma NonSpaceInside(s: string, i: int, j: int, k: int)
    requires Padded(s, i, j) && 0 <= k < |s| && !IsSpace(s[k])
    ensures i <= k < j
  {
  }

  /** Trimming has exactly one possible result: any way of cutting only white
      space from the ends of `s` that leaves a bare string gives `Trim(s)`. */
  lemma TrimUnique(s: string, i: int, j: int)
    requires Padded(s, i, j) && Bare(s[i..j])
    ensures Trim(s) == s[i..j]
  {
    var a := Lead(s);
    var b := Tail(s);
    if a < b {
      NonSpaceInside(s, i, j, a);
      NonSpaceInside(s, i, j, b - 1);
    }
    if i < j {
      assert s[i..j][0] == s[i] && s[i..j][j - i - 1] == s[j - 1];
      NonSpaceInside(s, a, b, i);
      NonSpaceInside(s, a, b, j - 1);
    }
  }

  /** Trimming twice is the same as trimming once. */
  lemma TrimIdempotent(s: string)
    ensures Trim(Trim(s)) == Trim(s)
  {
    var r := Trim(s);
    assert r[0..|r|] == r;
    TrimUnique(r, 0, |r|);
  }

  /** Trimming `x` gives `stored` exactly when `stored` has no outer white
      space and `x` is `stored` with some white space around it. */
  lemma TrimMatches(x: string, stored: string)
    ensures Trim(x) == stored <==>
              Bare(stored) && exists i, j :: Padded(x, i, j) && x[i..j] == stored
  {
    if Bare(stored) && exists i, j :: Padded(x, i, j) && x[i..j] == stored {
      var i, j :| Padded(x, i, j) && x[i..j] == stored;
      TrimUnique(x, i, j);
    }
    if Trim(x) == stored {
      assert Padded(x, Lead(x), Tail(x)) && x[Lead(x)..Tail(x)] == stored;
    }
  }

  /** Trimming removes everything exactly when every character is white
      space: a reply made only of characters in `IsSpace` reads as empty,
      and any other character survives. */
  lemma TrimEmptyIff(s: string)
    ensures Trim(s) == [] <==> SpaceBetween(s, 0, |s|)
  {
  }

  /** A stored answer that begins or ends with white space can never be
      matched, whatever the user types. */
  lemma PaddedAnswerNeverMatches(reply: Reply, stored: string)
    requires !Bare(stored)
    ensures !Judge(reply, stored)
  {
  }
}
