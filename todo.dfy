/** The to-do commands' text: the task is the command with a leading verb
    (`/^(add|put|insert)\s+/i`) and every "to my to-do list" phrase
    (`/\b(to|in)?\s*(my)?\s*(to[- ]?do|todo)\s*list\b/gi`) removed, then
    trimmed; and the messages the three to-do handlers speak. */
module Todo {
  import opened Text

  const NOT_UNDERSTOOD := "Sorry, I couldn't understand the task to add."
  const CLEARED := "Your to-do list has been cleared."
  const EMPTY_LIST := "Your to-do list is empty."
  const LIST_PREFIX := "Your to-do list contains: "
  const SEPARATOR := ", "

  /** The length of the verb `/^(add|put|insert)/i` at the head of s, or 0. */
  function VerbLength(s: string): (n: nat)
    ensures n == 3 <==> WordAt(s, 0, "add") || WordAt(s, 0, "put")
    ensures n == 6 <==> WordAt(s, 0, "insert")
    ensures n == 0 <==> !WordAt(s, 0, "add") && !WordAt(s, 0, "put") && !WordAt(s, 0, "insert")
    ensures n <= |s|
  {
    WordAtHead(s, 0, "add");
    WordAtHead(s, 0, "put");
    WordAtHead(s, 0, "insert");
    if WordAt(s, 0, "add") || WordAt(s, 0, "put") then 3
    else if WordAt(s, 0, "insert") then 6
    else 0
  }

  /** `s.replace(/^(add|put|insert)\s+/i, '')`: a verb at the head followed
      by whitespace is removed with all the whitespace after it; any other
      text is left alone. */
  function StripLeadingVerb(s: string): (r: string)
    ensures |r| <= |s| && r == s[|s| - |r|..]
    ensures r != s <==> VerbLength(s) > 0 && VerbLength(s) < |s| && IsSpace(s[VerbLength(s)])
    ensures r != s ==> r == s[SkipSpaces(s, VerbLength(s))..]
    ensures r != s ==> VerbLength(s) > 0 && |s| - |r| > VerbLength(s) && AllSpace(s[VerbLength(s)..|s| - |r|])
    ensures r != s ==> r == [] || !IsSpace(r[0])
  {
    var v := VerbLength(s);
    if v > 0 && v < |s| && IsSpace(s[v]) then
      var e := SkipSpaces(s, v);
      var r := s[e..];
      assert |s| - |r| == e;
      SkippedSpaces(s, v);
      assert r != [] ==> r[0] == s[e];
      r
    else s
  }

  /** `to[- ]?do` spans s[r..q]: "to", then "do" straight after it or after
      one '-' or ' '. */
  predicate ToDoAt(s: string, r: nat, q: nat) {
    WordAt(s, r, "to") &&
    ((q == r + 4 && WordAt(s, r + 2, "do")) ||
     (q == r + 5 && r + 2 < |s| && (s[r + 2] == '-' || s[r + 2] == ' ') && WordAt(s, r + 3, "do")))
  }

  /** `to[- ]?do\s*list\b` spans s[r..e], with `to[- ]?do` ending at q. */
  predicate TailVia(s: string, r: nat, q: nat, e: nat) {
    ToDoAt(s, r, q) && q + 4 <= e <= |s| && AllSpace(s[q..e - 4]) &&
    WordAt(s, e - 4, "list") && IsBoundary(s, e)
  }

  /** `to[- ]?do\s*list\b` spans s[r..e]. (The alternative `todo` of the
      pattern adds nothing to `to[- ]?do`.) */
  predicate IsTail(s: string, r: nat, e: nat) {
    TailVia(s, r, r + 4, e) || TailVia(s, r, r + 5, e)
  }

  /** `\s*(my)?\s*` spans s[x..r]. */
  ghost predicate MyGap(s: string, x: nat, r: nat) {
    x <= r <= |s| &&
    (AllSpace(s[x..r]) ||
     exists b: nat :: x <= b && b + 2 <= r && AllSpace(s[x..b]) && WordAt(s, b, "my") && AllSpace(s[b + 2..r]))
  }

  /** `\s*(my)?\s*` followed by the tail spans s[x..e]. */
  ghost predicate GapAndTail(s: string, x: nat, e: nat) {
    exists r: nat :: MyGap(s, x, r) && IsTail(s, r, e)
  }

  /** The list-phrase pattern `\b(to|in)?\s*(my)?\s*(to[- ]?do|todo)\s*list\b`
      matches s[p..e]. */
  ghost predicate PhraseAt(s: string, p: nat, e: nat) {
    p <= |s| && IsBoundary(s, p) &&
    (GapAndTail(s, p, e) || ((WordAt(s, p, "to") || WordAt(s, p, "in")) && GapAndTail(s, p + 2, e)))
  }

  /** `to[- ]?do\s*list\b` tried at r: where the match ends, or -1. */
  function TailEnd(s: string, r: nat): (e: int)
    requires r <= |s|
    ensures e == -1 || r + 8 <= e <= |s|
  {
    if !WordAt(s, r, "to") then -1
    else
      var q :=
        if r + 2 < |s| && (s[r + 2] == '-' || s[r + 2] == ' ') && WordAt(s, r + 3, "do") then r + 5
        else if WordAt(s, r + 2, "do") then r + 4
        else -1;
      if q == -1 then -1
      else
        var m := SkipSpaces(s, q);
        if WordAt(s, m, "list") && IsBoundary(s, m + 4) then m + 4 else -1
  }

  /** The tail matches at r exactly when `TailEnd` finds it, and it ends
      where `TailEnd` says: the match, when there is one, is unique. */
  lemma TailEndExact(s: string, r: nat, e: nat)
    requires r <= |s|
    ensures TailEnd(s, r) == e <==> IsTail(s, r, e)
  {
    TailEndSound(s, r);
    if TailVia(s, r, r + 4, e) {
      TailEndComplete(s, r, r + 4, e);
    }
    if TailVia(s, r, r + 5, e) {
      TailEndComplete(s, r, r + 5, e);
    }
  }

  /** What `TailEnd` finds is a tail. */
  lemma TailEndSound(s: string, r: nat)
    requires r <= |s|
    ensures TailEnd(s, r) != -1 ==> IsTail(s, r, TailEnd(s, r))
  {
    if TailEnd(s, r) != -1 {
      var q: nat := if r + 2 < |s| && (s[r + 2] == '-' || s[r + 2] == ' ') && WordAt(s, r + 3, "do") then r + 5 else r + 4;
      SkippedSpaces(s, q);
      assert TailVia(s, r, q, TailEnd(s, r));
    }
  }

  /** `TailEnd` finds every tail, and where it ends. */
  lemma TailEndComplete(s: string, r: nat, q: nat, e: nat)
    requires TailVia(s, r, q, e)
    ensures TailEnd(s, r) == e
  {
    LetterAt(s, e - 4, "list");
    SkipSpacesTo(s, q, e - 4);
    assert SkipSpaces(s, q) == e - 4;
    if q == r + 4 {
      LetterAt(s, r + 2, "do");
      assert !(s[r + 2] == '-' || s[r + 2] == ' ');
    }
  }

  /** The first character of a match of a word is a letter: it is not
      whitespace, and it is neither '-' nor ' '. */
  lemma LetterAt(s: string, i: nat, w: string)
    requires WordAt(s, i, w) && |w| > 0 && 'a' <= w[0] <= 'z'
    ensures i < |s| && Lower(s[i]) == w[0] && !IsSpace(s[i]) && s[i] != '-'
  {
    assert s[i..][0] == s[i];
    LowerOfLetter(s[i], w[0]);
  }

  /** `\s*(my)?\s*` followed by the tail, tried at x. Backtracking into the
      two `\s*` never helps, since the tail starts with a letter: the only
      candidates are after "my" with the whitespace around it, then without. */
  function AfterOptionalMy(s: string, x: nat): (e: int)
    requires x <= |s|
    ensures e == -1 || x + 8 <= e <= |s|
  {
    var y := SkipSpaces(s, x);
    var viaMy := if WordAt(s, y, "my") then TailEnd(s, SkipSpaces(s, y + 2)) else -1;
    if viaMy != -1 then viaMy else TailEnd(s, y)
  }

  /** The gap and the tail match at x exactly when `AfterOptionalMy` finds
      them, and they end where it says. */
  lemma AfterOptionalMyExact(s: string, x: nat, e: nat)
    requires x <= |s|
    ensures AfterOptionalMy(s, x) == e <==> GapAndTail(s, x, e)
  {
    AfterOptionalMySound(s, x);
    if GapAndTail(s, x, e) {
      var r: nat :| MyGap(s, x, r) && IsTail(s, r, e);
      AfterOptionalMyComplete(s, x, r, e);
    }
  }

  /** What `AfterOptionalMy` finds is a gap followed by a tail. */
  lemma AfterOptionalMySound(s: string, x: nat)
    requires x <= |s|
    ensures AfterOptionalMy(s, x) != -1 ==> GapAndTail(s, x, AfterOptionalMy(s, x))
  {
    var y := SkipSpaces(s, x);
    SkippedSpaces(s, x);
    if WordAt(s, y, "my") && TailEnd(s, SkipSpaces(s, y + 2)) != -1 {
      var z := SkipSpaces(s, y + 2);
      SkippedSpaces(s, y + 2);
      TailEndSound(s, z);
      assert MyGap(s, x, z) by {
        assert x <= y && y + 2 <= z && AllSpace(s[x..y]) && WordAt(s, y, "my") && AllSpace(s[y + 2..z]);
      }
    } else if TailEnd(s, y) != -1 {
      TailEndSound(s, y);
      assert MyGap(s, x, y);
    }
  }

  /** `AfterOptionalMy` finds every gap followed by a tail, and where it ends. */
  lemma AfterOptionalMyComplete(s: string, x: nat, r: nat, e: nat)
    requires MyGap(s, x, r) && IsTail(s, r, e)
    ensures AfterOptionalMy(s, x) == e
  {
    LetterAt(s, r, "to");
    TailEndExact(s, r, e);
    if AllSpace(s[x..r]) {
      GapOfSpaces(s, x, r);
    } else {
      var b: nat :| x <= b && b + 2 <= r && AllSpace(s[x..b]) && WordAt(s, b, "my") && AllSpace(s[b + 2..r]);
      SkipsAroundMy(s, x, b, r);
      GapWithMy(s, x, b, r);
    }
  }

  /** Only whitespace before the tail at r: the search tries r first. */
  lemma GapOfSpaces(s: string, x: nat, r: nat)
    requires x <= r < |s| && AllSpace(s[x..r]) && !IsSpace(s[r]) && Lower(s[r]) == 't'
    ensures AfterOptionalMy(s, x) == TailEnd(s, r)
  {
    SkipSpacesTo(s, x, r);
    WordAtHead(s, r, "my");
  }

  /** "my" where the whitespace from x ends, and the tail at r where the
      whitespace after it ends: the search takes that match. */
  lemma GapWithMy(s: string, x: nat, b: nat, r: nat)
    requires x <= b && b + 2 <= r <= |s| && SkipSpaces(s, x) == b && SkipSpaces(s, b + 2) == r
    requires WordAt(s, b, "my") && TailEnd(s, r) != -1
    ensures AfterOptionalMy(s, x) == TailEnd(s, r)
  {
  }

  /** The whitespace before "my" is skipped up to it, and the whitespace
      after it up to r. */
  lemma SkipsAroundMy(s: string, x: nat, b: nat, r: nat)
    requires x <= b && b + 2 <= r < |s| && AllSpace(s[x..b]) && WordAt(s, b, "my") && AllSpace(s[b + 2..r])
    requires !IsSpace(s[r])
    ensures SkipSpaces(s, x) == b && SkipSpaces(s, b + 2) == r
  {
    LetterAt(s, b, "my");
    SkipSpacesTo(s, x, b);
    SkipSpacesTo(s, b + 2, r);
  }

  /** The whole list-phrase pattern tried at p: `\b`, then `(to|in)?`
      greedily (with the group first, then without), then the rest. */
  function PhraseEndAt(s: string, p: nat): (e: int)
    requires p <= |s|
    ensures e == -1 || p + 8 <= e <= |s|
  {
    if !IsBoundary(s, p) then -1
    else
      var withGroup := if WordAt(s, p, "to") || WordAt(s, p, "in") then AfterOptionalMy(s, p + 2) else -1;
      if withGroup != -1 then withGroup else AfterOptionalMy(s, p)
  }

  /** The pattern matches s[p..e] exactly when `PhraseEndAt` finds a match
      ending at e: the search misses no match, and the match is unique. */
  lemma PhraseEndExact(s: string, p: nat, e: nat)
    requires p <= |s|
    ensures PhraseEndAt(s, p) == e <==> PhraseAt(s, p, e)
  {
    PhraseEndSound(s, p);
    if PhraseAt(s, p, e) {
      PhraseEndComplete(s, p, e);
    }
  }

  /** What `PhraseEndAt` finds is a match. */
  lemma PhraseEndSound(s: string, p: nat)
    requires p <= |s|
    ensures PhraseEndAt(s, p) != -1 ==> PhraseAt(s, p, PhraseEndAt(s, p))
  {
    if (WordAt(s, p, "to") || WordAt(s, p, "in")) && AfterOptionalMy(s, p + 2) != -1 {
      AfterOptionalMySound(s, p + 2);
    } else {
      AfterOptionalMySound(s, p);
    }
  }

  /** `PhraseEndAt` finds every match, and where it ends. */
  lemma PhraseEndComplete(s: string, p: nat, e: nat)
    requires PhraseAt(s, p, e)
    ensures PhraseEndAt(s, p) == e
  {
    if (WordAt(s, p, "to") || WordAt(s, p, "in")) && GapAndTail(s, p + 2, e) {
      var r: nat :| MyGap(s, p + 2, r) && IsTail(s, r, e);
      AfterOptionalMyComplete(s, p + 2, r, e);
    } else {
      var r: nat :| MyGap(s, p, r) && IsTail(s, r, e);
      AfterOptionalMyComplete(s, p, r, e);
      GroupAfterBareTail(s, p);
    }
  }

  /** When the rest of the pattern matches right at p, the "to" or "in"
      group cannot be taken instead: the rest then starts with "to" followed
      by "do", '-' or ' ', and none of those starts the rest again. */
  lemma GroupAfterBareTail(s: string, p: nat)
    requires p <= |s|
    ensures (AfterOptionalMy(s, p) != -1 && (WordAt(s, p, "to") || WordAt(s, p, "in"))) ==>
      AfterOptionalMy(s, p + 2) == -1
  {
    if AfterOptionalMy(s, p) != -1 && (WordAt(s, p, "to") || WordAt(s, p, "in")) {
      BareTailAtGroupWord(s, p);
      if s[p + 2] == ' ' && WordAt(s, p + 3, "do") {
        LetterAt(s, p + 3, "do");
        assert SkipSpaces(s, p + 3) == p + 3;
        NoGapAt(s, p + 2, p + 3);
      } else if s[p + 2] == '-' {
        NoGapAt(s, p + 2, p + 2);
      } else {
        LetterAt(s, p + 2, "do");
        NoGapAt(s, p + 2, p + 2);
      }
    }
  }

  /** The rest of the pattern at a "to" or "in" is `to[- ]?do...` right there. */
  lemma BareTailAtGroupWord(s: string, p: nat)
    requires p <= |s| && AfterOptionalMy(s, p) != -1 && (WordAt(s, p, "to") || WordAt(s, p, "in"))
    ensures p + 2 < |s|
    ensures WordAt(s, p + 2, "do") || ((s[p + 2] == '-' || s[p + 2] == ' ') && WordAt(s, p + 3, "do"))
  {
    WordAtHead(s, p, "to");
    WordAtHead(s, p, "in");
    WordAtHead(s, p, "my");
    assert SkipSpaces(s, p) == p;
  }

  /** Whitespace from x up to a character that starts neither "my" nor "to":
      the gap and the tail cannot match at x. */
  lemma NoGapAt(s: string, x: nat, y: nat)
    requires x <= y < |s| && SkipSpaces(s, x) == y && Lower(s[y]) != 'm' && Lower(s[y]) != 't'
    ensures AfterOptionalMy(s, x) == -1
  {
    WordAtHead(s, y, "my");
    WordAtHead(s, y, "to");
  }

  /** The global replacement from position i: each match is dropped and the
      search resumes where it ended. */
  function RemoveListPhraseFrom(s: string, i: nat): (r: string)
    requires i <= |s|
    decreases |s| - i
    ensures |r| <= |s| - i
  {
    if i == |s| then []
    else
      var e := PhraseEndAt(s, i);
      if e == -1 then [s[i]] + RemoveListPhraseFrom(s, i + 1) else RemoveListPhraseFrom(s, e)
  }

  /** A match at p is dropped whole, and the replacement resumes where it ends. */
  lemma RemoveListPhraseDrops(s: string, p: nat, e: nat)
    requires p < |s| && PhraseAt(s, p, e)
    ensures e <= |s| && RemoveListPhraseFrom(s, p) == RemoveListPhraseFrom(s, e)
  {
    PhraseEndExact(s, p, e);
  }

  /** Where the pattern matches nowhere from p, the character at p is kept. */
  lemma RemoveListPhraseKeepsOne(s: string, p: nat)
    requires p < |s| && forall e: nat :: !PhraseAt(s, p, e)
    ensures RemoveListPhraseFrom(s, p) == [s[p]] + RemoveListPhraseFrom(s, p + 1)
  {
    NoPhraseNoEnd(s, p);
    KeepOne(s, p);
  }

  /** Where the pattern matches at p at no length, the search at p fails. */
  lemma NoPhraseNoEnd(s: string, p: nat)
    requires p < |s| && forall e: nat :: !PhraseAt(s, p, e)
    ensures PhraseEndAt(s, p) == -1
  {
    PhraseEndSound(s, p);
  }

  /** The list-phrase `replace` with the global flag: never longer than s,
      and s itself when the pattern matches nowhere in it. */
  function RemoveListPhrase(s: string): (r: string)
    ensures |r| <= |s|
    ensures (forall p: nat, e: nat :: p < |s| ==> !PhraseAt(s, p, e)) ==> r == s
  {
    NoPhraseKeepsAll(s);
    RemoveListPhraseFrom(s, 0)
  }

  /** A text where the pattern matches nowhere comes through the replacement whole. */
  lemma NoPhraseKeepsAll(s: string)
    ensures (forall p: nat, e: nat :: p < |s| ==> !PhraseAt(s, p, e)) ==> RemoveListPhraseFrom(s, 0) == s
  {
    if forall p: nat, e: nat :: p < |s| ==> !PhraseAt(s, p, e) {
      forall p: nat | p < |s| ensures PhraseEndAt(s, p) == -1 {
        NoPhraseNoEnd(s, p);
      }
      NoPhraseNoMatch(s, 0);
      RemoveListPhraseKeeps(s, 0, |s|);
      assert s[0..|s|] == s;
    }
  }

  /** Where the search fails at every position, no match starts anywhere. */
  lemma {:induction false} NoPhraseNoMatch(s: string, i: nat)
    requires i <= |s|
    requires forall p: nat :: i <= p < |s| ==> PhraseEndAt(s, p) == -1
    ensures NoMatchIn(s, i, |s|)
    decreases |s| - i
  {
    if i < |s| {
      NoPhraseNoMatch(s, i + 1);
    }
  }

  /** No match of the pattern starts in s[i..k]. */
  predicate NoMatchIn(s: string, i: nat, k: nat)
    requires i <= k <= |s|
    decreases k - i
  {
    i == k || (PhraseEndAt(s, i) == -1 && NoMatchIn(s, i + 1, k))
  }

  /** A stretch where the pattern matches at no position is copied as it is. */
  lemma {:induction false} RemoveListPhraseKeeps(s: string, i: nat, k: nat)
    requires i <= k <= |s|
    requires NoMatchIn(s, i, k)
    ensures RemoveListPhraseFrom(s, i) == s[i..k] + RemoveListPhraseFrom(s, k)
    decreases k - i
  {
    if i < k {
      assert PhraseEndAt(s, i) == -1 && NoMatchIn(s, i + 1, k);
      KeepOne(s, i);
      RemoveListPhraseKeeps(s, i + 1, k);
      var rest := RemoveListPhraseFrom(s, k);
      assert s[i..k] == [s[i]] + s[i + 1..k];
      assert [s[i]] + (s[i + 1..k] + rest) == s[i..k] + rest;
    }
  }

  /** Where the pattern does not match, the character is kept. */
  lemma KeepOne(s: string, i: nat)
    requires i < |s| && PhraseEndAt(s, i) == -1
    ensures RemoveListPhraseFrom(s, i) == [s[i]] + RemoveListPhraseFrom(s, i + 1)
  {
  }

  /** The task text `addToTodoList` stores: the command without its leading
      verb and without its list phrases, with only the whitespace around it
      removed; it is empty exactly when nothing but whitespace is left. */
  function CleanTask(command: string): (task: string)
    ensures Trimmed(task)
    ensures |task| <= |command|
    ensures var rest := RemoveListPhrase(StripLeadingVerb(command));
      (exists a :: Surrounds(rest, task, a)) && (task == [] <==> AllSpace(rest))
  {
    var withoutVerb := StripLeadingVerb(command);
    Trim(RemoveListPhrase(withoutVerb))
  }

  /** The add confirmation: the task, as it is, between "Added " and
      " to your to-do list.", which add 26 characters. */
  function AddedMessage(task: string): (r: string)
    ensures |r| == |task| + 26
  {
    "Added " + task + " to your to-do list."
  }

  /** The confirmation names the task unambiguously: two confirmations are
      equal exactly when their tasks are. */
  lemma AddedMessageNamesTask(a: string, b: string)
    ensures AddedMessage(a) == AddedMessage(b) <==> a == b
  {
    if AddedMessage(a) == AddedMessage(b) {
      assert a == AddedMessage(a)[6..6 + |a|];
    }
  }

  /** What `showTodoList` speaks for the list. */
  function ShowMessage(list: seq<string>): (r: string)
    ensures list == [] ==> r == EMPTY_LIST
    ensures |list| == 1 ==> r == LIST_PREFIX + list[0]
  {
    if |list| == 0 then EMPTY_LIST else LIST_PREFIX + Join(list, SEPARATOR)
  }

  /** A non-empty list is read back with the first task straight after the
      prefix and the last task at the very end. */
  lemma ShowMessageEnds(list: seq<string>)
    requires list != []
    ensures var r := ShowMessage(list);
      |r| >= |LIST_PREFIX| + |list[0]| && r[..|LIST_PREFIX| + |list[0]|] == LIST_PREFIX + list[0] &&
      |r| >= |list[|list| - 1]| && r[|r| - |list[|list| - 1]|..] == list[|list| - 1]
  {
    var joined := Join(list, SEPARATOR);
    JoinEnds(list, SEPARATOR);
    PrefixedEnds(LIST_PREFIX, joined, |list[0]|, |list[|list| - 1]|);
  }

  /** Reading the list back after an append: the new task is named last,
      after the tasks already there, in their insertion order. */
  lemma ShowAfterAppend(list: seq<string>, task: string)
    ensures ShowMessage(list + [task]) ==
      if list == [] then LIST_PREFIX + task else ShowMessage(list) + SEPARATOR + task
  {
    if list != [] {
      JoinAppend(list, task, SEPARATOR);
    } else {
      assert [] + [task] == [task];
    }
  }

  /** Two tasks added one after the other read back as "a, b". */
  lemma ShowTwoTasks()
    ensures ShowMessage([] + ["a"] + ["b"]) == "Your to-do list contains: a, b"
  {
    ShowAfterAppend([] + ["a"], "b");
    ShowAfterAppend([], "a");
  }

  // Worked examples: the task text of two spoken commands.

  /** "buy milk to my todo list", character by character: spelled out so that the proofs read single positions, which costs the solver far less than comparing a whole literal. */
  predicate BuyMilk(s: string) {
    |s| == 24 && BuyMilkHead(s) && BuyMilkRest(s)
  }

  /** The first twelve characters, "buy milk to ", of `BuyMilk`. */
  predicate BuyMilkHead(s: string)
    requires |s| == 24
  {
    s[0] == 'b' && s[1] == 'u' && s[2] == 'y' && s[3] == ' ' && s[4] == 'm' && s[5] == 'i' &&
    s[6] == 'l' && s[7] == 'k' && s[8] == ' ' && s[9] == 't' && s[10] == 'o' && s[11] == ' '
  }

  /** The last twelve characters, "my todo list", of `BuyMilk`. */
  predicate BuyMilkRest(s: string)
    requires |s| == 24
  {
    s[12] == 'm' && s[13] == 'y' && s[14] == ' ' && s[15] == 't' && s[16] == 'o' && s[17] == 'd' &&
    s[18] == 'o' && s[19] == ' ' && s[20] == 'l' && s[21] == 'i' && s[22] == 's' && s[23] == 't'
  }

  lemma BuyMilkLiteral()
    ensures BuyMilk("buy milk to my todo list")
  {
    var s := "buy milk to my todo list";
    assert BuyMilkRest(s);
    assert BuyMilkHead(s);
  }

  lemma BuyMilkTail(s: string)
    requires BuyMilk(s)
    ensures TailEnd(s, 15) == 24
  {
    WordAtIff(s, 15, "to");
    WordAtIff(s, 17, "do");
    assert SkipSpaces(s, 20) == 20;
    assert SkipSpaces(s, 19) == 20;
    WordAtIff(s, 20, "list");
  }

  lemma BuyMilkAfterTo(s: string)
    requires BuyMilk(s)
    ensures AfterOptionalMy(s, 11) == 24
  {
    assert SkipSpaces(s, 12) == 12;
    assert SkipSpaces(s, 11) == 12;
    WordAtIff(s, 12, "my");
    assert SkipSpaces(s, 15) == 15;
    assert SkipSpaces(s, 14) == 15;
    BuyMilkTail(s);
  }

  lemma PhraseInBuyMilk(s: string)
    requires BuyMilk(s)
    ensures PhraseEndAt(s, 9) == 24
  {
    WordAtIff(s, 9, "to");
    BuyMilkAfterTo(s);
  }

  /** At 8 the "to" that follows is not followed by "do": no match. */
  lemma NoPhraseAtEight(s: string)
    requires BuyMilk(s)
    ensures PhraseEndAt(s, 8) == -1
  {
    WordAtIff(s, 8, "to");
    WordAtIff(s, 8, "in");
    assert SkipSpaces(s, 9) == 9;
    assert SkipSpaces(s, 8) == 9;
    WordAtIff(s, 9, "my");
    WordAtIff(s, 9, "to");
    WordAtIff(s, 12, "do");
    WordAtIff(s, 11, "do");
  }

  /** At 0, 3 and 4 the next word is not "to", "in" or "my": no match. */
  lemma NoPhraseAtWord(s: string, p: nat, y: nat)
    requires BuyMilk(s)
    requires (p == 0 && y == 0) || (p == 3 && y == 4) || (p == 4 && y == 4)
    ensures PhraseEndAt(s, p) == -1
  {
    WordAtIff(s, p, "to");
    WordAtIff(s, p, "in");
    assert SkipSpaces(s, y) == y;
    assert SkipSpaces(s, p) == y;
    WordAtIff(s, y, "my");
    WordAtIff(s, y, "to");
  }

  /** No match starts in "buy milk ". */
  lemma NoPhraseBefore(s: string)
    requires BuyMilk(s)
    ensures NoMatchIn(s, 0, 9)
  {
    NoPhraseAtEight(s);
    assert NoMatchIn(s, 8, 9);
    assert !IsBoundary(s, 7) && !IsBoundary(s, 6) && !IsBoundary(s, 5);
    assert NoMatchIn(s, 5, 9);
    NoPhraseAtWord(s, 4, 4);
    NoPhraseAtWord(s, 3, 4);
    assert NoMatchIn(s, 3, 9);
    assert !IsBoundary(s, 2) && !IsBoundary(s, 1);
    NoPhraseAtWord(s, 0, 0);
  }

  /** "buy milk to my todo list" loses its list phrase and keeps "buy milk ". */
  lemma BuyMilkPhraseRemoved(s: string)
    requires BuyMilk(s)
    ensures RemoveListPhrase(s) == s[..9]
  {
    PhraseInBuyMilk(s);
    NoPhraseBefore(s);
    RemoveListPhraseKeeps(s, 0, 9);
    assert RemoveListPhraseFrom(s, 24) == [];
  }

  lemma BuyMilkTrimmed(s: string)
    requires BuyMilk(s)
    ensures Trim(s[..9]) == "buy milk"
  {
    var r := s[..8];
    assert r == "buy milk";
    TrimUnique(s[..9], r, 0);
  }

  /** A command that starts with "add " and a non-space loses exactly those four characters. */
  lemma StripAdd(c: string)
    requires |c| > 4 && c[0] == 'a' && c[1] == 'd' && c[2] == 'd' && c[3] == ' ' && !IsSpace(c[4])
    ensures StripLeadingVerb(c) == c[4..]
  {
    WordAtIff(c, 0, "add");
    assert SkipSpaces(c, 4) == 4;
    assert SkipSpaces(c, 3) == 4;
  }

  /** "add buy milk to my todo list" stores "buy milk". */
  lemma CleanTaskBuyMilk()
    ensures CleanTask("add buy milk to my todo list") == "buy milk"
  {
    var c := "add buy milk to my todo list";
    AddBuyMilkSpelling(c);
    StripAdd(c);
    BuyMilkLiteral();
    BuyMilkPhraseRemoved(c[4..]);
    BuyMilkTrimmed(c[4..]);
  }

  lemma AddBuyMilkSpelling(c: string)
    requires c == "add buy milk to my todo list"
    ensures |c| > 4 && c[0] == 'a' && c[1] == 'd' && c[2] == 'd' && c[3] == ' ' && c[4] == 'b'
    ensures c[4..] == "buy milk to my todo list"
  {
  }

  /** "to todo list", character by character: spelled out so that the proofs read single positions, which costs the solver far less than comparing a whole literal. */
  predicate BareList(s: string) {
    |s| == 12 && s[0] == 't' && s[1] == 'o' && s[2] == ' ' && s[3] == 't' && s[4] == 'o' &&
    s[5] == 'd' && s[6] == 'o' && s[7] == ' ' && s[8] == 'l' && s[9] == 'i' && s[10] == 's' && s[11] == 't'
  }

  lemma BareListTail(s: string)
    requires BareList(s)
    ensures AfterOptionalMy(s, 2) == 12
  {
    assert SkipSpaces(s, 3) == 3;
    assert SkipSpaces(s, 2) == 3;
    WordAtIff(s, 3, "my");
    WordAtIff(s, 3, "to");
    WordAtIff(s, 5, "do");
    assert SkipSpaces(s, 8) == 8;
    assert SkipSpaces(s, 7) == 8;
    WordAtIff(s, 8, "list");
  }

  /** "to todo list" is all list phrase. */
  lemma BareListRemoved(s: string)
    requires BareList(s)
    ensures RemoveListPhrase(s) == []
  {
    WordAtIff(s, 0, "to");
    BareListTail(s);
    assert PhraseEndAt(s, 0) == 12;
    assert RemoveListPhraseFrom(s, 12) == [];
  }

  /** "add to todo list" names no task. */
  lemma CleanTaskNothingToAdd()
    ensures CleanTask("add to todo list") == []
  {
    var c := "add to todo list";
    AddToTodoListSpelling(c);
    StripAdd(c);
    BareListRemoved(c[4..]);
  }

  lemma AddToTodoListSpelling(c: string)
    requires c == "add to todo list"
    ensures |c| > 4 && c[0] == 'a' && c[1] == 'd' && c[2] == 'd' && c[3] == ' ' && c[4] == 't'
    ensures BareList(c[4..])
  {
    assert c[4..] == "to todo list";
  }
}
