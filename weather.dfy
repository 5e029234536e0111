/** The weather handler: the location is taken from the command with
    `/in (.+)/`, trimmed, cleared of the word "today" with `/\btoday\b/gi`
    and trimmed again; the OpenWeatherMap answer is then read out. */
module Weather {
  import opened Text
  import opened Effects

  const DEFAULT_LOCATION := "Mumbai"

  /** `/in (.+)/` matches at i: "in " followed by a character that `.` matches. */
  predicate InMatchAt(s: string, i: nat) {
    OccursAt(s, "in ", i) && i + 3 < |s| && !IsLineTerminator(s[i + 3])
  }

  /** Where the search for `/in (.+)/` from `from` onwards succeeds, or -1. */
  function FindIn(s: string, from: nat): (k: int)
    decreases |s| - from
    ensures k == -1 || (from <= k && InMatchAt(s, k))
    ensures forall j :: from <= j && (k == -1 || j < k) ==> !InMatchAt(s, j)
  {
    if from + 3 >= |s| then -1
    else if InMatchAt(s, from) then from
    else FindIn(s, from + 1)
  }

  /** Where the greedy `(.+)` starting at i stops: the first line terminator, or the end. */
  function LineEnd(s: string, i: nat): (e: nat)
    requires i <= |s|
    decreases |s| - i
    ensures i <= e <= |s|
    ensures forall k :: i <= k < e ==> !IsLineTerminator(s[k])
    ensures e == |s| || IsLineTerminator(s[e])
  {
    if i == |s| || IsLineTerminator(s[i]) then i else LineEnd(s, i + 1)
  }

  /** `/\btoday\b/i` matches at i. */
  predicate TodayAt(s: string, i: nat) {
    i + 5 <= |s| && WordAt(s, i, "today") && IsBoundary(s, i) && IsBoundary(s, i + 5)
  }

  /** `s.replace(/\btoday\b/gi, '')`, scanning from position i: each match
      is dropped and the scan resumes after it. */
  function RemoveTodayFrom(s: string, i: nat): (r: string)
    requires i <= |s|
    decreases |s| - i
    ensures |r| <= |s| - i
  {
    if i == |s| then []
    else if TodayAt(s, i) then RemoveTodayFrom(s, i + 5)
    else [s[i]] + RemoveTodayFrom(s, i + 1)
  }

  /** `s.replace(/\btoday\b/gi, '')`: never longer than s, and s itself
      where no whole-word "today" occurs; RemoveTodayDropsMatches states
      exactly which characters go. */
  function RemoveToday(s: string): (r: string)
    ensures |r| <= |s|
    ensures (forall j :: !TodayAt(s, j)) ==> r == s
  {
    NoTodayKeepsAll(s);
    RemoveTodayFrom(s, 0)
  }

  /** The replacement drops exactly the five characters of every whole-word
      "today" and keeps every other character, in order. */
  lemma RemoveTodayDropsMatches(s: string)
    ensures RemoveToday(s) == Uncovered(s, 0)
  {
    RemoveTodayFromUncovered(s, 0);
  }

  /** With no match anywhere, the replacement returns its input. */
  lemma NoTodayKeepsAll(s: string)
    ensures (forall j :: !TodayAt(s, j)) ==> RemoveTodayFrom(s, 0) == s
  {
    if forall j :: !TodayAt(s, j) {
      RemoveTodayKeeps(s, 0);
    }
  }

  /** Position k of s lies inside a whole-word match of "today". */
  predicate Covered(s: string, k: nat) {
    exists p: nat :: p <= k < p + 5 && TodayAt(s, p)
  }

  /** The characters of s from position i on that lie inside no match, in order. */
  function Uncovered(s: string, i: nat): string
    requires i <= |s|
    decreases |s| - i
  {
    if i == |s| then [] else (if Covered(s, i) then [] else [s[i]]) + Uncovered(s, i + 1)
  }

  /** From a position that lies inside no match, the scan keeps exactly the
      uncovered characters. */
  lemma {:induction false} RemoveTodayFromUncovered(s: string, i: nat)
    requires i <= |s|
    requires forall p: nat :: p < i < p + 5 ==> !TodayAt(s, p)
    ensures RemoveTodayFrom(s, i) == Uncovered(s, i)
    decreases |s| - i
  {
    if i == |s| {
    } else if TodayAt(s, i) {
      MatchCovers(s, i);
      NoMatchInsideMatch(s, i);
      RemoveTodayFromUncovered(s, i + 5);
    } else {
      assert !Covered(s, i);
      RemoveTodayFromUncovered(s, i + 1);
    }
  }

  /** The five characters of a match are all covered, so none is kept. */
  lemma MatchCovers(s: string, i: nat)
    requires TodayAt(s, i)
    ensures Uncovered(s, i) == Uncovered(s, i + 5)
  {
    SkipCovered(s, i, i);
    SkipCovered(s, i, i + 1);
    SkipCovered(s, i, i + 2);
    SkipCovered(s, i, i + 3);
    SkipCovered(s, i, i + 4);
  }

  lemma SkipCovered(s: string, p: nat, k: nat)
    requires TodayAt(s, p) && p <= k < p + 5
    ensures Uncovered(s, k) == Uncovered(s, k + 1)
  {
    assert Covered(s, k);
    assert [] + Uncovered(s, k + 1) == Uncovered(s, k + 1);
  }

  /** No other match starts inside a match: its first four characters are
      word characters, so there is no boundary after them. */
  lemma NoMatchInsideMatch(s: string, i: nat)
    requires TodayAt(s, i)
    ensures forall p: nat :: p < i + 5 < p + 5 ==> !TodayAt(s, p)
  {
    TodayLetters(s, i);
    forall p: nat | i < p < i + 5 && p < |s| ensures !TodayAt(s, p) {
      NoTodayAfterWord(s, p);
    }
  }

  /** The location asked for: after the first "in " when there is one,
      otherwise Mumbai; never starting or ending with whitespace and never
      holding "today" as a whole word. */
  function Location(command: string): (location: string)
    ensures Trimmed(location)
    ensures forall j :: !TodayAt(location, j)
    ensures FindIn(command, 0) == -1 ==> location == DEFAULT_LOCATION
    ensures var k := FindIn(command, 0);
      k != -1 ==> location == Trim(RemoveToday(Trim(command[k + 3..LineEnd(command, k + 3)])))
  {
    var k := FindIn(command, 0);
    var matched := if k == -1 then DEFAULT_LOCATION else Trim(command[k + 3..LineEnd(command, k + 3)]);
    CleanedHasNoToday(matched);
    MumbaiKept();
    Trim(RemoveToday(matched))
  }

  /** Trimming what the replacement left keeps it free of "today". */
  lemma CleanedHasNoToday(matched: string)
    ensures forall j :: !TodayAt(Trim(RemoveToday(matched)), j)
  {
    var stripped := RemoveToday(matched);
    NoTodayRemains(matched);
    forall j | TodayAt(Trim(stripped), j) ensures false {
      var a: nat :| Surrounds(stripped, Trim(stripped), a);
      TodayInSurrounded(stripped, Trim(stripped), a, j);
    }
  }

  /** The default location comes through the cleaning unchanged. */
  lemma MumbaiKept()
    ensures Trim(RemoveToday(DEFAULT_LOCATION)) == DEFAULT_LOCATION
  {
    MumbaiHasNoToday();
  }

  lemma MumbaiHasNoToday()
    ensures forall j :: !TodayAt(DEFAULT_LOCATION, j)
  {
    forall j: nat | j + 5 <= |DEFAULT_LOCATION|
      ensures !WordAt(DEFAULT_LOCATION, j, "today")
    {
      assert j == 0 || j == 1;
    }
  }

  /** Where nothing matches, nothing is removed. */
  lemma {:induction false} RemoveTodayKeeps(s: string, i: nat)
    requires i <= |s|
    requires forall j :: !TodayAt(s, j)
    ensures RemoveTodayFrom(s, i) == s[i..]
    decreases |s| - i
  {
    if i < |s| {
      RemoveTodayKeeps(s, i + 1);
    }
  }

  /** "today" matches at no position from i up to k. */
  predicate NoTodayIn(s: string, i: nat, k: nat)
    requires i <= k <= |s|
    decreases k - i
  {
    i == k || (!TodayAt(s, i) && NoTodayIn(s, i + 1, k))
  }

  /** A character where no match starts is copied. */
  lemma KeepChar(s: string, i: nat)
    requires i < |s| && !TodayAt(s, i)
    ensures RemoveTodayFrom(s, i) == [s[i]] + RemoveTodayFrom(s, i + 1)
  {
  }

  /** A stretch where "today" matches at no position is copied as it is. */
  lemma {:induction false} RemoveTodayStretch(s: string, i: nat, k: nat)
    requires i <= k <= |s| && NoTodayIn(s, i, k)
    ensures RemoveTodayFrom(s, i) == s[i..k] + RemoveTodayFrom(s, k)
    decreases k - i
  {
    if i < k {
      KeepChar(s, i);
      RemoveTodayStretch(s, i + 1, k);
      assert s[i..k] == [s[i]] + s[i + 1..k];
    }
  }

  /** No match starts right after a word character: a match starts with a
      letter, so there is no word boundary before it. */
  lemma NoTodayAfterWord(s: string, i: nat)
    requires 0 < i < |s| && IsWordChar(s[i - 1])
    ensures !TodayAt(s, i)
  {
    if i + 5 <= |s| && WordAt(s, i, "today") {
      assert s[i..][0] == s[i];
      LowerOfLetter(s[i], 't');
    }
  }

  /** The first n characters of r are word characters. */
  predicate WordRun(r: string, n: nat)
    decreases n
  {
    n == 0 || (0 < |r| && IsWordChar(r[0]) && WordRun(r[1..], n - 1))
  }

  lemma {:induction false} WordRunOf(r: string, n: nat)
    requires n <= |r| && forall k :: 0 <= k < n ==> IsWordChar(r[k])
    ensures WordRun(r, n)
    decreases n
  {
    if n > 0 {
      forall k | 0 <= k < n - 1 ensures IsWordChar(r[1..][k]) {
        assert r[1..][k] == r[k + 1];
      }
      WordRunOf(r[1..], n - 1);
    }
  }

  lemma WordRunCons(c: char, rest: string, n: nat)
    requires 1 <= n && WordRun([c] + rest, n)
    ensures IsWordChar(c) && WordRun(rest, n - 1)
  {
    assert ([c] + rest)[1..] == rest;
  }

  /** A run of n word characters at the head of the output that starts with
      a kept character comes unchanged from the input. */
  lemma {:induction false} KeptWordRun(s: string, i: nat, n: nat)
    requires i < |s| && !TodayAt(s, i)
    requires 1 <= n && WordRun(RemoveTodayFrom(s, i), n)
    ensures i + n <= |s|
    ensures RemoveTodayFrom(s, i) == s[i..i + n] + RemoveTodayFrom(s, i + n)
    decreases n
  {
    var rest := RemoveTodayFrom(s, i + 1);
    KeepChar(s, i);
    WordRunCons(s[i], rest, n);
    if n > 1 {
      assert 0 < |rest|;
      NoTodayAfterWord(s, i + 1);
      KeptWordRun(s, i + 1, n - 1);
    }
    Glue(s, i, n, rest, RemoveTodayFrom(s, i + n));
  }

  lemma Glue(s: string, i: nat, n: nat, rest: string, tail: string)
    requires 1 <= n && i + n <= |s|
    requires n == 1 ==> rest == tail
    requires n > 1 ==> rest == s[i + 1..i + n] + tail
    ensures [s[i]] + rest == s[i..i + n] + tail
  {
    assert s[i..i + n] == [s[i]] + s[i + 1..i + n];
  }

  /** `/\btoday\b/` matches at j of the output r, where whether the
      character before the output (the one before position 0) is a word
      character is given as `wordBefore`. */
  predicate TodayAfter(r: string, j: nat, wordBefore: bool) {
    j + 5 <= |r| && WordAt(r, j, "today") &&
    (if j == 0 then !wordBefore else !IsWordChar(r[j - 1])) &&
    (j + 5 == |r| || !IsWordChar(r[j + 5]))
  }

  /** What the scan at i has written so far ends in a word character
      exactly when the input before i does, or it ends in a non-word
      character right where the input resumes with one. */
  predicate ScanContext(s: string, i: nat, wordBefore: bool)
    requires i <= |s|
  {
    wordBefore == (i > 0 && IsWordChar(s[i - 1])) ||
    (!wordBefore && (i == |s| || !IsWordChar(s[i])))
  }

  /** The replacement leaves no whole word "today" behind: removing a match
      puts two non-word characters side by side, so it never makes a new one. */
  lemma {:induction false} NoTodayAfterScan(s: string, i: nat, wordBefore: bool)
    requires i <= |s| && ScanContext(s, i, wordBefore)
    ensures forall j :: !TodayAfter(RemoveTodayFrom(s, i), j, wordBefore)
    decreases |s| - i
  {
    if i == |s| {
    } else if TodayAt(s, i) {
      MatchEndsInWord(s, i);
      NoTodayAfterScan(s, i + 5, false);
    } else {
      var rest := RemoveTodayFrom(s, i + 1);
      NoTodayAfterScan(s, i + 1, IsWordChar(s[i]));
      KeepChar(s, i);
      forall j: nat ensures !TodayAfter([s[i]] + rest, j, wordBefore) {
        if j > 0 {
          TodayAfterCons(s[i], rest, wordBefore, j);
        } else {
          TodayAtHead(s, i, wordBefore);
        }
      }
    }
  }

  /** A match ends in a word character, so the scan resumes after it as
      after a non-word character. */
  lemma MatchEndsInWord(s: string, i: nat)
    requires TodayAt(s, i)
    ensures IsWordChar(s[i + 4]) && ScanContext(s, i + 5, false)
  {
    StartsWithNoCaseIff(s[i..], "today");
    assert s[i..][4] == s[i + 4];
  }

  /** Past the head of an output, a match is a match in the rest of it,
      which follows a word character exactly when the head is one. */
  lemma TodayAfterCons(c: char, rest: string, wordBefore: bool, j: nat)
    requires 0 < j
    ensures TodayAfter([c] + rest, j, wordBefore) ==> TodayAfter(rest, j - 1, IsWordChar(c))
  {
    var r := [c] + rest;
    if TodayAfter(r, j, wordBefore) {
      assert r[j..] == rest[j - 1..];
      assert r[j - 1] == if j == 1 then c else rest[j - 2];
    }
  }

  /** The head case of NoTodayAfterScan: a match at the head of the output
      of a kept character would have been a match in the input. */
  lemma TodayAtHead(s: string, i: nat, wordBefore: bool)
    requires i < |s| && ScanContext(s, i, wordBefore) && !TodayAt(s, i)
    ensures !TodayAfter(RemoveTodayFrom(s, i), 0, wordBefore)
  {
    var r := RemoveTodayFrom(s, i);
    TodayLetters(r, 0);
    KeptHead(s, i);
    CopiedTodayIsMatch(s, i, wordBefore);
  }

  /** The letters of a case-insensitive "today" are word characters. */
  lemma TodayLetters(r: string, j: nat)
    ensures WordAt(r, j, "today") ==> forall k :: j <= k < j + 5 ==> IsWordChar(r[k])
  {
    if WordAt(r, j, "today") {
      WordAtIff(r, j, "today");
      forall k | j <= k < j + 5 ensures IsWordChar(r[k]) {
        assert k - j == 0 || k - j == 1 || k - j == 2 || k - j == 3 || k - j == 4;
        LowerOfLetter(r[k], "today"[k - j]);
      }
    }
  }

  /** A kept character that opens five word characters of the output opens
      the same five in the input. */
  lemma KeptHead(s: string, i: nat)
    requires i < |s| && !TodayAt(s, i)
    ensures var r := RemoveTodayFrom(s, i);
      5 <= |r| && (forall k :: 0 <= k < 5 ==> IsWordChar(r[k])) ==>
        i + 5 <= |s| && r == s[i..i + 5] + RemoveTodayFrom(s, i + 5)
  {
    var r := RemoveTodayFrom(s, i);
    if 5 <= |r| && (forall k :: 0 <= k < 5 ==> IsWordChar(r[k])) {
      WordRunOf(r, 5);
      KeptWordRun(s, i, 5);
    }
  }

  /** Five input characters copied to the head of the output, where they
      form a whole word "today", form one in the input too. */
  lemma CopiedTodayIsMatch(s: string, i: nat, wordBefore: bool)
    ensures (i + 5 <= |s| && ScanContext(s, i, wordBefore) &&
      TodayAfter(s[i..i + 5] + RemoveTodayFrom(s, i + 5), 0, wordBefore)) ==> TodayAt(s, i)
  {
    if i + 5 <= |s| && ScanContext(s, i, wordBefore) &&
      TodayAfter(s[i..i + 5] + RemoveTodayFrom(s, i + 5), 0, wordBefore) {
      var t := RemoveTodayFrom(s, i + 5);
      var r := s[i..i + 5] + t;
      assert r[..5] == s[i..i + 5];
      StartsWithNoCaseShared(r, s[i..], "today");
      TodayLetters(r, 0);
      assert s[i] == r[0] && s[i + 4] == r[4];
      if i + 5 < |s| && !TodayAt(s, i + 5) {
        assert r[5] == s[i + 5];
      }
    }
  }

  /** Two texts that agree on their first |w| characters match w alike. */
  lemma {:induction false} StartsWithNoCaseShared(s: string, t: string, w: string)
    requires |w| <= |s| && |w| <= |t| && s[..|w|] == t[..|w|]
    ensures StartsWithNoCase(s, w) == StartsWithNoCase(t, w)
    decreases |w|
  {
    if |w| > 0 {
      assert s[0] == s[..|w|][0] && t[0] == t[..|w|][0];
      assert s[1..][..|w| - 1] == s[..|w|][1..];
      assert t[1..][..|w| - 1] == t[..|w|][1..];
      StartsWithNoCaseShared(s[1..], t[1..], w[1..]);
    }
  }

  lemma NoTodayRemains(s: string)
    ensures forall j :: !TodayAt(RemoveToday(s), j)
  {
    var r := RemoveToday(s);
    forall j: nat | TodayAt(r, j) ensures TodayAfter(r, j, false) {
      StartsWithNoCaseIff(r[j..], "today");
      assert r[j..][0] == r[j] && r[j..][4] == r[j + 4];
    }
    NoTodayAfterScan(s, 0, false);
  }

  /** Whitespace around a text does not change where "today" is a whole word in it. */
  lemma TodayInSurrounded(s: string, r: string, a: nat, j: nat)
    requires Surrounds(s, r, a) && TodayAt(r, j)
    ensures TodayAt(s, a + j)
  {
    StartsWithNoCaseIff(r[j..], "today");
    assert r[j..][0] == r[j] && r[j..][4] == r[j + 4];
    assert s[a + j..][..5] == r[j..][..5];
    StartsWithNoCaseShared(s[a + j..], r[j..], "today");
    if j == 0 && a > 0 {
      assert s[..a][a - 1] == s[a - 1];
    }
    if j > 0 {
      assert s[a + j - 1] == r[j - 1];
    }
    if j + 5 == |r| && a + j + 5 < |s| {
      assert s[a + |r|..][0] == s[a + j + 5];
    }
    if j + 5 < |r| {
      assert s[a + j + 5] == r[j + 5];
    }
  }

  /** The report spoken: it opens with "The weather in " and the place, and
      closes with the description and a full stop. */
  function WeatherMessage(place: string, temperature: string, description: string): (r: string)
    ensures |r| >= 15 + |place| && r[..15] == "The weather in " && r[15..15 + |place|] == place
    ensures |r| > |description| && r[|r| - |description| - 1..] == description + "."
  {
    var r := "The weather in " + place + " is " + temperature + "°C with " + description + ".";
    assert r == "The weather in " + place + (" is " + temperature + "°C with " + description + ".");
    assert r == ("The weather in " + place + " is " + temperature + "°C with ") + (description + ".");
    r
  }

  /** `getWeather`: ask for the location's weather, then speak the report,
      or the given apology when the lookup failed. */
  function WeatherEffects(command: string, response: WeatherResponse, apology: string): (effects: seq<Effect>)
    ensures |effects| == 2 && effects[0] == FetchWeather(Location(command))
    ensures |Spoken(effects)| == 1 && TabsOpened(effects) == 0
    ensures response.WeatherReport? ==>
      Spoken(effects) == [WeatherMessage(response.place, response.temperature, response.description)]
    ensures response.WeatherFailed? ==> Spoken(effects) == [apology]
  {
    var text := match response
      case WeatherReport(place, temperature, description) => WeatherMessage(place, temperature, description)
      case WeatherFailed => apology;
    FetchThenSay(FetchWeather(Location(command)), text);
    [FetchWeather(Location(command)), Say(text)]
  }

  // Worked example: the location of "weather in pune today".

  /** "pune today", character by character: spelled out so that the proofs read single positions, which costs the solver far less than comparing a whole literal. */
  predicate PuneToday(m: string) {
    |m| == 10 && m[0] == 'p' && m[1] == 'u' && m[2] == 'n' && m[3] == 'e' && m[4] == ' ' &&
    m[5] == 't' && m[6] == 'o' && m[7] == 'd' && m[8] == 'a' && m[9] == 'y'
  }

  lemma PuneTodayStripped(m: string)
    requires PuneToday(m)
    ensures RemoveToday(m) == m[..5]
  {
    WordAtIff(m, 5, "today");
    assert TodayAt(m, 5);
    assert RemoveTodayFrom(m, 10) == [];
    NoTodayInPune(m, 4);
    NoTodayInPune(m, 3);
    NoTodayInPune(m, 2);
    NoTodayInPune(m, 1);
    NoTodayInPune(m, 0);
    RemoveTodayStretch(m, 0, 5);
  }

  /** No match starts in "pune ". */
  lemma NoTodayInPune(m: string, p: nat)
    requires PuneToday(m) && p < 5 && NoTodayIn(m, p + 1, 5)
    ensures NoTodayIn(m, p, 5)
  {
    WordAtIff(m, p, "today");
  }

  /** What is left of "pune today" once trimmed, cleared of "today" and
      trimmed again. */
  lemma PuneTodayCleaned(m: string)
    requires PuneToday(m)
    ensures Trim(RemoveToday(Trim(m))) == "pune"
  {
    assert Trim(m) == m;
    PuneTodayStripped(m);
    assert m[..4] == "pune";
    TrimUnique(m[..5], m[..4], 0);
  }

  /** "weather in ", character by character, then "pune today": spelled out so that the proofs read single positions, which costs the solver far less than comparing a whole literal. */
  predicate WeatherInPune(c: string) {
    |c| == 21 && c[0] == 'w' && c[1] == 'e' && c[2] == 'a' && c[3] == 't' && c[4] == 'h' &&
    c[5] == 'e' && c[6] == 'r' && c[7] == ' ' && c[8] == 'i' && c[9] == 'n' && c[10] == ' ' &&
    PuneToday(c[11..])
  }

  lemma WeatherInPuneSpelling(c: string)
    requires c == "weather in pune today"
    ensures WeatherInPune(c)
  {
    assert c[11..] == "pune today";
  }

  lemma WeatherInPuneMatch(c: string)
    requires WeatherInPune(c)
    ensures FindIn(c, 0) == 8 && LineEnd(c, 11) == 21
  {
    assert c[8..11] == "in ";
    assert c[11] == c[11..][0];
    assert InMatchAt(c, 8);
    forall j: nat | j < 8 ensures !InMatchAt(c, j) {
      assert c[j] != 'i' && c[j..j + 3][0] == c[j];
    }
    forall k | 11 <= k < 21 ensures !IsLineTerminator(c[k]) {
      assert c[k] == c[11..][k - 11];
    }
  }

  /** The location asked for in "weather in pune today" is "pune". */
  lemma LocationOfPune()
    ensures Location("weather in pune today") == "pune"
  {
    var c := "weather in pune today";
    WeatherInPuneSpelling(c);
    WeatherInPuneMatch(c);
    assert c[11..21] == c[11..];
    PuneTodayCleaned(c[11..]);
  }
}
