/** `openWebsiteOrApp`: the first entry of a fixed, ordered site table
    whose name occurs in the command is opened; when none does, a Google
    search for the command is opened instead. */
module Sites {
  import opened Text
  import opened Effects

  /** A table entry; a `customMessage` of "" stands for an absent one. */
  datatype Site = Site(name: string, url: string, customMessage: string)

  const SITES: seq<Site> := [
    Site("google", "https://www.google.com", ""),
    Site("youtube", "https://www.youtube.com", ""),
    Site("instagram", "https://www.instagram.com", ""),
    Site("github", "https://www.github.com", ""),
    Site("twitter", "https://www.twitter.com", ""),
    Site("calculator", "https://www.calculatorsoup.com/", "Opening an online calculator.")
  ]

  const NOT_SURE := "I am not sure how to open that. I will improve myself but currently searching it on Google for you."

  /** `site.customMessage || \`Opening ${site.name}.\``. */
  function OpeningMessage(site: Site): (r: string)
    ensures r != []
    ensures site.customMessage != [] ==> r == site.customMessage
    ensures site.customMessage == [] ==>
      |r| == |site.name| + 9 && r[..8] == "Opening " && r[8..8 + |site.name|] == site.name && r[|r| - 1] == '.'
  {
    if site.customMessage != [] then site.customMessage else "Opening " + site.name + "."
  }

  /** The index of the first entry at or after `from` whose name occurs in
      the command, or -1. */
  function FirstSite(sites: seq<Site>, command: string, from: nat): (k: int)
    decreases |sites| - from
    ensures k == -1 || (from <= k < |sites| && Contains(command, sites[k].name))
    ensures forall j :: from <= j < |sites| && (k == -1 || j < k) ==> !Contains(command, sites[j].name)
  {
    if from >= |sites| then -1
    else if Contains(command, sites[from].name) then from
    else FirstSite(sites, command, from + 1)
  }

  /** What the lookup does: open the first matching entry with its message,
      or announce and open the search. Either way exactly one thing is
      said and exactly one tab is opened. */
  function SiteEffects(sites: seq<Site>, command: string): (effects: seq<Effect>)
    ensures |Spoken(effects)| == 1 && TabsOpened(effects) == 1
    ensures effects == [Say(NOT_SURE), SearchGoogle(command)] <==>
      forall j :: 0 <= j < |sites| ==> !Contains(command, sites[j].name)
  {
    var k := FirstSite(sites, command, 0);
    if k == -1 then [Say(NOT_SURE), SearchGoogle(command)]
    else [Say(OpeningMessage(sites[k])), OpenTab(sites[k].url)]
  }

  /** An entry is opened exactly when its name occurs in the command and
      the name of no entry before it does, whatever order the names come
      in within the command. */
  lemma {:induction false} SiteChosenIff(sites: seq<Site>, command: string, k: nat)
    requires k < |sites|
    ensures FirstSite(sites, command, 0) == k ==>
      SiteEffects(sites, command) == [Say(OpeningMessage(sites[k])), OpenTab(sites[k].url)]
    ensures FirstSite(sites, command, 0) == k <==>
      Contains(command, sites[k].name) && forall j :: 0 <= j < k ==> !Contains(command, sites[j].name)
  {
    var f := FirstSite(sites, command, 0);
    if Contains(command, sites[k].name) && forall j :: 0 <= j < k ==> !Contains(command, sites[j].name) {
      assert f != -1;
    }
  }

  /** The loop of `openWebsiteOrApp` over the table, stopping at the first
      entry whose name occurs in the command. */
  method OpenWebsiteOrApp(command: string) returns (effects: seq<Effect>)
    ensures effects == SiteEffects(SITES, command)
  {
    effects := [];
    var found := false;
    for i := 0 to |SITES|
      invariant !found && effects == []
      invariant FirstSite(SITES, command, 0) == FirstSite(SITES, command, i)
    {
      if Contains(command, SITES[i].name) {
        effects := effects + [Say(OpeningMessage(SITES[i])), OpenTab(SITES[i].url)];
        found := true;
        break;
      }
    }
    if !found {
      effects := effects + [Say(NOT_SURE), SearchGoogle(command)];
    }
  }

  /** "open calculator", character by character: spelled out so that the proofs read single positions, which costs the solver far less than comparing a whole literal. */
  predicate OpenCalculatorText(c: string) {
    |c| == 15 && c[0] == 'o' && c[1] == 'p' && c[2] == 'e' && c[3] == 'n' && c[4] == ' ' &&
    c[5..] == "calculator"
  }

  lemma NoEarlierThanCalculator(c: string)
    requires OpenCalculatorText(c)
    ensures forall j :: 0 <= j < 5 ==> !Contains(c, SITES[j].name)
    ensures Contains(c, SITES[5].name)
  {
    assert forall i :: 5 <= i < 15 ==> c[i] == c[5..][i - 5];
    MissingChar(c, SITES[0].name, 0);
    MissingChar(c, SITES[1].name, 0);
    MissingChar(c, SITES[2].name, 0);
    MissingChar(c, SITES[3].name, 0);
    MissingChar(c, SITES[4].name, 1);
    ContainsAt(c, SITES[5].name, 5);
  }

  /** "open calculator" opens the calculator with its own message: no name
      before it in the table occurs in the command. */
  lemma OpenCalculator()
    ensures SiteEffects(SITES, "open calculator") ==
      [Say("Opening an online calculator."), OpenTab("https://www.calculatorsoup.com/")]
  {
    var c := "open calculator";
    assert OpenCalculatorText(c);
    NoEarlierThanCalculator(c);
    SiteChosenIff(SITES, c, 5);
  }

  /** The table's order decides, not the command's: "open youtube and
      google" opens Google. */
  lemma TableOrderWins()
    ensures SiteEffects(SITES, "open youtube and google") ==
      [Say("Opening google."), OpenTab("https://www.google.com")]
  {
    var c := "open youtube and google";
    assert c[17..23] == SITES[0].name;
    ContainsAt(c, SITES[0].name, 17);
    SiteChosenIff(SITES, c, 0);
    assert FirstSite(SITES, c, 0) == 0;
    assert OpeningMessage(SITES[0]) == "Opening google.";
  }
}
