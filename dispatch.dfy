/** The intents a transcript can be routed to, the keyword tests of the
    routers, and the same tests written as an ordered rule table with a
    first-match evaluator, against which each router's if/else chain is
    proved. */
module Dispatch {
  import opened Text

  datatype Intent =
    | Weather | Joke | AddTodo | ShowTodo | ClearTodo | DarkMode | LightMode | OpenSite | Fallback

  predicate MentionsTodoList(t: string) {
    Contains(t, "to-do list") || Contains(t, "to do list") || Contains(t, "todo")
  }

  predicate AsksWeather(t: string) { Contains(t, "weather") || Contains(t, "temperature") }

  predicate AsksJoke(t: string) { Contains(t, "joke") || Contains(t, "make me laugh") }

  predicate AsksAdd(t: string) { Contains(t, "add") && MentionsTodoList(t) }

  predicate AsksShow(t: string) { Contains(t, "show") && MentionsTodoList(t) }

  predicate AsksClear(t: string) { Contains(t, "clear") && MentionsTodoList(t) }

  predicate AsksTurnOn(t: string) { Contains(t, "activate") || Contains(t, "turn on") }

  predicate AsksDark(t: string) { AsksTurnOn(t) && Contains(t, "dark mode") }

  predicate AsksLight(t: string) { AsksTurnOn(t) && Contains(t, "light mode") }

  predicate AsksOpen(t: string) { Contains(t, "open") }

  /** A rule fires when, for each of its groups, the transcript contains
      at least one of the group's phrases. */
  datatype Rule = Rule(groups: seq<seq<string>>, intent: Intent)

  predicate ContainsAny(t: string, phrases: seq<string>)
    decreases |phrases|
  {
    |phrases| > 0 && (Contains(t, phrases[0]) || ContainsAny(t, phrases[1..]))
  }

  predicate ContainsEach(t: string, groups: seq<seq<string>>)
    decreases |groups|
  {
    |groups| == 0 || (ContainsAny(t, groups[0]) && ContainsEach(t, groups[1..]))
  }

  predicate Fires(rule: Rule, t: string) {
    ContainsEach(t, rule.groups)
  }

  const TODO_PHRASES: seq<string> := ["to-do list", "to do list", "todo"]
  const TURN_ON_PHRASES: seq<string> := ["activate", "turn on"]

  const WEATHER_RULE := Rule([["weather", "temperature"]], Weather)
  const JOKE_RULE := Rule([["joke", "make me laugh"]], Joke)
  const ADD_RULE := Rule([["add"], TODO_PHRASES], AddTodo)
  const SHOW_RULE := Rule([["show"], TODO_PHRASES], ShowTodo)
  const CLEAR_RULE := Rule([["clear"], TODO_PHRASES], ClearTodo)
  const DARK_RULE := Rule([TURN_ON_PHRASES, ["dark mode"]], DarkMode)
  const LIGHT_RULE := Rule([TURN_ON_PHRASES, ["light mode"]], LightMode)
  const OPEN_RULE := Rule([["open"]], OpenSite)

  /** Each rule of the table fires exactly when the router's test does. */
  lemma RulesMatchTests(t: string)
    ensures Fires(WEATHER_RULE, t) == AsksWeather(t)
    ensures Fires(JOKE_RULE, t) == AsksJoke(t)
    ensures Fires(ADD_RULE, t) == AsksAdd(t)
    ensures Fires(SHOW_RULE, t) == AsksShow(t)
    ensures Fires(CLEAR_RULE, t) == AsksClear(t)
    ensures Fires(DARK_RULE, t) == AsksDark(t)
    ensures Fires(LIGHT_RULE, t) == AsksLight(t)
    ensures Fires(OPEN_RULE, t) == AsksOpen(t)
  {
    EachOfOne(t, ["weather", "temperature"]);
    AnyOfTwo(t, "weather", "temperature");
    EachOfOne(t, ["joke", "make me laugh"]);
    AnyOfTwo(t, "joke", "make me laugh");
    EachOfOne(t, ["open"]);
    AnyOfOne(t, "open");
    AnyOfOne(t, "add");
    AnyOfOne(t, "show");
    AnyOfOne(t, "clear");
    AnyOfThree(t, "to-do list", "to do list", "todo");
    EachOfTwo(t, ["add"], TODO_PHRASES);
    EachOfTwo(t, ["show"], TODO_PHRASES);
    EachOfTwo(t, ["clear"], TODO_PHRASES);
    AnyOfTwo(t, "activate", "turn on");
    AnyOfOne(t, "dark mode");
    AnyOfOne(t, "light mode");
    EachOfTwo(t, TURN_ON_PHRASES, ["dark mode"]);
    EachOfTwo(t, TURN_ON_PHRASES, ["light mode"]);
  }

  lemma AnyOfOne(t: string, a: string)
    ensures ContainsAny(t, [a]) == Contains(t, a)
  {
    assert [a][1..] == [];
  }

  lemma AnyOfTwo(t: string, a: string, b: string)
    ensures ContainsAny(t, [a, b]) == (Contains(t, a) || Contains(t, b))
  {
    assert [a, b][1..] == [b];
    AnyOfOne(t, b);
  }

  lemma AnyOfThree(t: string, a: string, b: string, c: string)
    ensures ContainsAny(t, [a, b, c]) == (Contains(t, a) || Contains(t, b) || Contains(t, c))
  {
    assert [a, b, c][1..] == [b, c];
    AnyOfTwo(t, b, c);
  }

  lemma EachOfOne(t: string, g: seq<string>)
    ensures ContainsEach(t, [g]) == ContainsAny(t, g)
  {
    assert [g][1..] == [];
  }

  lemma EachOfTwo(t: string, g: seq<string>, h: seq<string>)
    ensures ContainsEach(t, [g, h]) == (ContainsAny(t, g) && ContainsAny(t, h))
  {
    assert [g, h][1..] == [h];
    EachOfOne(t, h);
  }

  /** The index of the first rule at or after `from` that fires, or -1. */
  function FirstFiring(rules: seq<Rule>, t: string, from: nat): (k: int)
    decreases |rules| - from
    ensures k == -1 || (from <= k < |rules| && Fires(rules[k], t))
    ensures forall j :: from <= j < |rules| && (k == -1 || j < k) ==> !Fires(rules[j], t)
  {
    if from >= |rules| then -1
    else if Fires(rules[from], t) then from
    else FirstFiring(rules, t, from + 1)
  }

  /** First match wins; when no rule fires, the fallback runs. */
  function FirstMatch(rules: seq<Rule>, t: string): Intent {
    var k := FirstFiring(rules, t, 0);
    if k == -1 then Fallback else rules[k].intent
  }

  /** A table whose rules name distinct intents, none of them the fallback. */
  predicate Distinct(rules: seq<Rule>) {
    (forall k :: 0 <= k < |rules| ==> rules[k].intent != Fallback) &&
    (forall j, k :: 0 <= j < k < |rules| ==> rules[j].intent != rules[k].intent)
  }

  /** Exactly one handler is chosen: rule k's handler runs if and only if
      rule k fires and no earlier rule does, and the fallback runs if and
      only if no rule fires. */
  lemma {:induction false} FirstMatchChoosesOne(rules: seq<Rule>, t: string)
    requires Distinct(rules)
    ensures forall k :: 0 <= k < |rules| ==>
      (FirstMatch(rules, t) == rules[k].intent <==>
        Fires(rules[k], t) && forall j :: 0 <= j < k ==> !Fires(rules[j], t))
    ensures FirstMatch(rules, t) == Fallback <==> forall k :: 0 <= k < |rules| ==> !Fires(rules[k], t)
  {
    var f := FirstFiring(rules, t, 0);
    forall k | 0 <= k < |rules|
      ensures FirstMatch(rules, t) == rules[k].intent <==>
        Fires(rules[k], t) && forall j :: 0 <= j < k ==> !Fires(rules[j], t)
    {
      if FirstMatch(rules, t) == rules[k].intent {
        assert f != -1;
      }
    }
  }
}
