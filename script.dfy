/** The plain browser script `app.js`: its router, which tests "open"
    before the theme commands, and the page state it keeps (the content
    element's text, the module-level to-do list and the theme classes).
    Unlike the hook, its `speak` leaves the displayed text alone. */
module Script {
  import opened Text
  import opened Effects
  import opened Dispatch
  import Weather
  import opened Todo
  import opened Sites
  import opened Answers
  import opened Handlers

  const CONFIG := Config(
    "I couldn't fetch the weather information. Try again later.",
    "https://v2.jokeapi.dev/joke/Any?safe-mode&type=single",
    false)

  const LISTENING := "Listening..."

  /** The `onresult` chain of tests: "open" comes before dark and light mode. */
  function Route(t: string): (r: Intent)
    ensures AsksWeather(t) ==> r == Intent.Weather
    ensures r == Fallback <==> (!AsksWeather(t) && !AsksJoke(t) && !AsksAdd(t) && !AsksShow(t) &&
      !AsksClear(t) && !AsksDark(t) && !AsksLight(t) && !AsksOpen(t))
  {
    if AsksWeather(t) then Intent.Weather
    else if AsksJoke(t) then Joke
    else if AsksAdd(t) then AddTodo
    else if AsksShow(t) then ShowTodo
    else if AsksClear(t) then ClearTodo
    else if AsksOpen(t) then OpenSite
    else if AsksDark(t) then DarkMode
    else if AsksLight(t) then LightMode
    else Fallback
  }

  /** The script's order as a rule table. */
  const RULES: seq<Rule> :=
    [WEATHER_RULE, JOKE_RULE, ADD_RULE, SHOW_RULE, CLEAR_RULE, OPEN_RULE, DARK_RULE, LIGHT_RULE]

  /** The chain is first-match over the table. */
  lemma {:induction false} RouteIsFirstMatch(t: string)
    ensures Route(t) == FirstMatch(RULES, t)
  {
    RulesMatchTests(t);
    var k := FirstFiring(RULES, t, 0);
    if k == -1 {
      assert forall j :: 0 <= j < |RULES| ==> !Fires(RULES[j], t);
      assert !Fires(RULES[0], t) && !Fires(RULES[1], t) && !Fires(RULES[2], t) && !Fires(RULES[3], t);
      assert !Fires(RULES[4], t) && !Fires(RULES[5], t) && !Fires(RULES[6], t) && !Fires(RULES[7], t);
    } else {
      assert Fires(RULES[k], t) && forall j :: 0 <= j < k ==> !Fires(RULES[j], t);
    }
  }

  /** Exactly one handler runs for every transcript, the first in the
      script's order whose test holds. */
  lemma RouteChoosesOne(t: string)
    ensures forall k :: 0 <= k < |RULES| ==>
      (Route(t) == RULES[k].intent <==> Fires(RULES[k], t) && forall j :: 0 <= j < k ==> !Fires(RULES[j], t))
    ensures Route(t) == Fallback <==> forall k :: 0 <= k < |RULES| ==> !Fires(RULES[k], t)
  {
    RouteIsFirstMatch(t);
    RulesDistinct();
    FirstMatchChoosesOne(RULES, t);
  }

  /** The table names eight different handlers. */
  lemma RulesDistinct()
    ensures Distinct(RULES)
  {
    var intents := seq(|RULES|, k requires 0 <= k < |RULES| => RULES[k].intent);
    assert intents == [RULES[0].intent, RULES[1].intent, RULES[2].intent, RULES[3].intent,
                       RULES[4].intent, RULES[5].intent, RULES[6].intent, RULES[7].intent];
  }

  /** A theme command that also says "open" opens a site instead. */
  lemma OpenBeforeTheme(t: string)
    ensures (!AsksWeather(t) && !AsksJoke(t) && !AsksAdd(t) && !AsksShow(t) && !AsksClear(t) &&
      AsksOpen(t)) ==> Route(t) == OpenSite
    ensures Route(t) == DarkMode ==> !AsksOpen(t) && AsksDark(t)
  {
  }

  class Assistant {
    var content: string
    var todoList: seq<string>
    /** Whether the page body carries the `dark-mode` class and the `light-mode` class. */
    var darkMode: bool
    var lightMode: bool

    /** The two theme classes are never both present. */
    predicate Valid()
      reads this
    {
      !(darkMode && lightMode)
    }

    /** The page as loaded: the content element's own text and an empty list.
        The page body is taken to start with neither theme class; classes
        set by the page's own markup are not modelled. */
    constructor (initialContent: string)
      ensures content == initialContent && todoList == [] && !darkMode && !lightMode && Valid()
    {
      content := initialContent;
      todoList := [];
      darkMode := false;
      lightMode := false;
    }

    method OnStart()
      modifies this
      ensures content == LISTENING
      ensures todoList == old(todoList) && darkMode == old(darkMode) && lightMode == old(lightMode)
    {
      content := LISTENING;
    }

    /** `getWeather`, with the weather service's answer given. */
    method GetWeather(command: string, response: WeatherResponse) returns (effects: seq<Effect>)
      ensures effects == Weather.WeatherEffects(command, response, CONFIG.weatherApology)
    {
      var location := Weather.Location(command);
      effects := [FetchWeather(location)];
      match response {
        case WeatherReport(place, temperature, description) =>
          effects := effects + [Say(Weather.WeatherMessage(place, temperature, description))];
        case WeatherFailed =>
          effects := effects + [Say(CONFIG.weatherApology)];
      }
    }

    /** `tellJoke`, with the joke service's answer given. */
    method TellJoke(response: JokeResponse) returns (effects: seq<Effect>)
      ensures effects == JokeEffects(CONFIG.jokeUrl, response)
    {
      effects := [FetchJoke(CONFIG.jokeUrl)];
      match response {
        case JokeData(joke) =>
          effects := effects + [Say(if joke != [] then joke else NO_JOKE)];
        case JokeFailed =>
          effects := effects + [Say(JOKE_FAILED)];
      }
    }

    /** `getAIResponse`, with the answer service's response given; only the
        abstract and the direct answer are consulted, and a blank reply is
        sent to the search before it is shortened. */
    method GetAIResponse(query: string, response: AnswerResponse) returns (effects: seq<Effect>)
      ensures effects == AnswerEffects(query, response, CONFIG.withTopics)
    {
      effects := [FetchAnswer(query)];
      match response {
        case AnswerFailed =>
          effects := effects + [Say(TROUBLE)];
        case AnswerData(abstractText, answer, _) =>
          var reply := if abstractText != [] then abstractText else answer;
          if Trim(reply) == [] {
            effects := effects + [Say(SEARCHING), SearchGoogle(query)];
          } else {
            reply := Truncate(reply);
            effects := effects + [Say(reply)];
          }
      }
    }

    /** `addToTodoList`: the task text is cleaned one step at a time and
        pushed onto the list when something is left. */
    method AddToTodoList(command: string) returns (effects: seq<Effect>)
      modifies this
      ensures todoList == ListAfter(AddTodo, command, old(todoList))
      ensures effects == AddEffects(command)
      ensures content == old(content) && darkMode == old(darkMode) && lightMode == old(lightMode)
    {
      var task := command;
      task := StripLeadingVerb(task);
      task := RemoveListPhrase(task);
      task := Trim(task);
      if task != [] {
        todoList := todoList + [task];
        effects := [Say(AddedMessage(task))];
      } else {
        effects := [Say(NOT_UNDERSTOOD)];
      }
    }

    method ShowTodoList() returns (effects: seq<Effect>)
      ensures effects == [Say(ShowMessage(todoList))]
    {
      if |todoList| == 0 {
        effects := [Say(EMPTY_LIST)];
      } else {
        effects := [Say(LIST_PREFIX + Join(todoList, SEPARATOR))];
      }
    }

    method ClearTodoList() returns (effects: seq<Effect>)
      modifies this
      ensures todoList == [] && effects == [Say(CLEARED)]
      ensures content == old(content) && darkMode == old(darkMode) && lightMode == old(lightMode)
    {
      todoList := [];
      effects := [Say(CLEARED)];
    }

    method ActivateDark() returns (effects: seq<Effect>)
      modifies this
      ensures darkMode && !lightMode && Valid()
      ensures effects == [Say(DARK_ON)] && content == old(content) && todoList == old(todoList)
    {
      lightMode := false;
      darkMode := true;
      effects := [Say(DARK_ON)];
    }

    method ActivateLight() returns (effects: seq<Effect>)
      modifies this
      ensures lightMode && !darkMode && Valid()
      ensures effects == [Say(LIGHT_ON)] && content == old(content) && todoList == old(todoList)
    {
      darkMode := false;
      lightMode := true;
      effects := [Say(LIGHT_ON)];
    }

    /** The handler of `intent`, run on the command t: the shown text is
        left alone; exactly one thing is said and at most one tab opened. */
    method Handle(intent: Intent, t: string, weather: WeatherResponse, joke: JokeResponse, answer: AnswerResponse)
      returns (effects: seq<Effect>)
      modifies this
      requires Valid()
      ensures Valid()
      ensures effects == HandlerEffects(intent, t, old(todoList), CONFIG, weather, joke, answer)
      ensures todoList == ListAfter(intent, t, old(todoList))
      ensures (intent == DarkMode ==> darkMode && !lightMode) &&
        (intent == LightMode ==> lightMode && !darkMode) &&
        (intent != DarkMode && intent != LightMode ==> darkMode == old(darkMode) && lightMode == old(lightMode))
      ensures content == old(content)
    {
      match intent {
        case Weather => effects := GetWeather(t, weather);
        case Joke => effects := TellJoke(joke);
        case AddTodo => effects := AddToTodoList(t);
        case ShowTodo => effects := ShowTodoList();
        case ClearTodo => effects := ClearTodoList();
        case OpenSite => effects := OpenWebsiteOrApp(t);
        case DarkMode => effects := ActivateDark();
        case LightMode => effects := ActivateLight();
        case Fallback => effects := GetAIResponse(t, answer);
      }
    }

    /** `onresult`: the lower-cased transcript is shown and routed to one
        handler, which runs with the services' answers given. The shown
        text stays the transcript; exactly one thing is said and at most
        one tab opened. */
    method OnResult(transcript: string, weather: WeatherResponse, joke: JokeResponse, answer: AnswerResponse)
      returns (effects: seq<Effect>)
      modifies this
      requires Valid()
      ensures Valid()
      ensures var t := ToLower(transcript);
        effects == HandlerEffects(Route(t), t, old(todoList), CONFIG, weather, joke, answer) &&
        todoList == ListAfter(Route(t), t, old(todoList))
      ensures var i := Route(ToLower(transcript));
        (i == DarkMode ==> darkMode && !lightMode) &&
        (i == LightMode ==> lightMode && !darkMode) &&
        (i != DarkMode && i != LightMode ==> darkMode == old(darkMode) && lightMode == old(lightMode))
      ensures content == "You said: " + ToLower(transcript)
      ensures |Spoken(effects)| == 1 && TabsOpened(effects) <= 1
    {
      var t := ToLower(transcript);
      content := "You said: " + t;
      // Route(t) is the chain of tests in source order; one handler runs.
      effects := Handle(Route(t), t, weather, joke, answer);
      HandlerSaysOne(Route(t), t, old(todoList), CONFIG, weather, joke, answer);
    }
  }

  /** Clearing and then reading back the list says it is empty, whatever
      it held before. */
  method ClearThenShow(a: Assistant) returns (said: seq<string>)
    modifies a
    ensures said == [EMPTY_LIST] && a.todoList == []
  {
    var cleared := a.ClearTodoList();
    var shown := a.ShowTodoList();
    said := Spoken(shown);
  }
}
