/** The Next.js hook `useVoiceAssistant`: its router, which tests the theme
    commands before "open", and the assistant's state (the displayed
    content, the to-do list and the page's theme classes) with the
    handlers that change it. */
module Hook {
  import opened Text
  import opened Effects
  import opened Dispatch
  import opened Todo
  import opened Sites
  import opened Answers
  import opened Handlers

  const CONFIG := Config(
    "I couldn't fetch the weather information.",
    "https://v2.jokeapi.dev/joke/Programming,Misc,Pun?safe-mode&type=single",
    true)

  const GREETING := "Click the mic and speak..."
  const LISTENING := "Listening..."

  /** The `onresult` chain of tests: dark and light mode come before "open". */
  function Route(t: string): (r: Intent)
    ensures AsksWeather(t) ==> r == Intent.Weather
    ensures r == Fallback <==> (!AsksWeather(t) && !AsksJoke(t) && !AsksAdd(t) && !AsksShow(t) &&
      !AsksClear(t) && !AsksDark(t) && !AsksLight(t) && !AsksOpen(t))
  {
    if AsksWeather(t) then Intent.Weather
    else if AsksJoke(t) then Joke
    else if AsksAdd(t) then AddTodo
    else if AsksShow(t) then ShowTodo
    else if AsksClear(t) then ClearTodo
    else if AsksDark(t) then DarkMode
    else if AsksLight(t) then LightMode
    else if AsksOpen(t) then OpenSite
    else Fallback
  }

  /** The hook's order as a rule table. */
  const RULES: seq<Rule> :=
    [WEATHER_RULE, JOKE_RULE, ADD_RULE, SHOW_RULE, CLEAR_RULE, DARK_RULE, LIGHT_RULE, OPEN_RULE]

  /** The chain is first-match over the table. */
  lemma {:induction false} RouteIsFirstMatch(t: string)
    ensures Route(t) == FirstMatch(RULES, t)
  {
    RulesMatchTests(t);
    var k := FirstFiring(RULES, t, 0);
    if k == -1 {
      assert forall j :: 0 <= j < |RULES| ==> !Fires(RULES[j], t);
      assert !Fires(RULES[0], t) && !Fires(RULES[1], t) && !Fires(RULES[2], t) && !Fires(RULES[3], t);
      assert !Fires(RULES[4], t) && !Fires(RULES[5], t) && !Fires(RULES[6], t) && !Fires(RULES[7], t);
    } else {
      assert Fires(RULES[k], t) && forall j :: 0 <= j < k ==> !Fires(RULES[j], t);
    }
  }

  /** Exactly one handler runs for every transcript: the handler of rule k
      if and only if rule k's test holds and no earlier one does, the
      fallback if and only if no test holds. */
  lemma RouteChoosesOne(t: string)
    ensures forall k :: 0 <= k < |RULES| ==>
      (Route(t) == RULES[k].intent <==> Fires(RULES[k], t) && forall j :: 0 <= j < k ==> !Fires(RULES[j], t))
    ensures Route(t) == Fallback <==> forall k :: 0 <= k < |RULES| ==> !Fires(RULES[k], t)
  {
    RouteIsFirstMatch(t);
    RulesDistinct();
    FirstMatchChoosesOne(RULES, t);
  }

  /** The table names eight different handlers. */
  lemma RulesDistinct()
    ensures Distinct(RULES)
  {
    var intents := seq(|RULES|, k requires 0 <= k < |RULES| => RULES[k].intent);
    assert intents == [RULES[0].intent, RULES[1].intent, RULES[2].intent, RULES[3].intent,
                       RULES[4].intent, RULES[5].intent, RULES[6].intent, RULES[7].intent];
  }

  /** What the keyword tests decide: weather wins whatever else is said;
      an add runs only without a weather or joke keyword; a theme command
      that also says "open" switches the theme. */
  lemma RouteByKeywords(t: string)
    ensures AsksWeather(t) ==> Route(t) == Intent.Weather
    ensures Route(t) == AddTodo <==> AsksAdd(t) && !AsksWeather(t) && !AsksJoke(t)
    ensures (!AsksWeather(t) && !AsksJoke(t) && !AsksAdd(t) && !AsksShow(t) && !AsksClear(t) &&
      AsksDark(t) && AsksOpen(t)) ==> Route(t) == DarkMode
  {
  }

  class VoiceAssistant {
    var content: string
    var todoList: seq<string>
    /** Whether the page body carries the `dark-mode` class and the `light-mode` class. */
    var darkMode: bool
    var lightMode: bool

    /** The two theme classes are never both present. */
    predicate Valid()
      reads this
    {
      !(darkMode && lightMode)
    }

    /** The hook's first render: the greeting displayed and an empty list.
        The page body is taken to start with neither theme class; classes
        set by the page's own markup are not modelled. */
    constructor ()
      ensures content == GREETING && todoList == [] && !darkMode && !lightMode && Valid()
    {
      content := GREETING;
      todoList := [];
      darkMode := false;
      lightMode := false;
    }

    method OnStart()
      modifies this
      ensures content == LISTENING
      ensures todoList == old(todoList) && darkMode == old(darkMode) && lightMode == old(lightMode)
    {
      content := LISTENING;
    }

    /** `speak`: the text is said and shown. */
    method Speak(text: string) returns (effects: seq<Effect>)
      modifies this
      ensures effects == [Say(text)] && content == text
      ensures todoList == old(todoList) && darkMode == old(darkMode) && lightMode == old(lightMode)
    {
      effects := [Say(text)];
      content := text;
    }

    /** `getWeather`, with the weather service's answer given. */
    method GetWeather(command: string, response: WeatherResponse) returns (effects: seq<Effect>)
      modifies this
      ensures effects == Weather.WeatherEffects(command, response, CONFIG.weatherApology)
      ensures content == Spoken(effects)[0]
      ensures todoList == old(todoList) && darkMode == old(darkMode) && lightMode == old(lightMode)
    {
      effects := [FetchWeather(Weather.Location(command))];
      var said;
      match response {
        case WeatherReport(place, temperature, description) =>
          said := Speak(Weather.WeatherMessage(place, temperature, description));
        case WeatherFailed =>
          said := Speak(CONFIG.weatherApology);
      }
      effects := effects + said;
    }

    /** `tellJoke`, with the joke service's answer given. */
    method TellJoke(response: JokeResponse) returns (effects: seq<Effect>)
      modifies this
      ensures effects == JokeEffects(CONFIG.jokeUrl, response)
      ensures content == Spoken(effects)[0]
      ensures todoList == old(todoList) && darkMode == old(darkMode) && lightMode == old(lightMode)
    {
      effects := [FetchJoke(CONFIG.jokeUrl)];
      var said;
      match response {
        case JokeData(joke) =>
          said := Speak(if joke != [] then joke else NO_JOKE);
        case JokeFailed =>
          said := Speak(JOKE_FAILED);
      }
      effects := effects + said;
    }

    /** `openWebsiteOrApp`: the table lookup, whose message is shown. */
    method OpenWebsite(command: string) returns (effects: seq<Effect>)
      modifies this
      ensures effects == SiteEffects(SITES, command)
      ensures content == Spoken(effects)[0]
      ensures todoList == old(todoList) && darkMode == old(darkMode) && lightMode == old(lightMode)
    {
      effects := OpenWebsiteOrApp(command);
      content := Spoken(effects)[0];
    }

    /** `getAIResponse`, with the answer service's response given; a blank
        reply is sent to the search before it is shortened. */
    method GetAIResponse(query: string, response: AnswerResponse) returns (effects: seq<Effect>)
      modifies this
      ensures effects == AnswerEffects(query, response, CONFIG.withTopics)
      ensures content == Spoken(effects)[0]
      ensures todoList == old(todoList) && darkMode == old(darkMode) && lightMode == old(lightMode)
    {
      effects := [FetchAnswer(query)];
      var said;
      match response {
        case AnswerFailed =>
          said := Speak(TROUBLE);
        case AnswerData(abstractText, answer, topics) =>
          var reply := ChooseReply(abstractText, answer, topics, CONFIG.withTopics);
          if Trim(reply) == [] {
            said := Speak(SEARCHING);
            said := said + [SearchGoogle(query)];
          } else {
            said := Speak(Truncate(reply));
          }
      }
      effects := effects + said;
    }

    method AddToTodoList(command: string) returns (effects: seq<Effect>)
      modifies this
      ensures todoList == ListAfter(AddTodo, command, old(todoList))
      ensures effects == AddEffects(command) && content == Spoken(effects)[0]
      ensures darkMode == old(darkMode) && lightMode == old(lightMode)
    {
      match AddedTask(command)
      case Some(task) =>
        todoList := todoList + [task];
        effects := Speak(AddedMessage(task));
      case None =>
        effects := Speak(NOT_UNDERSTOOD);
    }

    method ShowTodoList() returns (effects: seq<Effect>)
      modifies this
      ensures effects == [Say(ShowMessage(todoList))] && content == ShowMessage(todoList)
      ensures todoList == old(todoList) && darkMode == old(darkMode) && lightMode == old(lightMode)
    {
      if |todoList| == 0 {
        effects := Speak(EMPTY_LIST);
      } else {
        effects := Speak(LIST_PREFIX + Join(todoList, SEPARATOR));
      }
    }

    method ClearTodoList() returns (effects: seq<Effect>)
      modifies this
      ensures todoList == [] && effects == [Say(CLEARED)] && content == CLEARED
      ensures darkMode == old(darkMode) && lightMode == old(lightMode)
    {
      todoList := [];
      effects := Speak(CLEARED);
    }

    /** The dark-mode branch: the light class goes, the dark class comes. */
    method ActivateDark() returns (effects: seq<Effect>)
      modifies this
      ensures darkMode && !lightMode && Valid()
      ensures effects == [Say(DARK_ON)] && content == DARK_ON && todoList == old(todoList)
    {
      lightMode := false;
      darkMode := true;
      effects := Speak(DARK_ON);
    }

    method ActivateLight() returns (effects: seq<Effect>)
      modifies this
      ensures lightMode && !darkMode && Valid()
      ensures effects == [Say(LIGHT_ON)] && content == LIGHT_ON && todoList == old(todoList)
    {
      darkMode := false;
      lightMode := true;
      effects := Speak(LIGHT_ON);
    }

    /** The handler of `intent`, run on the command t: every handler ends
        with exactly one thing said and shown, and at most one tab opened. */
    method Handle(intent: Intent, t: string, weather: WeatherResponse, joke: JokeResponse, answer: AnswerResponse)
      returns (effects: seq<Effect>)
      modifies this
      requires Valid()
      ensures Valid()
      ensures effects == HandlerEffects(intent, t, old(todoList), CONFIG, weather, joke, answer)
      ensures todoList == ListAfter(intent, t, old(todoList))
      ensures (intent == DarkMode ==> darkMode && !lightMode) &&
        (intent == LightMode ==> lightMode && !darkMode) &&
        (intent != DarkMode && intent != LightMode ==> darkMode == old(darkMode) && lightMode == old(lightMode))
      ensures |Spoken(effects)| == 1 && content == Spoken(effects)[0]
    {
      match intent {
        case Weather => effects := GetWeather(t, weather);
        case Joke => effects := TellJoke(joke);
        case AddTodo => effects := AddToTodoList(t);
        case ShowTodo => effects := ShowTodoList();
        case ClearTodo => effects := ClearTodoList();
        case DarkMode => effects := ActivateDark();
        case LightMode => effects := ActivateLight();
        case OpenSite => effects := OpenWebsite(t);
        case Fallback => effects := GetAIResponse(t, answer);
      }
    }

    /** `onresult`: the lower-cased transcript is shown, then routed to one
      handler, which runs with the services' answers given. Every command
      ends with exactly one thing said, shown in place of the transcript,
      and at most one tab opened. */
    method OnResult(transcript: string, weather: WeatherResponse, joke: JokeResponse, answer: AnswerResponse)
      returns (effects: seq<Effect>)
      modifies this
      requires Valid()
      ensures Valid()
      ensures var t := ToLower(transcript);
        effects == HandlerEffects(Route(t), t, old(todoList), CONFIG, weather, joke, answer) &&
        todoList == ListAfter(Route(t), t, old(todoList))
      ensures var i := Route(ToLower(transcript));
        (i == DarkMode ==> darkMode && !lightMode) &&
        (i == LightMode ==> lightMode && !darkMode) &&
        (i != DarkMode && i != LightMode ==> darkMode == old(darkMode) && lightMode == old(lightMode))
      ensures |Spoken(effects)| == 1 && content == Spoken(effects)[0] && TabsOpened(effects) <= 1
    {
      var t := ToLower(transcript);
      content := "You said: " + t;
      // Route(t) is the chain of tests in source order; one handler runs.
      effects := Handle(Route(t), t, weather, joke, answer);
      HandlerSaysOne(Route(t), t, old(todoList), CONFIG, weather, joke, answer);
    }
  }
}
