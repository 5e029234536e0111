/** What a command handler asks of the outside world, and what the outside
    world answers. Speech output, the browser's `window.open` and the three
    HTTP lookups are not modelled; a handler returns them as effects, and the
    parsed lookup responses are given to it as values. */
module Effects {

  datatype Effect =
    | Say(text: string)              // speak(text)
    | OpenTab(url: string)           // window.open(url, '_blank')
    | SearchGoogle(query: string)    // window.open of the Google search page for query
    | FetchWeather(location: string) // the OpenWeatherMap request for location
    | FetchJoke(url: string)         // the JokeAPI request
    | FetchAnswer(query: string)     // the DuckDuckGo instant-answer request

  /** The texts spoken, in order. */
  function Spoken(effects: seq<Effect>): (texts: seq<string>)
    ensures |texts| <= |effects|
  {
    if effects == [] then []
    else (if effects[0].Say? then [effects[0].text] else []) + Spoken(effects[1..])
  }

  /** How many browser tabs the effects open. */
  function TabsOpened(effects: seq<Effect>): (n: nat)
    ensures n <= |effects|
  {
    if effects == [] then 0
    else (if effects[0].OpenTab? || effects[0].SearchGoogle? then 1 else 0) + TabsOpened(effects[1..])
  }

  /** The texts of a concatenation are those of its parts, in order. */
  lemma {:induction false} SpokenAppend(a: seq<Effect>, b: seq<Effect>)
    ensures Spoken(a + b) == Spoken(a) + Spoken(b)
  {
    if a == [] {
      assert a + b == b;
    } else {
      assert (a + b)[0] == a[0] && (a + b)[1..] == a[1..] + b;
      SpokenAppend(a[1..], b);
    }
  }

  /** The tabs of a concatenation are those of its parts. */
  lemma {:induction false} TabsAppend(a: seq<Effect>, b: seq<Effect>)
    ensures TabsOpened(a + b) == TabsOpened(a) + TabsOpened(b)
  {
    if a == [] {
      assert a + b == b;
    } else {
      assert (a + b)[0] == a[0] && (a + b)[1..] == a[1..] + b;
      TabsAppend(a[1..], b);
    }
  }

  /** A request followed by one utterance says that one thing and opens no tab. */
  lemma FetchThenSay(request: Effect, text: string)
    requires request.FetchWeather? || request.FetchJoke? || request.FetchAnswer?
    ensures Spoken([request, Say(text)]) == [text] && TabsOpened([request, Say(text)]) == 0
  {
    assert [request, Say(text)][1..] == [Say(text)];
    assert [Say(text)][1..] == [];
  }

  /** The parsed OpenWeatherMap answer: `data.name`, `data.main.temp` (kept as
      the text it is printed as) and `data.weather[0].description`; or a
      failed request. */
  datatype WeatherResponse =
    | WeatherReport(place: string, temperature: string, description: string)
    | WeatherFailed

  /** The parsed JokeAPI answer (`data.joke`, "" when absent), or a request
      that failed or answered with something other than JSON. The status is
      not looked at: an error status with a JSON body is `JokeData("")`. */
  datatype JokeResponse = JokeData(joke: string) | JokeFailed

  /** The parsed DuckDuckGo answer: `AbstractText`, `Answer` ("" when absent)
      and the `Text` of each related topic ("" when absent); or a request
      that failed or answered with an error status. */
  datatype AnswerResponse =
    | AnswerData(abstractText: string, answer: string, relatedTopics: seq<string>)
    | AnswerFailed
}
