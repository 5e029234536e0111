/** What each command handler does, as functions of the transcript and the
    to-do list before the command: the effects it asks for and the list it
    leaves. The hook and the script run the same handlers and differ only in
    the weather apology, the joke service's address and whether related
    topics are consulted; `Config` holds those three. */
module Handlers {
  import opened Text
  import opened Effects
  import opened Dispatch
  import Weather
  import opened Todo
  import opened Sites
  import opened Answers

  const DARK_ON := "Dark mode activated."
  const LIGHT_ON := "Light mode activated."

  datatype Config = Config(weatherApology: string, jokeUrl: string, withTopics: bool)

  datatype Option<T> = None | Some(value: T)

  /** The task `addToTodoList` stores for the command, if any. */
  function AddedTask(command: string): (task: Option<string>)
    ensures task.Some? <==> CleanTask(command) != []
    ensures task.Some? ==> task.value == CleanTask(command) && Trimmed(task.value) && !AllSpace(task.value)
  {
    var t := CleanTask(command);
    if t != [] then Some(t) else None
  }

  /** The message `addToTodoList` speaks. */
  function AddEffects(command: string): (effects: seq<Effect>)
    ensures |Spoken(effects)| == 1 && TabsOpened(effects) == 0
    ensures AddedTask(command).None? ==> effects == [Say(NOT_UNDERSTOOD)]
    ensures AddedTask(command).Some? ==> effects == [Say(AddedMessage(CleanTask(command)))]
  {
    match AddedTask(command)
    case Some(task) => [Say(AddedMessage(task))]
    case None => [Say(NOT_UNDERSTOOD)]
  }

  /** The list after the handler of `intent` ran on the command: one task
      appended by a successful add, emptied by a clear, untouched otherwise. */
  function ListAfter(intent: Intent, command: string, list: seq<string>): (after: seq<string>)
    ensures intent != ClearTodo ==> |list| <= |after| <= |list| + 1 && after[..|list|] == list
    ensures intent != AddTodo && intent != ClearTodo ==> after == list
  {
    match intent
    case AddTodo => (match AddedTask(command) case Some(task) => list + [task] case None => list)
    case ClearTodo => []
    case _ => list
  }

  /** A successful add grows the list by exactly the cleaned task, at the
      end, and leaves the earlier entries as they were; an add that finds no
      task, and every handler but clear, leaves the list alone; clear
      empties it. */
  lemma ListAfterCases(intent: Intent, command: string, list: seq<string>)
    ensures var after := ListAfter(intent, command, list);
      (intent == AddTodo && CleanTask(command) != [] ==>
        |after| == |list| + 1 && after[..|list|] == list && after[|list|] == CleanTask(command)) &&
      (intent == ClearTodo ==> after == []) &&
      ((intent != AddTodo && intent != ClearTodo) || (intent == AddTodo && CleanTask(command) == []) ==>
        after == list)
  {
  }

  /** The effects of the handler of `intent`, given the list before the
      command and the services' answers. */
  function HandlerEffects(intent: Intent, command: string, list: seq<string>, config: Config,
                          weather: WeatherResponse, joke: JokeResponse, answer: AnswerResponse): (effects: seq<Effect>)
    ensures |Spoken(effects)| == 1 && TabsOpened(effects) <= 1
  {
    match intent
    case Weather => Weather.WeatherEffects(command, weather, config.weatherApology)
    case Joke => JokeEffects(config.jokeUrl, joke)
    case AddTodo => AddEffects(command)
    case ShowTodo => [Say(ShowMessage(list))]
    case ClearTodo => [Say(CLEARED)]
    case DarkMode => [Say(DARK_ON)]
    case LightMode => [Say(LIGHT_ON)]
    case OpenSite => SiteEffects(SITES, command)
    case Fallback => AnswerEffects(command, answer, config.withTopics)
  }

  /** Every handler says exactly one thing and opens at most one tab; only
      the site lookup and the answer handler open one, and the site lookup
      always does. */
  lemma HandlerSaysOne(intent: Intent, command: string, list: seq<string>, config: Config,
                       weather: WeatherResponse, joke: JokeResponse, answer: AnswerResponse)
    ensures var effects := HandlerEffects(intent, command, list, config, weather, joke, answer);
      |Spoken(effects)| == 1 && TabsOpened(effects) <= 1 &&
      (TabsOpened(effects) == 1 ==> intent == OpenSite || intent == Fallback) &&
      (intent == OpenSite ==> TabsOpened(effects) == 1)
  {
  }

  /** Clearing the list and then reading it back says that the list is
      empty, whatever it held. */
  lemma {:induction false} ShowAfterClear(command: string, list: seq<string>, config: Config,
                                          weather: WeatherResponse, joke: JokeResponse, answer: AnswerResponse)
    ensures HandlerEffects(ShowTodo, command, ListAfter(ClearTodo, command, list), config, weather, joke, answer) ==
      [Say(EMPTY_LIST)]
  {
    assert ListAfter(ClearTodo, command, list) == [];
  }

  /** Adding a task and reading the list back names the task last, after
      the tasks that were there. */
  lemma {:induction false} ShowAfterAdd(command: string, list: seq<string>, config: Config,
                                        weather: WeatherResponse, joke: JokeResponse, answer: AnswerResponse)
    requires AddedTask(command).Some?
    ensures HandlerEffects(ShowTodo, command, ListAfter(AddTodo, command, list), config, weather, joke, answer) ==
      [Say(if list == [] then LIST_PREFIX + CleanTask(command)
           else ShowMessage(list) + SEPARATOR + CleanTask(command))]
  {
    AddAppends(command, list);
    ShowEffects(command, ListAfter(AddTodo, command, list), config, weather, joke, answer);
    ShowAfterAppend(list, CleanTask(command));
  }

  /** The show handler reads the list back and does nothing else. */
  lemma ShowEffects(command: string, list: seq<string>, config: Config,
                    weather: WeatherResponse, joke: JokeResponse, answer: AnswerResponse)
    ensures HandlerEffects(ShowTodo, command, list, config, weather, joke, answer) == [Say(ShowMessage(list))]
  {
  }

  /** A successful add appends the cleaned task. */
  lemma AddAppends(command: string, list: seq<string>)
    requires AddedTask(command).Some?
    ensures ListAfter(AddTodo, command, list) == list + [CleanTask(command)]
  {
  }
}
