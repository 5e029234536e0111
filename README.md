# SAGX voice assistant: command logic

SAGX is a voice assistant that exists twice in the repository:
- as a Next.js hook, `useVoiceAssistant`;
- as a plain browser script, `app.js`.

Both take the lower-cased transcript of one utterance and route it to exactly one handler through an ordered chain of substring tests. The handlers are:
- the weather report;
- a joke;
- add, show or clear on the to-do list;
- a dark or light page theme;
- opening a site from a fixed table;
- a DuckDuckGo answer, which falls back to a Google search.

In how they read and handle a command, the two copies differ in eight ways:
- the hook tests the theme commands before "open", the script tests "open" first;
- only the hook consults DuckDuckGo's related topics;
- only the hook's `speak` replaces the displayed text;
- the weather apology: the script adds "Try again later.";
- the joke service address: the hook asks for the Programming, Misc and Pun categories, the script for any category;
- the text displayed at the start: the hook shows "Click the mic and speak...", the script keeps the content element's own text;
- the recognition result read: the hook reads `event.results[0]`, the script `event.results[event.resultIndex]`;
- the weather service key: the hook reads it from the `NEXT_PUBLIC_WEATHER_API_KEY` environment variable, the script ships it as the empty string, so every weather request from the script carries an empty `APPID`.

The model states the first six; the result slot and the key are listed under "## Left out". Other differences lie outside the command logic and are listed there too: the hook's React state (a `showTodoList` that may read a stale list), and how each copy starts the recogniser.

This project models that logic in Dafny. Its modules:
- `Text`: the JavaScript string operations used, such as `includes`, `trim`, ASCII `toLowerCase`, `join`, `split('. ')[0]` and the UTF-16 `length`.
- `Effects`: what a handler asks of the outside world. Speech, tabs and HTTP requests are effect values, and the parsed service answers are given as values.
- `Dispatch`: the keyword tests and the same tests as an ordered rule table with a first-match evaluator.
- `Weather`: the location taken with `/in (.+)/`, trimmed, cleared of `/\btoday\b/gi` and trimmed again.
- `Todo`: the task text with `/^(add|put|insert)\s+/i` and `/\b(to|in)?\s*(my)?\s*(to[- ]?do|todo)\s*list\b/gi` removed, and the messages.
- `Sites`: the site table and its first-match lookup loop.
- `Answers`: the joke handler, the reply choice, the 120-character shortening and the blank-reply search.
- `Handlers`: each handler's effects and the list it leaves, as functions.
- `Hook` and `Script`: each file's router and its state as a class, with the handlers as methods. The state is the displayed text, the to-do list and the two theme classes on the page body.
- `Divergence`: exactly where the two copies behave differently.

Both routing orders are modelled as each file writes them; neither is treated as the canonical one.

## Model

| member | source | states |
|---|---|---|
| Text.ToLower | sagx-ai-agent/src/app/hooks/useVoiceAssistant.js:22 | the lower-cased transcript has the same length, each character is the ASCII lower case of the one in its place, no upper-case letter is left, and text without upper-case letters is unchanged |
| Text.ToLowerIdempotent | app.js:17 | lower-casing twice is lower-casing once |
| Text.IndexOfFrom | app.js:151 | the result is the first position at or after `from` where the substring occurs, or -1 when it occurs nowhere there |
| Text.ContainsIff | app.js:20 | `includes` holds exactly when the substring occurs at some position |
| Text.MissingChar | app.js:151 | a text lacking one character of a word does not contain the word |
| Text.ContainsInfix | app.js:151 | an occurrence inside a slice is an occurrence in the whole text |
| Text.FirstSegment | app.js:68 | `split('. ')[0]` is a prefix without ". ", followed in the text by ". " or ending it; it is the whole text when there is no ". " |
| Text.Utf16Length | sagx-ai-agent/src/app/hooks/useVoiceAssistant.js:180 | `length` counts UTF-16 code units: between one and two per character, and one per character for text lying wholly below U+10000 |
| Text.Utf16OfChar | sagx-ai-agent/src/app/hooks/useVoiceAssistant.js:180 | one character is one code unit below U+10000 and two (a surrogate pair) above |
| Text.Utf16Append | sagx-ai-agent/src/app/hooks/useVoiceAssistant.js:180 | the `length` of a concatenation is the sum of the lengths |
| Text.Trim | app.js:116 | `trim` gives a text that neither starts nor ends with whitespace, is empty exactly for all-whitespace input, is surrounded in the input by whitespace only, and leaves trimmed text alone |
| Text.TrimUnique | app.js:116 | any non-empty trimmed core surrounded only by whitespace is the trimmed text |
| Text.TrimIdempotent | app.js:116 | trimming twice is trimming once |
| Text.Contains | app.js:20 | `includes`: the empty text is included in every text, and no text longer than the subject is; `Text.ContainsIff` gives the exact condition |
| Text.Join | app.js:130 | `join`: no entries give the empty text and one entry gives that entry; `Text.JoinEnds` and `Text.JoinAppend` give the rest |
| Text.JoinEnds | sagx-ai-agent/src/app/hooks/useVoiceAssistant.js:129 | a joined text begins with the first entry and ends with the last |
| Text.JoinAppend | app.js:130 | joining a list with one more entry appends the separator and the entry |
| Effects.SpokenAppend | app.js:53-81 | a fact about the effect model that the answer handler's proof uses, since its effects are the request followed by the reply's effects: the texts spoken by a concatenation of effects are those of its parts, in order |
| Effects.TabsAppend | sagx-ai-agent/src/app/hooks/useVoiceAssistant.js:164-194 | a fact about the effect model that the answer handler's proof uses: the tabs opened by a concatenation of effects are those of its parts |
| Effects.FetchThenSay | app.js:96-101 | a request followed by one utterance says that one thing and opens no tab |
| Dispatch.RulesMatchTests | sagx-ai-agent/src/app/hooks/useVoiceAssistant.js:25-55 | each rule of the table fires exactly when the corresponding `includes` test of the chain holds |
| Dispatch.FirstFiring | app.js:20-42 | the index found is a rule that fires, and no rule before it fires |
| Dispatch.FirstMatchChoosesOne | app.js:20-42 | for a table of distinct handlers, rule k's handler is chosen exactly when rule k fires and no earlier rule does, and the fallback exactly when no rule fires |
| Hook.Route | sagx-ai-agent/src/app/hooks/useVoiceAssistant.js:25-58 | the weather handler runs whenever weather or temperature is asked for, and the fallback runs exactly when no test of the chain holds; the whole order is stated by `Hook.RouteIsFirstMatch` and `Hook.RouteByKeywords` |
| Hook.RouteIsFirstMatch | sagx-ai-agent/src/app/hooks/useVoiceAssistant.js:25-58 | the hook's if/else chain is first-match over the table weather, joke, add, show, clear, dark, light, open |
| Hook.RulesDistinct | sagx-ai-agent/src/app/hooks/useVoiceAssistant.js:25-58 | the hook's chain names eight different handlers |
| Hook.RouteChoosesOne | sagx-ai-agent/src/app/hooks/useVoiceAssistant.js:25-58 | exactly one handler runs for every transcript: a rule's handler exactly when its test holds and no earlier one does, the fallback exactly when none holds |
| Hook.RouteByKeywords | sagx-ai-agent/src/app/hooks/useVoiceAssistant.js:25-55 | weather wins whatever else is said; add runs exactly when "add" and a to-do phrase are said without a weather or joke keyword; a dark-mode command that also says "open" switches the theme |
| Script.Route | app.js:20-42 | the weather handler runs whenever weather or temperature is asked for, and the fallback runs exactly when no test of the chain holds; the whole order is stated by `Script.RouteIsFirstMatch` and `Script.OpenBeforeTheme` |
| Script.RouteIsFirstMatch | app.js:20-42 | the script's chain is first-match over the table weather, joke, add, show, clear, open, dark, light |
| Script.RulesDistinct | app.js:20-42 | the script's chain names eight different handlers |
| Script.RouteChoosesOne | app.js:20-42 | exactly one handler runs for every transcript, the first in the script's order whose test holds |
| Script.OpenBeforeTheme | app.js:30-35 | once the earlier tests fail, "open" opens a site even in a theme command, and dark mode is chosen only without "open" |
| Divergence.RoutersDisagree | app.js:30-39 | the two routers disagree exactly on commands that pass no weather, joke or to-do test, say "open" and ask for a theme; the script then opens a site and the hook switches the theme |
| Divergence.AnswersDiffer | sagx-ai-agent/src/app/hooks/useVoiceAssistant.js:173-178 | the two answer handlers differ exactly when there is no abstract and no answer but a non-blank related topic; then the hook speaks the shortened topic where the script searches |
| Divergence.DirectAnswer | app.js:64 | with an abstract or a direct answer, whether topics are consulted makes no difference |
| Divergence.NoDirectAnswer | sagx-ai-agent/src/app/hooks/useVoiceAssistant.js:175-178 | without either, the script searches, and the hook speaks the first topic text unless it is blank |
| Divergence.AnswersDifferAsWritten | sagx-ai-agent/src/app/hooks/useVoiceAssistant.js:173-189 | with the shaping as written, the two answer handlers differ exactly when there is no abstract and no answer and the first topic text is not a blank of at most 120 code units; then the hook speaks the shortened topic where the script searches |
| Divergence.DirectAnswerAsWritten | app.js:64 | as written too, with an abstract or a direct answer the topics make no difference |
| Divergence.NoDirectAnswerAsWritten | sagx-ai-agent/src/app/hooks/useVoiceAssistant.js:175-189 | as written, without either the script searches, and the hook searches only for a first topic text that is blank and at most 120 code units long, and otherwise speaks it shortened |
| Divergence.BlankTopicAsWritten | sagx-ai-agent/src/app/hooks/useVoiceAssistant.js:175-189 | for a single related topic of 121 spaces, the hook as written speaks the spaces and a full stop while the script searches |
| Weather.FindIn | sagx-ai-agent/src/app/hooks/useVoiceAssistant.js:78 | the search for `/in (.+)/` finds the first position where "in " is followed by a character other than a line terminator, or reports that there is none |
| Weather.LineEnd | sagx-ai-agent/src/app/hooks/useVoiceAssistant.js:78 | the greedy `(.+)` stops at the first line terminator or at the end |
| Weather.Location | sagx-ai-agent/src/app/hooks/useVoiceAssistant.js:78-80 | with an "in " in the command, the location is the rest of that line after the first "in ", trimmed, cleared of "today" and trimmed again; without one it is "Mumbai"; either way it is trimmed and holds no whole word "today" |
| Weather.RemoveToday | sagx-ai-agent/src/app/hooks/useVoiceAssistant.js:80 | the replacement is never longer than its input and returns the input itself when no whole-word "today" occurs; `Weather.RemoveTodayDropsMatches` states exactly which characters go |
| Weather.RemoveTodayDropsMatches | sagx-ai-agent/src/app/hooks/useVoiceAssistant.js:80 | the replacement drops exactly the characters of the whole-word matches of "today" and keeps every other character, in order |
| Weather.CleanedHasNoToday | sagx-ai-agent/src/app/hooks/useVoiceAssistant.js:80 | the final trim keeps the location free of the whole word "today" |
| Weather.MumbaiKept | app.js:91-93 | the default location "Mumbai" comes through the cleaning unchanged |
| Weather.MumbaiHasNoToday | app.js:91 | "today" matches nowhere in "Mumbai" |
| Weather.RemoveTodayKeeps | app.js:93 | where "today" matches nowhere, the replacement leaves the text unchanged |
| Weather.RemoveTodayStretch | app.js:93 | a stretch where no match starts is copied unchanged |
| Weather.NoTodayAfterWord | app.js:93 | no match starts right after a word character |
| Weather.KeptWordRun | app.js:93 | a run of word characters at the head of the output that starts with a kept character comes unchanged from the input |
| Weather.NoTodayAfterScan | app.js:93 | the replacement never creates a new whole-word "today": removing one puts two non-word characters side by side |
| Weather.TodayAtHead | app.js:93 | a match at the head of the output of a kept character would have been a match in the input |
| Weather.NoTodayRemains | sagx-ai-agent/src/app/hooks/useVoiceAssistant.js:80 | after `replace(/\btoday\b/gi, '')` no whole word "today" is left |
| Weather.TodayInSurrounded | sagx-ai-agent/src/app/hooks/useVoiceAssistant.js:80 | whitespace around a text does not change where "today" is a whole word in it |
| Weather.WeatherEffects | sagx-ai-agent/src/app/hooks/useVoiceAssistant.js:77-97 | the handler requests the weather for the extracted location, then says exactly one thing: "The weather in <place> is <temperature>°C with <description>." for a report, the apology when the lookup failed; it opens no tab |
| Weather.WeatherMessage | sagx-ai-agent/src/app/hooks/useVoiceAssistant.js:91 | the report starts with "The weather in " and the place, and ends with the description and a full stop |
| Weather.PuneTodayCleaned | app.js:91-93 | "pune today", trimmed, cleared of "today" and trimmed again, is "pune" |
| Weather.LocationOfPune | sagx-ai-agent/src/app/hooks/useVoiceAssistant.js:78-80 | the location of "weather in pune today" is "pune" |
| Todo.VerbLength | app.js:112 | the length is 3 exactly when the command starts with "add" or "put" in any case, 6 exactly when it starts with "insert", and 0 exactly when it starts with none of them |
| Todo.StripLeadingVerb | app.js:112 | the command changes exactly when a verb at its head is followed by whitespace, and then the result is the command from the first non-whitespace character after the verb; otherwise it is the command itself |
| Todo.TailEndExact | app.js:113 | the search for `to[- ]?do\s*list\b` at a position ends at e exactly when the pattern, defined by its parts, matches from there to e |
| Todo.AfterOptionalMyExact | app.js:113 | the search for `\s*(my)?\s*` and the tail ends at e exactly when some gap of whitespace with an optional "my" is followed by a tail ending at e |
| Todo.PhraseEndExact | sagx-ai-agent/src/app/hooks/useVoiceAssistant.js:114 | the search for the whole list phrase at a position ends at e exactly when the pattern matches there up to e, with or without the leading "to" or "in": no match is missed and the match is unique |
| Todo.RemoveListPhraseDrops | sagx-ai-agent/src/app/hooks/useVoiceAssistant.js:114 | where the phrase matches, the global replacement drops the match whole and resumes after it |
| Todo.RemoveListPhraseKeepsOne | sagx-ai-agent/src/app/hooks/useVoiceAssistant.js:114 | where the phrase matches at no length, the character there is kept and the replacement goes on with the next one |
| Todo.RemoveListPhrase | sagx-ai-agent/src/app/hooks/useVoiceAssistant.js:114 | the replacement is never longer than its input and returns the input itself when the phrase matches at no position; `Todo.RemoveListPhraseDrops` and `Todo.RemoveListPhraseKeepsOne` state what it does at each position |
| Todo.NoPhraseKeepsAll | app.js:113 | a text in which the phrase matches at no position comes through the replacement whole |
| Todo.NoPhraseNoEnd | app.js:113 | where the phrase matches at a position at no length, the search there reports no match |
| Todo.RemoveListPhraseKeeps | app.js:113 | a stretch where the phrase matches nowhere is copied unchanged |
| Todo.CleanTask | sagx-ai-agent/src/app/hooks/useVoiceAssistant.js:112-115 | the task is the command, with the leading verb and the list phrases removed, cut free of the whitespace around it and of nothing else; it is empty exactly when only whitespace was left, and it is trimmed |
| Todo.CleanTaskBuyMilk | app.js:108-116 | "add buy milk to my todo list" yields the task "buy milk" |
| Todo.CleanTaskNothingToAdd | app.js:108-116 | "add to todo list" yields an empty task |
| Todo.AddedMessage | sagx-ai-agent/src/app/hooks/useVoiceAssistant.js:119 | the "Added" message is the task with 26 fixed characters around it |
| Todo.AddedMessageNamesTask | sagx-ai-agent/src/app/hooks/useVoiceAssistant.js:119 | two "Added" messages are equal exactly when their tasks are: the message names the task |
| Todo.ShowMessage | sagx-ai-agent/src/app/hooks/useVoiceAssistant.js:125-131 | the empty list is read back as "Your to-do list is empty.", and a single task as "Your to-do list contains: " followed by the task; `Todo.ShowMessageEnds` and `Todo.ShowAfterAppend` cover longer lists |
| Todo.ShowMessageEnds | app.js:130 | a non-empty list is read back with "Your to-do list contains: " and the first task at the start and the last task at the very end |
| Todo.ShowAfterAppend | sagx-ai-agent/src/app/hooks/useVoiceAssistant.js:125-131 | after an append the list reads back with the new task last, after the earlier tasks in their order |
| Todo.ShowTwoTasks | app.js:126-132 | two tasks added in turn read back as "Your to-do list contains: a, b" |
| Sites.FirstSite | app.js:149-157 | the index found is an entry whose name occurs in the command, and no earlier entry's name occurs |
| Sites.OpeningMessage | sagx-ai-agent/src/app/hooks/useVoiceAssistant.js:151 | the announcement is never empty: it is the site's custom message when it has one, and otherwise "Opening ", the site's name and "." |
| Sites.SiteEffects | sagx-ai-agent/src/app/hooks/useVoiceAssistant.js:138-162 | the lookup says one thing and opens exactly one tab; it announces and opens the Google search exactly when no name occurs |
| Sites.SiteChosenIff | sagx-ai-agent/src/app/hooks/useVoiceAssistant.js:148-156 | entry k is opened, with its message and address, exactly when its name occurs and no earlier name does |
| Sites.OpenWebsiteOrApp | app.js:139-163 | the `for` loop with its `found` flag and `break` does what the table lookup describes |
| Sites.NoEarlierThanCalculator | app.js:140-146 | in "open calculator" no table name before "calculator" occurs, and "calculator" does |
| Sites.OpenCalculator | sagx-ai-agent/src/app/hooks/useVoiceAssistant.js:145 | "open calculator" opens the calculator site with its custom message |
| Sites.TableOrderWins | sagx-ai-agent/src/app/hooks/useVoiceAssistant.js:149-155 | "open youtube and google" opens Google: the table's order decides, not the command's |
| Answers.JokeEffects | sagx-ai-agent/src/app/hooks/useVoiceAssistant.js:99-109 | the joke handler requests a joke, then speaks the joke, the stand-in when there is none, or the apology when the request failed; it always says one non-empty thing |
| Answers.FirstNonEmpty | sagx-ai-agent/src/app/hooks/useVoiceAssistant.js:176-177 | the topic found is empty exactly when every topic text is, and otherwise it is the first non-empty one |
| Answers.ChooseReply | sagx-ai-agent/src/app/hooks/useVoiceAssistant.js:173-178 | the abstract wins, then the answer, then (when topics are consulted) the first topic; the reply is empty exactly when all consulted sources are |
| Answers.Truncate | sagx-ai-agent/src/app/hooks/useVoiceAssistant.js:180-182 | a reply of at most 120 code units is unchanged; a longer one becomes its text before the first ". " plus ".", or the whole text plus "." when it has no ". " |
| Answers.ShapeAsWritten | sagx-ai-agent/src/app/hooks/useVoiceAssistant.js:180-189 | as written, the search runs exactly for blank replies of at most 120 code units; everything else is spoken shortened |
| Answers.Shape | app.js:71-76 | the search runs exactly for blank replies, whatever their length; other replies are spoken shortened and are never blank |
| Answers.ShapesDiffer | app.js:67-76 | the written and the intended shaping part exactly on blank replies longer than 120 code units |
| Answers.BlankLongReplySpoken | app.js:67-76 | as written, a blank reply longer than 120 is spoken with a full stop instead of starting the search |
| Answers.SpacesSpoken | sagx-ai-agent/src/app/hooks/useVoiceAssistant.js:180-189 | 121 spaces are such a reply |
| Answers.ReplyEffects | app.js:71-76 | a blank reply leads to the announced search on the question, any other reply is spoken shortened; one thing is said |
| Answers.AnswerEffects | app.js:53-81 | the handler requests the answer, then apologises when the request failed, or shapes the chosen reply |
| Answers.ReplyEffectsAsWritten | sagx-ai-agent/src/app/hooks/useVoiceAssistant.js:180-189 | as written, the search is announced and opened exactly for a blank reply of at most 120 code units, and any other reply is spoken shortened; it parts from the intended effects exactly on blank replies longer than that |
| Answers.AnswerEffectsAsWritten | app.js:53-81 | as written, the handler requests the answer, then apologises when the request failed, or gives the written effects of the chosen reply; it parts from the intended handler exactly when that reply is blank and longer than 120 code units |
| Handlers.AddedTask | sagx-ai-agent/src/app/hooks/useVoiceAssistant.js:117 | a task is stored exactly when the cleaned text is non-empty, and it is that text, trimmed and not blank |
| Handlers.AddEffects | sagx-ai-agent/src/app/hooks/useVoiceAssistant.js:117-122 | the add handler speaks the "Added" message for a task, or the "couldn't understand" message when there is none |
| Handlers.HandlerEffects | sagx-ai-agent/src/app/hooks/useVoiceAssistant.js:25-58 | whatever handler runs, it says exactly one thing and opens at most one tab |
| Handlers.ListAfter | sagx-ai-agent/src/app/hooks/useVoiceAssistant.js:117-136 | every handler except clear keeps the list it found as a prefix and adds at most one entry, and only add and clear can change the list |
| Handlers.ListAfterCases | app.js:118-123 | a successful add grows the list by exactly the task at the end with earlier entries unchanged; clear empties it; everything else leaves it alone |
| Handlers.HandlerSaysOne | sagx-ai-agent/src/app/hooks/useVoiceAssistant.js:25-58 | every handler says exactly one thing and opens at most one tab; only the site lookup and the answer handler open one, and the site lookup always does |
| Handlers.ShowAfterClear | app.js:126-137 | clearing and then reading the list back says the list is empty, whatever it held |
| Handlers.ShowAfterAdd | sagx-ai-agent/src/app/hooks/useVoiceAssistant.js:117-131 | adding a task and reading the list back names the task last, after the earlier tasks |
| Handlers.AddAppends | app.js:119 | a successful add appends the cleaned task |
| Hook.VoiceAssistant.constructor | sagx-ai-agent/src/app/hooks/useVoiceAssistant.js:6-7 | the display shows "Click the mic and speak...", the list is empty, and neither theme class is set |
| Hook.VoiceAssistant.OnStart | sagx-ai-agent/src/app/hooks/useVoiceAssistant.js:17-19 | the display shows "Listening..." and nothing else changes |
| Hook.VoiceAssistant.Speak | sagx-ai-agent/src/app/hooks/useVoiceAssistant.js:70-75 | the text is said and displayed; list and theme are unchanged |
| Hook.VoiceAssistant.GetWeather | sagx-ai-agent/src/app/hooks/useVoiceAssistant.js:77-97 | the effects are the weather handler's, and what is said is displayed |
| Hook.VoiceAssistant.TellJoke | sagx-ai-agent/src/app/hooks/useVoiceAssistant.js:99-109 | the effects are the joke handler's for the hook's joke address, and what is said is displayed |
| Hook.VoiceAssistant.OpenWebsite | sagx-ai-agent/src/app/hooks/useVoiceAssistant.js:138-162 | the effects are the site lookup's, and its message is displayed |
| Hook.VoiceAssistant.GetAIResponse | sagx-ai-agent/src/app/hooks/useVoiceAssistant.js:164-194 | the effects are the answer handler's with related topics consulted, and what is said is displayed |
| Hook.VoiceAssistant.AddToTodoList | sagx-ai-agent/src/app/hooks/useVoiceAssistant.js:111-123 | the list becomes the list after an add, the add message is said and displayed, and the theme is unchanged |
| Hook.VoiceAssistant.ShowTodoList | sagx-ai-agent/src/app/hooks/useVoiceAssistant.js:125-131 | the show message for the current list is said and displayed; nothing else changes |
| Hook.VoiceAssistant.ClearTodoList | sagx-ai-agent/src/app/hooks/useVoiceAssistant.js:133-136 | the list is empty and the cleared message is said and displayed |
| Hook.VoiceAssistant.ActivateDark | sagx-ai-agent/src/app/hooks/useVoiceAssistant.js:46-49 | the dark class is set, the light class removed, and "Dark mode activated." said and displayed |
| Hook.VoiceAssistant.ActivateLight | sagx-ai-agent/src/app/hooks/useVoiceAssistant.js:50-53 | the light class is set, the dark class removed, and "Light mode activated." said and displayed |
| Hook.VoiceAssistant.Handle | sagx-ai-agent/src/app/hooks/useVoiceAssistant.js:25-58 | the chosen handler's effects and list are as the handler functions state; the theme changes only for the theme handlers; one thing is said and displayed |
| Hook.VoiceAssistant.OnResult | sagx-ai-agent/src/app/hooks/useVoiceAssistant.js:21-59 | the lower-cased transcript is routed by the hook's chain, the effects and the list are the routed handler's, the two theme classes are never both set, one thing is said and displayed, and at most one tab is opened |
| Script.Assistant.constructor | app.js:2-9 | the content element keeps its own text, the list is empty, and no theme class is set |
| Script.Assistant.OnStart | app.js:11-13 | the content shows "Listening..." and nothing else changes |
| Script.Assistant.GetWeather | app.js:89-106 | the effects are the weather handler's with the script's apology |
| Script.Assistant.TellJoke | app.js:164-174 | the effects are the joke handler's for the script's joke address |
| Script.Assistant.GetAIResponse | app.js:53-81 | the effects are the answer handler's without related topics |
| Script.Assistant.AddToTodoList | app.js:108-124 | the task, cleaned one step at a time, is pushed exactly when non-empty; the add message is said; the content and theme are unchanged |
| Script.Assistant.ShowTodoList | app.js:126-132 | the show message for the current list is said |
| Script.Assistant.ClearTodoList | app.js:134-137 | the list is empty and the cleared message is said |
| Script.Assistant.ActivateDark | app.js:32-35 | the dark class is set, the light class removed, and "Dark mode activated." said |
| Script.Assistant.ActivateLight | app.js:36-39 | the light class is set, the dark class removed, and "Light mode activated." said |
| Script.Assistant.Handle | app.js:20-42 | the chosen handler's effects and list are as the handler functions state; the theme changes only for the theme handlers; the content is left alone |
| Script.Assistant.OnResult | app.js:15-43 | the lower-cased transcript is routed by the script's chain, the effects and the list are the routed handler's, the content keeps "You said: " and the transcript, one thing is said and at most one tab opened |
| Script.ClearThenShow | app.js:126-137 | clearing and then showing the list says "Your to-do list is empty." and leaves the list empty |

## Left out

- Speech recognition and synthesis: `recognition.start`, `SpeechSynthesisUtterance` and `speechSynthesis.cancel` are browser I/O. An utterance is a `Say` effect.
- The three `fetch` calls: these are network I/O. A request is an effect, and the parsed response (or its failure) is a parameter of `OnResult`. For the weather and the answer, every thrown error (a network failure, a non-ok status, unparsable JSON) is one `…Failed` value. The joke request has no status test: an error status with a JSON body is `JokeData("")`, which gives the "couldn't find a good joke" stand-in, and only a network failure or unparsable body is `JokeFailed`.
- Weather message: the temperature is kept as the text it prints as. Number formatting is not modelled.
- `encodeURIComponent` and the URL templates: the Google search is a `SearchGoogle(query)` effect holding the unencoded query. The weather request holds the location.
- The weather service key: neither the hook's environment variable nor the script's empty key is modelled. The weather response is a free parameter in both copies, so the model also admits a report for the script, whose empty key the service would in practice reject.
- The page theme: `document.body.classList` is two booleans, one per class. The body is taken to start with neither class; other classes on the body, and any the page's markup sets, are not modelled.
- Which recognition result is read: `OnResult` of both classes takes the transcript itself, so the hook's `event.results[0]` and the script's `event.results[event.resultIndex]` are not modelled.
- React specifics of the hook: `useState` batching, the `setTodoList` updater, `recognition` being recreated on every render, and `showTodoList` reading a possibly stale `todoList`. The list is the state the latest render saw.
- Ordering of async updates: the "You said: …" text is shown before a handler's reply. The model takes the handler as finishing before the next transcript arrives.
- `handleClick`, the script's click listener and the "Speech recognition not supported." message: these concern starting the recogniser, not the command logic.
- `AssistantUI.jsx` and `page.jsx`: these are markup and animation.
- Unicode case mapping: lower-casing is ASCII only. Whitespace for `\s` and `trim` is the ECMAScript set.
- Regular expressions: each is written out as a string function. No general regex engine is modelled.
- Hook.VoiceAssistant.GetAIResponse: tests for a blank reply before shortening it, as `Answers.Shape` does, rather than after as the hook's code does. The code's order is `Answers.ShapeAsWritten`; see Findings.
- Script.Assistant.GetAIResponse: tests for a blank reply before shortening it, as `Answers.Shape` does, rather than after as the script's code does. The code's order is `Answers.ShapeAsWritten`; see Findings.
- Answers.ReplyEffects: uses the corrected `Answers.Shape`, so a blank reply longer than 120 code units leads to the search; the code's effects are `Answers.ReplyEffectsAsWritten`.
- Answers.AnswerEffects: uses `Answers.ReplyEffects`, the corrected shaping; the code's effects are `Answers.AnswerEffectsAsWritten`, which differ only for a chosen reply that is blank and longer than 120 code units.
- Divergence.AnswersDiffer: compares the corrected handlers, where a blank topic text of any length leads to the search; the comparison as written is `Divergence.AnswersDifferAsWritten`.
- Divergence.NoDirectAnswer: states the corrected handlers; as written, see `Divergence.NoDirectAnswerAsWritten`.
- Hook.VoiceAssistant.Handle: the fallback runs the corrected shaping (`Answers.AnswerEffects`), not the code's (`Answers.AnswerEffectsAsWritten`).
- Hook.VoiceAssistant.OnResult: the fallback runs the corrected shaping, as `Hook.VoiceAssistant.Handle` does.
- Script.Assistant.Handle: the fallback runs the corrected shaping (`Answers.AnswerEffects`), not the code's (`Answers.AnswerEffectsAsWritten`).
- Script.Assistant.OnResult: the fallback runs the corrected shaping, as `Script.Assistant.Handle` does.

## Findings

| source | as written | input that shows it | evidently intended | confidence | as-written member | corrected member |
|---|---|---|---|---|---|---|
| sagx-ai-agent/src/app/hooks/useVoiceAssistant.js:180-186 | a reply longer than 120 code units is shortened first and only then tested for being blank; a blank reply always gains a final ".", so it passes the test and is spoken (app.js:67-71 does the same) | a reply of 121 spaces: it is spoken as 121 spaces and "." | an empty or whitespace-only reply leads to the Google search, whatever its length | low, not executed | Answers.ShapeAsWritten, Answers.BlankLongReplySpoken, Answers.AnswerEffectsAsWritten, Divergence.BlankTopicAsWritten | Answers.Shape |
