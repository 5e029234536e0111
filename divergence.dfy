/** Where the hook and the script part ways: the order of their routers
    and whether the answer handler consults the related topics. */
module Divergence {
  import opened Text
  import opened Effects
  import opened Dispatch
  import opened Answers
  import Hook
  import Script

  /** The two routers disagree exactly on commands that pass none of the
      weather, joke and to-do tests, say "open" and ask for a theme. The
      script then opens a site where the hook switches the theme. */
  lemma RoutersDisagree(t: string)
    ensures Hook.Route(t) != Script.Route(t) <==>
      !AsksWeather(t) && !AsksJoke(t) && !AsksAdd(t) && !AsksShow(t) && !AsksClear(t) &&
      AsksOpen(t) && (AsksDark(t) || AsksLight(t))
    ensures Hook.Route(t) != Script.Route(t) ==>
      Script.Route(t) == OpenSite && (Hook.Route(t) == DarkMode || Hook.Route(t) == LightMode)
  {
  }

  /** The answer handlers differ only when the response has neither an
      abstract nor a direct answer but a related topic whose text is not
      blank: the hook speaks that topic where the script searches. */
  lemma {:induction false} AnswersDiffer(query: string, response: AnswerResponse)
    ensures (AnswerEffects(query, response, Hook.CONFIG.withTopics) !=
      AnswerEffects(query, response, Script.CONFIG.withTopics)) <==>
      (response.AnswerData? && response.abstractText == [] && response.answer == [] &&
      !AllSpace(FirstNonEmpty(response.relatedTopics)))
    ensures (AnswerEffects(query, response, Hook.CONFIG.withTopics) !=
      AnswerEffects(query, response, Script.CONFIG.withTopics)) ==>
      AnswerEffects(query, response, Hook.CONFIG.withTopics) ==
        [FetchAnswer(query), Say(Truncate(FirstNonEmpty(response.relatedTopics)))] &&
      AnswerEffects(query, response, Script.CONFIG.withTopics) ==
        [FetchAnswer(query), Say(SEARCHING), SearchGoogle(query)]
  {
    assert Hook.CONFIG.withTopics && !Script.CONFIG.withTopics;
    match response
    case AnswerFailed =>
    case AnswerData(abstractText, answer, topics) =>
      if abstractText != [] || answer != [] {
        DirectAnswer(query, abstractText, answer, topics);
      } else {
        NoDirectAnswer(query, topics);
      }
  }

  /** With an abstract or a direct answer, the topics are never consulted. */
  lemma DirectAnswer(query: string, abstractText: string, answer: string, topics: seq<string>)
    requires abstractText != [] || answer != []
    ensures AnswerEffects(query, AnswerData(abstractText, answer, topics), true) ==
      AnswerEffects(query, AnswerData(abstractText, answer, topics), false)
  {
  }

  /** Without either, the script always searches, and the hook speaks the
      first topic with a text unless that text is blank. */
  lemma NoDirectAnswer(query: string, topics: seq<string>)
    ensures AnswerEffects(query, AnswerData([], [], topics), false) ==
      [FetchAnswer(query), Say(SEARCHING), SearchGoogle(query)]
    ensures AllSpace(FirstNonEmpty(topics)) ==>
      AnswerEffects(query, AnswerData([], [], topics), true) ==
        [FetchAnswer(query), Say(SEARCHING), SearchGoogle(query)]
    ensures !AllSpace(FirstNonEmpty(topics)) ==>
      AnswerEffects(query, AnswerData([], [], topics), true) ==
        [FetchAnswer(query), Say(Truncate(FirstNonEmpty(topics)))]
  {
    assert AllSpace([]);
  }

  /** With the shaping as the source writes it, the answer handlers differ
      exactly when the response has neither an abstract nor a direct answer
      and the first related topic with a text is not a blank of at most 120
      code units: the hook speaks that topic, shortened, where the script
      searches. */
  lemma {:induction false} AnswersDifferAsWritten(query: string, response: AnswerResponse)
    ensures (AnswerEffectsAsWritten(query, response, Hook.CONFIG.withTopics) !=
      AnswerEffectsAsWritten(query, response, Script.CONFIG.withTopics)) <==>
      (response.AnswerData? && response.abstractText == [] && response.answer == [] &&
      var x := FirstNonEmpty(response.relatedTopics);
      !(AllSpace(x) && Utf16Length(x) <= REPLY_LIMIT))
    ensures (AnswerEffectsAsWritten(query, response, Hook.CONFIG.withTopics) !=
      AnswerEffectsAsWritten(query, response, Script.CONFIG.withTopics)) ==>
      AnswerEffectsAsWritten(query, response, Hook.CONFIG.withTopics) ==
        [FetchAnswer(query), Say(Truncate(FirstNonEmpty(response.relatedTopics)))] &&
      AnswerEffectsAsWritten(query, response, Script.CONFIG.withTopics) ==
        [FetchAnswer(query), Say(SEARCHING), SearchGoogle(query)]
  {
    assert Hook.CONFIG.withTopics && !Script.CONFIG.withTopics;
    match response
    case AnswerFailed =>
    case AnswerData(abstractText, answer, topics) =>
      if abstractText != [] || answer != [] {
        DirectAnswerAsWritten(query, abstractText, answer, topics);
      } else {
        NoDirectAnswerAsWritten(query, topics);
      }
  }

  /** As the source writes it too, the topics are never consulted when there
      is an abstract or a direct answer. */
  lemma DirectAnswerAsWritten(query: string, abstractText: string, answer: string, topics: seq<string>)
    requires abstractText != [] || answer != []
    ensures AnswerEffectsAsWritten(query, AnswerData(abstractText, answer, topics), true) ==
      AnswerEffectsAsWritten(query, AnswerData(abstractText, answer, topics), false)
  {
  }

  /** As the source writes it, without either the script always searches,
      and the hook searches only when the first topic with a text is blank
      and at most 120 code units long. */
  lemma NoDirectAnswerAsWritten(query: string, topics: seq<string>)
    ensures AnswerEffectsAsWritten(query, AnswerData([], [], topics), false) ==
      [FetchAnswer(query), Say(SEARCHING), SearchGoogle(query)]
    ensures var x := FirstNonEmpty(topics); AllSpace(x) && Utf16Length(x) <= REPLY_LIMIT ==>
      AnswerEffectsAsWritten(query, AnswerData([], [], topics), true) ==
        [FetchAnswer(query), Say(SEARCHING), SearchGoogle(query)]
    ensures var x := FirstNonEmpty(topics); !(AllSpace(x) && Utf16Length(x) <= REPLY_LIMIT) ==>
      AnswerEffectsAsWritten(query, AnswerData([], [], topics), true) ==
        [FetchAnswer(query), Say(Truncate(x))]
  {
    assert AllSpace([]) && Utf16Length([]) == 0;
    assert ChooseReply([], [], topics, false) == [];
    assert ChooseReply([], [], topics, true) == FirstNonEmpty(topics);
  }

  /** A response whose only text is a related topic of 121 spaces: as the
      source writes it, the hook speaks the spaces and a full stop, and the
      script searches. */
  lemma BlankTopicAsWritten(query: string)
    ensures var topic := seq(121, i => ' ');
      AnswerEffectsAsWritten(query, AnswerData([], [], [topic]), Hook.CONFIG.withTopics) ==
        [FetchAnswer(query), Say(topic + ".")] &&
      AnswerEffectsAsWritten(query, AnswerData([], [], [topic]), Script.CONFIG.withTopics) ==
        [FetchAnswer(query), Say(SEARCHING), SearchGoogle(query)]
  {
    var topic := seq(121, i => ' ');
    SpacesSpoken();
    assert FirstNonEmpty([topic]) == topic;
    assert ChooseReply([], [], [topic], true) == topic;
    AnswersDifferAsWritten(query, AnswerData([], [], [topic]));
  }
}
