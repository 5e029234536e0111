/** The joke handler and the fallback answer handler: how the reply to an
    unrecognised question is chosen from the DuckDuckGo answer, shortened
    and either spoken or replaced by a Google search. */
module Answers {
  import opened Text
  import opened Effects

  const REPLY_LIMIT := 120
  const SENTENCE_END := ". "
  const SEARCHING := "I couldn't find the answer, but I am searching it on Google for you."
  const TROUBLE := "Sorry, I am having trouble responding right now."
  const NO_JOKE := "Sorry, I couldn't find a good joke right now."
  const JOKE_FAILED := "Oops, I can't tell a joke right now."

  /** `tellJoke`: ask the joke service at url, then speak the joke, a
      stand-in when the answer holds none, or an apology when the request
      failed. Something non-empty is always said. */
  function JokeEffects(url: string, response: JokeResponse): (effects: seq<Effect>)
    ensures |effects| == 2 && effects[0] == FetchJoke(url)
    ensures |Spoken(effects)| == 1 && Spoken(effects)[0] != [] && TabsOpened(effects) == 0
    ensures response.JokeData? && response.joke != [] ==> Spoken(effects) == [response.joke]
    ensures response.JokeData? && response.joke == [] ==> Spoken(effects) == [NO_JOKE]
    ensures response.JokeFailed? ==> Spoken(effects) == [JOKE_FAILED]
  {
    var text := match response
      case JokeData(joke) => if joke != [] then joke else NO_JOKE
      case JokeFailed => JOKE_FAILED;
    [FetchJoke(url), Say(text)]
  }

  /** `topics.find((t) => t.Text)`: the first related topic with a
      non-empty text, or "" when there is none. */
  function FirstNonEmpty(topics: seq<string>): (r: string)
    ensures r == [] <==> forall i :: 0 <= i < |topics| ==> topics[i] == []
    ensures r != [] ==> exists i :: (0 <= i < |topics| && topics[i] == r &&
      forall j :: 0 <= j < i ==> topics[j] == [])
  {
    if topics == [] then []
    else if topics[0] != [] then topics[0]
    else
      var r := FirstNonEmpty(topics[1..]);
      assert r != [] ==> exists i :: (0 <= i < |topics| && topics[i] == r &&
        forall j :: 0 <= j < i ==> topics[j] == []) by {
        if r != [] {
          var i :| 0 <= i < |topics[1..]| && topics[1..][i] == r &&
            forall j :: 0 <= j < i ==> topics[1..][j] == [];
          assert topics[i + 1] == r;
          forall j | 0 <= j < i + 1 ensures topics[j] == [] {
            if j > 0 {
              assert topics[j] == topics[1..][j - 1];
            }
          }
        }
      }
      r
  }

  /** `AbstractText || Answer || ''`, followed, when the related topics
      are consulted, by the first related topic with a text. */
  function ChooseReply(abstractText: string, answer: string, topics: seq<string>, withTopics: bool): (reply: string)
    ensures abstractText != [] ==> reply == abstractText
    ensures abstractText == [] && answer != [] ==> reply == answer
    ensures abstractText == [] && answer == [] && !withTopics ==> reply == []
    ensures abstractText == [] && answer == [] && withTopics ==> reply == FirstNonEmpty(topics)
    ensures reply == [] <==> (abstractText == [] && answer == [] &&
      (!withTopics || forall i :: 0 <= i < |topics| ==> topics[i] == []))
  {
    var direct := if abstractText != [] then abstractText else answer;
    if direct == [] && withTopics then FirstNonEmpty(topics) else direct
  }

  /** The shortening of a reply longer than 120 UTF-16 code units: the
      text before its first ". ", and a full stop. A reply without ". "
      keeps all its text, so the result need not be short. */
  function Truncate(reply: string): (r: string)
    ensures Utf16Length(reply) <= REPLY_LIMIT ==> r == reply
    ensures Utf16Length(reply) > REPLY_LIMIT ==>
      |r| >= 1 && r[|r| - 1] == '.' && |r| - 1 <= |reply| && r[..|r| - 1] == reply[..|r| - 1] &&
      !Contains(r[..|r| - 1], SENTENCE_END) &&
      (|r| - 1 == |reply| || OccursAt(reply, SENTENCE_END, |r| - 1))
    ensures Utf16Length(reply) > REPLY_LIMIT && !Contains(reply, SENTENCE_END) ==> r == reply + "."
  {
    if Utf16Length(reply) > REPLY_LIMIT then
      var first := FirstSegment(reply, SENTENCE_END);
      var r := first + ".";
      assert r[..|r| - 1] == first;
      r
    else reply
  }

  /** What the handler does with the reply it chose. */
  datatype Outcome = SpeakReply(text: string) | SearchInstead

  /** `getAIResponse` as written: the reply is shortened first, and only
      then tested for being blank. A long reply is never blank once
      shortened, since it ends in a full stop. */
  function ShapeAsWritten(reply: string): (o: Outcome)
    ensures o.SearchInstead? <==> AllSpace(reply) && Utf16Length(reply) <= REPLY_LIMIT
    ensures o.SpeakReply? ==> o.text == Truncate(reply)
  {
    var r := Truncate(reply);
    assert Utf16Length(reply) > REPLY_LIMIT ==> !AllSpace(r) by {
      if Utf16Length(reply) > REPLY_LIMIT {
        assert r[|r| - 1] == '.';
      }
    }
    if Trim(r) == [] then SearchInstead else SpeakReply(r)
  }

  /** The intended shaping: a blank reply leads to the search whatever its
      length, and any other reply is spoken, shortened. */
  function Shape(reply: string): (o: Outcome)
    ensures o.SearchInstead? <==> AllSpace(reply)
    ensures o.SpeakReply? ==> o.text == Truncate(reply) && !AllSpace(o.text)
  {
    if Trim(reply) == [] then SearchInstead
    else
      var r := Truncate(reply);
      assert !AllSpace(r) by {
        if Utf16Length(reply) > REPLY_LIMIT {
          assert r[|r| - 1] == '.';
        } else {
          assert r == reply;
        }
      }
      SpeakReply(r)
  }

  /** The two shapings part exactly on the blank replies longer than the limit. */
  lemma ShapesDiffer(reply: string)
    ensures ShapeAsWritten(reply) != Shape(reply) <==> AllSpace(reply) && Utf16Length(reply) > REPLY_LIMIT
  {
  }

  /** Any blank reply longer than the limit: the handler as written speaks
      it with a full stop appended where the search was meant. */
  lemma BlankLongReplySpoken(reply: string)
    requires AllSpace(reply) && |reply| > REPLY_LIMIT
    ensures ShapeAsWritten(reply) == SpeakReply(reply + ".") && Shape(reply) == SearchInstead
  {
    assert reply[0] != '.';
    MissingChar(reply, SENTENCE_END, 0);
  }

  /** 121 spaces are such a reply. */
  lemma SpacesSpoken()
    ensures var reply := seq(121, i => ' ');
      ShapeAsWritten(reply) == SpeakReply(reply + ".") && Shape(reply) == SearchInstead
  {
    var reply := seq(121, i => ' ');
    assert AllSpace(reply);
    BlankLongReplySpoken(reply);
  }

  /** The answer handler's effects for a reply: the shaped reply spoken, or
      the search announced and opened on the question. */
  function ReplyEffects(query: string, reply: string): (effects: seq<Effect>)
    ensures |Spoken(effects)| == 1 && TabsOpened(effects) <= 1
    ensures AllSpace(reply) <==> effects == [Say(SEARCHING), SearchGoogle(query)]
    ensures !AllSpace(reply) ==> effects == [Say(Truncate(reply))]
  {
    match Shape(reply)
    case SearchInstead => [Say(SEARCHING), SearchGoogle(query)]
    case SpeakReply(text) => [Say(text)]
  }

  /** `getAIResponse`: ask DuckDuckGo about the question, then answer from
      the response, or apologise when the request failed. */
  function AnswerEffects(query: string, response: AnswerResponse, withTopics: bool): (effects: seq<Effect>)
    ensures |effects| >= 2 && effects[0] == FetchAnswer(query)
    ensures |Spoken(effects)| == 1 && TabsOpened(effects) <= 1
    ensures response.AnswerFailed? ==> effects == [FetchAnswer(query), Say(TROUBLE)]
    ensures response.AnswerData? ==> effects == [FetchAnswer(query)] + ReplyEffects(query,
      ChooseReply(response.abstractText, response.answer, response.relatedTopics, withTopics))
  {
    var rest := match response
      case AnswerFailed => [Say(TROUBLE)]
      case AnswerData(abstractText, answer, topics) =>
        ReplyEffects(query, ChooseReply(abstractText, answer, topics, withTopics));
    SpokenAppend([FetchAnswer(query)], rest);
    TabsAppend([FetchAnswer(query)], rest);
    [FetchAnswer(query)] + rest
  }

  /** Effects behind the same first one are equal exactly when the rest are. */
  lemma SamePrefix(first: Effect, a: seq<Effect>, b: seq<Effect>)
    ensures [first] + a == [first] + b <==> a == b
  {
    if [first] + a == [first] + b {
      assert ([first] + a)[1..] == a && ([first] + b)[1..] == b;
    }
  }

  /** The answer handler's effects for a reply as the source writes it: a
      blank reply longer than the limit is spoken, shortened, instead of
      leading to the search. Elsewhere it agrees with `ReplyEffects`. */
  function ReplyEffectsAsWritten(query: string, reply: string): (effects: seq<Effect>)
    ensures |Spoken(effects)| == 1 && TabsOpened(effects) <= 1
    ensures (AllSpace(reply) && Utf16Length(reply) <= REPLY_LIMIT) <==>
      effects == [Say(SEARCHING), SearchGoogle(query)]
    ensures !(AllSpace(reply) && Utf16Length(reply) <= REPLY_LIMIT) ==> effects == [Say(Truncate(reply))]
    ensures effects != ReplyEffects(query, reply) <==> AllSpace(reply) && Utf16Length(reply) > REPLY_LIMIT
  {
    match ShapeAsWritten(reply)
    case SearchInstead => [Say(SEARCHING), SearchGoogle(query)]
    case SpeakReply(text) => [Say(text)]
  }

  /** `getAIResponse` as the source writes it, with `ReplyEffectsAsWritten`;
      it parts from `AnswerEffects` only where the chosen reply is blank and
      longer than the limit. */
  function AnswerEffectsAsWritten(query: string, response: AnswerResponse, withTopics: bool): (effects: seq<Effect>)
    ensures |effects| >= 2 && effects[0] == FetchAnswer(query)
    ensures |Spoken(effects)| == 1 && TabsOpened(effects) <= 1
    ensures response.AnswerFailed? ==> effects == [FetchAnswer(query), Say(TROUBLE)]
    ensures response.AnswerData? ==> effects == [FetchAnswer(query)] + ReplyEffectsAsWritten(query,
      ChooseReply(response.abstractText, response.answer, response.relatedTopics, withTopics))
    ensures effects != AnswerEffects(query, response, withTopics) <==> (response.AnswerData? &&
      var reply := ChooseReply(response.abstractText, response.answer, response.relatedTopics, withTopics);
      AllSpace(reply) && Utf16Length(reply) > REPLY_LIMIT)
  {
    var rest := match response
      case AnswerFailed => [Say(TROUBLE)]
      case AnswerData(abstractText, answer, topics) =>
        ReplyEffectsAsWritten(query, ChooseReply(abstractText, answer, topics, withTopics));
    SpokenAppend([FetchAnswer(query)], rest);
    TabsAppend([FetchAnswer(query)], rest);
    var intended := match response
      case AnswerFailed => [Say(TROUBLE)]
      case AnswerData(abstractText, answer, topics) =>
        ReplyEffects(query, ChooseReply(abstractText, answer, topics, withTopics));
    assert AnswerEffects(query, response, withTopics) == [FetchAnswer(query)] + intended;
    SamePrefix(FetchAnswer(query), rest, intended);
    [FetchAnswer(query)] + rest
  }
}
