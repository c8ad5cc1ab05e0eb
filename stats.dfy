/**
 * `ChatStatistics`: the loaded transcript with its stop words and
 * collaborators, and the operations that walk it.
 */
module Stats {
  import opened Wrappers
  import opened Transcript
  import opened Rebuild
  import opened Questions
  import opened Counter
  import opened Ranking
  import opened Responders
  import opened Corpus

  const DEFAULT_TOP_N: int := 10

  class ChatStatistics {
    /** `chat_data['messages']`. */
    const messages: seq<Message>
    /** The normalised stop words. */
    const stopWords: set<string>
    const tools: Toolkit

    /** The state `__init__` leaves after loading the transcript and the stop words. */
    constructor (messages: seq<Message>, stopWords: set<string>, tools: Toolkit)
      ensures this.messages == messages && this.stopWords == stopWords && this.tools == tools
    {
      this.messages, this.stopWords, this.tools := messages, stopWords, tools;
    }

    /** `rebuild_msg`: concatenates the fragments' pieces in order. */
    static method RebuildMsg(subMessages: seq<Fragment>) returns (msgText: string)
      ensures msgText == Flatten(subMessages)
    {
      msgText := "";
      var i := 0;
      while i < |subMessages|
        invariant 0 <= i <= |subMessages|
        invariant msgText == Flatten(subMessages[..i])
      {
        var subMsg := subMessages[i];
        if subMsg.Bare? {
          msgText := msgText + subMsg.s;
        } else if subMsg.text.Some? {
          msgText := msgText + subMsg.text.value;
        }
        assert subMessages[..i + 1][..i] == subMessages[..i];
        i := i + 1;
      }
      assert subMessages[..i] == subMessages;
    }

    /** `msg_has_question`: rebuilds and caches the message's text, then
        reports whether one of its sentences carries a question mark
        (`found` stands for `True`, its negation for the falsy `None`). */
    method MsgHasQuestion(msg: Message) returns (found: bool)
      modifies msg
      ensures msg.text == Plain(Content(old(msg.text)))
      ensures found <==> HasQuestion(tools.sentTokenize, Content(old(msg.text)))
    {
      if !msg.text.Plain? {
        var rebuilt := RebuildMsg(msg.text.parts);
        msg.text := Plain(rebuilt);
      }
      var sentences := tools.sentTokenize(msg.text.s);
      var k := 0;
      while k < |sentences|
        invariant 0 <= k <= |sentences|
        invariant forall j | 0 <= j < k :: !HasMarker(sentences[j])
      {
        var sent := sentences[k];
        if ARABIC_QUESTION_MARK !in sent && QUESTION_MARK !in sent {
          k := k + 1;
          continue;
        }
        return true;
      }
      return false;
    }

    /** `get_top_users`: rewrites every message's text as a string, flags
        the question-bearing ids, collects one vote per reply to a flagged
        id and ranks the voters. */
    method GetTopUsers(topN: int := DEFAULT_TOP_N) returns (topUsers: seq<Entry>)
      modifies messages
      ensures Views(messages) == FlattenAll(old(Views(messages)))
      ensures topUsers == TopUsers(old(Views(messages)), tools.sentTokenize, topN)
    {
      ghost var before := Snapshot(messages);
      var isQuestion := FlagQuestions(before);
      ViewsFlattened(messages, before);
      assert old(Views(messages)) == before;
      var users := CollectResponders(isQuestion);
      ghost var flaggedIds := QuestionIds(before, tools.sentTokenize);
      assert (set id | id in isQuestion && isQuestion[id]) == flaggedIds by {
        forall id | id in isQuestion ensures isQuestion[id] {
        }
      }
      VotersFlattenAll(before, flaggedIds);
      topUsers := MostCommon(Tally(users), topN);
    }

    /** The first pass of `get_top_users`: every message's text is rebuilt
        in place, and `isQuestion` (a `defaultdict(bool)`) holds `true`
        exactly for the ids of the question-bearing messages. `before` is
        the transcript's value on entry. */
    method FlagQuestions(ghost before: seq<Msg>) returns (isQuestion: map<int, bool>)
      requires |before| == |messages|
      requires forall j | 0 <= j < |messages| :: before[j] == messages[j].View()
      modifies messages
      ensures forall j | 0 <= j < |messages| :: messages[j].text == Plain(Content(before[j].text))
      ensures forall id | id in isQuestion :: isQuestion[id]
      ensures isQuestion.Keys == QuestionIds(before, tools.sentTokenize)
    {
      isQuestion := map[];
      ghost var visited: set<Message> := {};
      var i := 0;
      while i < |messages|
        invariant 0 <= i <= |messages|
        invariant forall j | 0 <= j < |messages| ::
          messages[j].text == if messages[j] in visited then Plain(Content(before[j].text)) else before[j].text
        invariant forall j | 0 <= j < i :: messages[j] in visited
        invariant isQuestion == FlagMap(before, tools.sentTokenize, i)
      {
        var msg := messages[i];
        assert Content(msg.text) == Content(before[i].text);
        var flagged := MsgHasQuestion(msg);
        visited := visited + {msg};
        if flagged {
          isQuestion := isQuestion[msg.id := true];
        }
        i := i + 1;
      }
      FlagMapMeaning(before, tools.sentTokenize);
    }

    /** The second pass of `get_top_users`: the author of every message
        whose truthy `reply_to_message_id` is flagged in `isQuestion`. */
    method CollectResponders(isQuestion: map<int, bool>) returns (users: seq<string>)
      ensures users == Voters(Views(messages), set id | id in isQuestion && isQuestion[id])
    {
      ghost var now := Views(messages);
      ghost var flaggedIds := set id | id in isQuestion && isQuestion[id];
      users := [];
      var i := 0;
      while i < |messages|
        invariant 0 <= i <= |messages|
        invariant users == Voters(now[..i], flaggedIds)
      {
        var msg := messages[i];
        assert now[..i + 1][..i] == now[..i];
        if !RepliesTo(msg.reply) {
          i := i + 1;
          continue;
        }
        var target := msg.reply.value;
        if !(target in isQuestion && isQuestion[target]) {
          i := i + 1;
          continue;
        }
        users := users + [msg.from];
        i := i + 1;
      }
      assert now[..i] == now;
    }

    /** The token loop of `generate_word_cloud`. */
    method LoadTextContent() returns (textContent: string)
      ensures textContent == TextContent(Views(messages), tools.wordTokenize, stopWords)
    {
      ghost var now := Views(messages);
      textContent := "";
      var i := 0;
      while i < |messages|
        invariant 0 <= i <= |messages|
        invariant textContent == TextContent(now[..i], tools.wordTokenize, stopWords)
      {
        var msg := messages[i];
        if msg.text.Plain? {
          var tokens := tools.wordTokenize(msg.text.s);
          tokens := Filter(tokens, stopWords);
          textContent := textContent + " " + Join(" ", tokens);
        }
        assert now[..i + 1] == now[..i] + [now[i]];
        TextContentSnoc(now[..i], now[i], tools.wordTokenize, stopWords);
        i := i + 1;
      }
      assert now[..i] == now;
    }

    /** `generate_word_cloud` up to the renderer: the text content,
        normalised once, then two rounds of reshaping, control-run and emoji
        clean-up and display reordering. `rendered` is the string handed to
        the word-cloud renderer. */
    method GenerateWordCloud() returns (rendered: string)
      ensures rendered == ReshapeRounds(tools, tools.normalize(TextContent(Views(messages), tools.wordTokenize, stopWords)), 2)
    {
      var textContent := LoadTextContent();
      textContent := tools.normalize(textContent);
      ghost var start := textContent;
      for round := 0 to 2
        invariant textContent == ReshapeRounds(tools, start, round)
      {
        textContent := tools.reshape(textContent);
        textContent := tools.getDisplay(DeEmojify(tools, textContent));
      }
      rendered := textContent;
    }
  }

  /** Records whose texts have all been rebuilt from `before` now read as
      `FlattenAll(before)`. */
  lemma ViewsFlattened(ms: seq<Message>, before: seq<Msg>)
    requires |before| == |ms|
    requires forall j | 0 <= j < |ms| ::
      before[j].id == ms[j].id && before[j].from == ms[j].from && before[j].reply == ms[j].reply &&
      ms[j].text == Plain(Content(before[j].text))
    ensures Views(ms) == FlattenAll(before)
  {
    forall j | 0 <= j < |ms| ensures Views(ms)[j] == FlattenAll(before)[j] {
    }
  }

  /** The values of the records as they are now, element by element. */
  lemma Snapshot(ms: seq<Message>) returns (vs: seq<Msg>)
    ensures |vs| == |ms|
    ensures forall j | 0 <= j < |ms| :: vs[j] == ms[j].View()
  {
    vs := Views(ms);
  }
}
