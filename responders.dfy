/**
 * The top-responder ranking: who most often replies to question-bearing
 * messages. The first pass flags questions (Questions.QuestionIds), the
 * second collects one vote per qualifying reply, and the votes are ranked
 * by Ranking.MostCommon.
 */
module Responders {
  import opened Wrappers
  import opened Transcript
  import opened Rebuild
  import opened Questions
  import opened Counter
  import opened Ranking

  /** `msg.get('reply_to_message_id')` is truthy: the field is present and not 0. */
  predicate RepliesTo(reply: Option<int>)
  {
    reply.Some? && reply.value != 0
  }

  /** A message's author gets a vote from it: it replies to a flagged id. */
  predicate Votes(m: Msg, flagged: set<int>)
  {
    RepliesTo(m.reply) && m.reply.value in flagged
  }

  /** The `users` list of the second pass: the authors of the voting
      messages, in transcript order. */
  function Voters(ms: seq<Msg>, flagged: set<int>): seq<string>
  {
    if ms == [] then []
    else
      var last := ms[|ms| - 1];
      Voters(ms[..|ms| - 1], flagged) + (if Votes(last, flagged) then [last.from] else [])
  }

  /** Number of messages with a truthy reply reference. */
  function Replying(ms: seq<Msg>): nat
  {
    if ms == [] then 0
    else Replying(ms[..|ms| - 1]) + (if RepliesTo(ms[|ms| - 1].reply) then 1 else 0)
  }

  /** Number of messages by `a` that vote. */
  function VotesBy(ms: seq<Msg>, flagged: set<int>, a: string): nat
  {
    if ms == [] then 0
    else
      var last := ms[|ms| - 1];
      VotesBy(ms[..|ms| - 1], flagged, a) + (if Votes(last, flagged) && last.from == a then 1 else 0)
  }

  /** The ranking `get_top_users(top_n)` returns for the transcript `ms`. */
  function TopUsers(ms: seq<Msg>, sentTokenize: string -> seq<string>, topN: int): seq<Entry>
  {
    MostCommon(Tally(Voters(ms, QuestionIds(ms, sentTokenize))), topN)
  }

  /** Votes come only from replying messages. */
  lemma {:induction false} VotersBound(ms: seq<Msg>, flagged: set<int>)
    ensures |Voters(ms, flagged)| <= Replying(ms)
    decreases |ms|
  {
    if ms != [] {
      VotersBound(ms[..|ms| - 1], flagged);
    }
  }

  /** Each author's number of votes is the number of their voting messages. */
  lemma {:induction false} VotersCount(ms: seq<Msg>, flagged: set<int>, a: string)
    ensures multiset(Voters(ms, flagged))[a] == VotesBy(ms, flagged, a)
    decreases |ms|
  {
    if ms != [] {
      VotersCount(ms[..|ms| - 1], flagged, a);
    }
  }

  lemma {:induction false} VotersAppend(a: seq<Msg>, b: seq<Msg>, flagged: set<int>)
    ensures Voters(a + b, flagged) == Voters(a, flagged) + Voters(b, flagged)
    decreases |b|
  {
    if b == [] {
      assert a + b == a;
    } else {
      assert (a + b)[..|a + b| - 1] == a + b[..|b| - 1];
      VotersAppend(a, b[..|b| - 1], flagged);
    }
  }

  /** Message `i` contributes its author once, in place, exactly when it votes. */
  lemma {:induction false} VoteAt(ms: seq<Msg>, flagged: set<int>, i: nat)
    requires i < |ms|
    ensures Voters(ms, flagged) ==
      Voters(ms[..i], flagged) + (if Votes(ms[i], flagged) then [ms[i].from] else []) + Voters(ms[i + 1..], flagged)
  {
    var pre, mid, post := ms[..i], [ms[i]], ms[i + 1..];
    assert pre + mid + post == ms;
    VotersAppend(pre + mid, post, flagged);
    VotersAppend(pre, mid, flagged);
    assert mid[..0] == [];
  }

  /** A message without a reply reference, with reference 0, or referring to
      an id no message of the transcript has, casts no vote. */
  lemma UnresolvedReplyCastsNoVote(ms: seq<Msg>, sentTokenize: string -> seq<string>, i: nat)
    requires i < |ms|
    requires ms[i].reply == None || ms[i].reply == Some(0)
          || forall j | 0 <= j < |ms| :: ms[j].id != ms[i].reply.value
    ensures !Votes(ms[i], QuestionIds(ms, sentTokenize))
  {
    if ms[i].reply.Some? {
      QuestionIdsMeaning(ms, sentTokenize, ms[i].reply.value);
    }
  }

  /** The counts of the ranking add up to at most the number of replying messages. */
  lemma TopUsersTotal(ms: seq<Msg>, sentTokenize: string -> seq<string>, topN: int)
    ensures Total(TopUsers(ms, sentTokenize, topN)) <= Replying(ms)
  {
    var flagged := QuestionIds(ms, sentTokenize);
    MostCommonCounts(Voters(ms, flagged), topN);
    VotersBound(ms, flagged);
  }

  lemma {:induction false} QuestionIdsFlattenAll(ms: seq<Msg>, sentTokenize: string -> seq<string>)
    ensures QuestionIds(FlattenAll(ms), sentTokenize) == QuestionIds(ms, sentTokenize)
    decreases |ms|
  {
    if ms != [] {
      assert FlattenAll(ms)[..|ms| - 1] == FlattenAll(ms[..|ms| - 1]);
      QuestionIdsFlattenAll(ms[..|ms| - 1], sentTokenize);
    }
  }

  lemma {:induction false} VotersFlattenAll(ms: seq<Msg>, flagged: set<int>)
    ensures Voters(FlattenAll(ms), flagged) == Voters(ms, flagged)
    decreases |ms|
  {
    if ms != [] {
      assert FlattenAll(ms)[..|ms| - 1] == FlattenAll(ms[..|ms| - 1]);
      VotersFlattenAll(ms[..|ms| - 1], flagged);
    }
  }

  /** The ranking does not change when it is computed again on the
      transcript its own first pass has rewritten. */
  lemma TopUsersStable(ms: seq<Msg>, sentTokenize: string -> seq<string>, topN: int)
    ensures TopUsers(FlattenAll(ms), sentTokenize, topN) == TopUsers(ms, sentTokenize, topN)
  {
    QuestionIdsFlattenAll(ms, sentTokenize);
    VotersFlattenAll(ms, QuestionIds(ms, sentTokenize));
  }

  /** A question answered once: B is the only responder. */
  lemma AnsweredQuestion(sentTokenize: string -> seq<string>)
    requires sentTokenize("Are you coming?") == ["Are you coming?"]
    ensures TopUsers([Msg(1, "A", None, Plain("Are you coming?")), Msg(2, "B", Some(1), Plain("Yes"))],
                     sentTokenize, 10) == [("B", 1)]
  {
    var ms := [Msg(1, "A", None, Plain("Are you coming?")), Msg(2, "B", Some(1), Plain("Yes"))];
    assert ms[..1][..0] == [];
    assert "Are you coming?"[14] == QUESTION_MARK;
    assert HasQuestion(sentTokenize, "Are you coming?") by {
      assert HasMarker(sentTokenize("Are you coming?")[0]);
    }
    var flagged := QuestionIds(ms, sentTokenize);
    assert 1 in flagged;
    assert Voters(ms[..1], flagged) == [];
    assert Voters(ms, flagged) == ["B"];
    assert ["B"][..0] == [];
    assert Tally(["B"]) == [("B", 1)];
    assert SortByCount([("B", 1)]) == Insert(("B", 1), []) == [("B", 1)];
  }

  /** The same exchange, but the reply points at an id that is not in the
      export: nobody is ranked. */
  lemma ReplyToMissingMessage(sentTokenize: string -> seq<string>)
    ensures TopUsers([Msg(1, "A", None, Plain("Are you coming?")), Msg(2, "B", Some(99), Plain("Yes"))],
                     sentTokenize, 10) == []
  {
    var ms := [Msg(1, "A", None, Plain("Are you coming?")), Msg(2, "B", Some(99), Plain("Yes"))];
    UnresolvedReplyCastsNoVote(ms, sentTokenize, 1);
    assert ms[..1][..0] == [];
    var flagged := QuestionIds(ms, sentTokenize);
    assert Voters(ms[..1], flagged) == [];
    assert Voters(ms, flagged) == [];
  }
}
