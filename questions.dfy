/**
 * Question detection: a message is question-bearing when one of the
 * sentences the segmenter finds in its rebuilt text carries a question mark.
 */
module Questions {
  import opened Transcript
  import opened Rebuild

  const QUESTION_MARK: char := '?'
  /** U+061F, the Arabic/Persian question mark. */
  const ARABIC_QUESTION_MARK: char := '\U{061F}'

  predicate HasMarker(sentence: string)
  {
    ARABIC_QUESTION_MARK in sentence || QUESTION_MARK in sentence
  }

  /** Some sentence of the segmentation of `s` carries a question mark. */
  predicate HasQuestion(sentTokenize: string -> seq<string>, s: string)
  {
    exists k :: 0 <= k < |sentTokenize(s)| && HasMarker(sentTokenize(s)[k])
  }

  /** The keys the first pass of the ranking sets to true: the ids of the
      question-bearing messages, judged on their rebuilt text. */
  function QuestionIds(ms: seq<Msg>, sentTokenize: string -> seq<string>): set<int>
  {
    if ms == [] then {}
    else
      var last := ms[|ms| - 1];
      QuestionIds(ms[..|ms| - 1], sentTokenize)
        + (if HasQuestion(sentTokenize, Content(last.text)) then {last.id} else {})
  }

  /** The `is_question` dictionary after the first pass has visited the
      first `n` messages: a true entry for each question-bearing one. */
  function FlagMap(ms: seq<Msg>, sentTokenize: string -> seq<string>, n: nat): map<int, bool>
    requires n <= |ms|
  {
    if n == 0 then map[]
    else
      var m := ms[n - 1];
      var before := FlagMap(ms, sentTokenize, n - 1);
      if HasQuestion(sentTokenize, Content(m.text)) then before[m.id := true] else before
  }

  /** The dictionary's keys are the question ids of the visited messages and
      every value is true. */
  lemma {:induction false} FlagMapPrefix(ms: seq<Msg>, sentTokenize: string -> seq<string>, n: nat)
    requires n <= |ms|
    ensures FlagMap(ms, sentTokenize, n).Keys == QuestionIds(ms[..n], sentTokenize)
    ensures forall id | id in FlagMap(ms, sentTokenize, n) :: FlagMap(ms, sentTokenize, n)[id]
  {
    if n > 0 {
      FlagMapPrefix(ms, sentTokenize, n - 1);
      assert ms[..n][..n - 1] == ms[..n - 1];
    }
  }

  lemma FlagMapMeaning(ms: seq<Msg>, sentTokenize: string -> seq<string>)
    ensures FlagMap(ms, sentTokenize, |ms|).Keys == QuestionIds(ms, sentTokenize)
    ensures forall id | id in FlagMap(ms, sentTokenize, |ms|) :: FlagMap(ms, sentTokenize, |ms|)[id]
  {
    FlagMapPrefix(ms, sentTokenize, |ms|);
    assert ms[..|ms|] == ms;
  }

  /** An id is flagged exactly when some message with that id is question-bearing. */
  lemma {:induction false} QuestionIdsMeaning(ms: seq<Msg>, sentTokenize: string -> seq<string>, id: int)
    ensures id in QuestionIds(ms, sentTokenize)
        <==> exists i :: 0 <= i < |ms| && ms[i].id == id && HasQuestion(sentTokenize, Content(ms[i].text))
    decreases |ms|
  {
    if ms != [] {
      var init := ms[..|ms| - 1];
      QuestionIdsMeaning(init, sentTokenize, id);
      if id in QuestionIds(ms, sentTokenize) && id !in QuestionIds(init, sentTokenize) {
        assert ms[|ms| - 1].id == id;
      }
      if exists i :: 0 <= i < |ms| && ms[i].id == id && HasQuestion(sentTokenize, Content(ms[i].text)) {
        var i :| 0 <= i < |ms| && ms[i].id == id && HasQuestion(sentTokenize, Content(ms[i].text));
        if i < |init| {
          assert init[i] == ms[i];
        }
      }
    }
  }

  lemma {:induction false} ConcatHas(ss: seq<string>, c: char)
    ensures c in Concat(ss) <==> exists k :: 0 <= k < |ss| && c in ss[k]
    decreases |ss|
  {
    if ss != [] {
      var init := ss[..|ss| - 1];
      ConcatHas(init, c);
      if exists k :: 0 <= k < |ss| && c in ss[k] {
        var k :| 0 <= k < |ss| && c in ss[k];
        if k < |init| {
          assert init[k] == ss[k];
        }
      }
      if exists k :: 0 <= k < |init| && c in init[k] {
        var k :| 0 <= k < |init| && c in init[k];
        assert ss[k] == init[k];
      }
    }
  }

  /** For a segmenter that keeps every question mark of the text in some
      sentence and puts none into a sentence that the text lacks, a message
      is question-bearing exactly when its text contains a question mark.
      Trimming the space between sentences is allowed. */
  lemma QuestionIffKeptMarkers(sentTokenize: string -> seq<string>, s: string)
    requires forall k | 0 <= k < |sentTokenize(s)| ::
      (QUESTION_MARK in sentTokenize(s)[k] ==> QUESTION_MARK in s) &&
      (ARABIC_QUESTION_MARK in sentTokenize(s)[k] ==> ARABIC_QUESTION_MARK in s)
    requires QUESTION_MARK in s ==>
      exists k :: 0 <= k < |sentTokenize(s)| && QUESTION_MARK in sentTokenize(s)[k]
    requires ARABIC_QUESTION_MARK in s ==>
      exists k :: 0 <= k < |sentTokenize(s)| && ARABIC_QUESTION_MARK in sentTokenize(s)[k]
    ensures HasQuestion(sentTokenize, s) <==> HasMarker(s)
  {
    var ss := sentTokenize(s);
    if HasMarker(s) {
      if ARABIC_QUESTION_MARK in s {
        var k :| 0 <= k < |ss| && ARABIC_QUESTION_MARK in ss[k];
        assert HasMarker(ss[k]);
      } else {
        var k :| 0 <= k < |ss| && QUESTION_MARK in ss[k];
        assert HasMarker(ss[k]);
      }
    }
  }

  /** In particular for a segmenter that only cuts the text: the sentences
      laid end to end give it back. */
  lemma QuestionIffMarker(sentTokenize: string -> seq<string>, s: string)
    requires Concat(sentTokenize(s)) == s
    ensures HasQuestion(sentTokenize, s) <==> HasMarker(s)
  {
    ConcatHas(sentTokenize(s), QUESTION_MARK);
    ConcatHas(sentTokenize(s), ARABIC_QUESTION_MARK);
    QuestionIffKeptMarkers(sentTokenize, s);
  }

  /** "چطوری؟" ("how are you?") is a question and "سلام" ("hello") is not,
      for any segmenter that only cuts the text. */
  lemma PersianExamples(sentTokenize: string -> seq<string>)
    requires Concat(sentTokenize("چطوری؟")) == "چطوری؟"
    requires Concat(sentTokenize("سلام")) == "سلام"
    ensures HasQuestion(sentTokenize, "چطوری؟")
    ensures !HasQuestion(sentTokenize, "سلام")
  {
    QuestionIffMarker(sentTokenize, "چطوری؟");
    QuestionIffMarker(sentTokenize, "سلام");
    assert "چطوری؟"[5] == ARABIC_QUESTION_MARK;
  }
}
