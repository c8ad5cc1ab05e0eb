/**
 * The word-cloud text: the stop-word-filtered tokens of every message
 * whose text is a plain string, and the clean-up applied before the
 * letters are reshaped for rendering.
 */
module Corpus {
  import opened Transcript

  /** `list(filter(lambda item: item not in stop_words, tokens))`. */
  function Filter(tokens: seq<string>, stopWords: set<string>): seq<string>
  {
    if tokens == [] then []
    else
      var last := tokens[|tokens| - 1];
      Filter(tokens[..|tokens| - 1], stopWords) + (if last !in stopWords then [last] else [])
  }

  /** `sep.join(items)`: the items with `sep` between neighbours. */
  function Join(sep: string, items: seq<string>): string
  {
    if items == [] then ""
    else if |items| == 1 then items[0]
    else Join(sep, items[..|items| - 1]) + sep + items[|items| - 1]
  }

  /** What one message adds to the text content: a space and its kept
      tokens joined by spaces when its text is a string, nothing otherwise. */
  function Contribution(m: Msg, wordTokenize: string -> seq<string>, stopWords: set<string>): string
  {
    if m.text.Plain? then " " + Join(" ", Filter(wordTokenize(m.text.s), stopWords)) else ""
  }

  /** What each message adds, in message order. */
  function Contributions(ms: seq<Msg>, wordTokenize: string -> seq<string>, stopWords: set<string>): seq<string>
  {
    seq(|ms|, i requires 0 <= i < |ms| => Contribution(ms[i], wordTokenize, stopWords))
  }

  /** The accumulated `text_content` after the token loop. */
  function TextContent(ms: seq<Msg>, wordTokenize: string -> seq<string>, stopWords: set<string>): string
  {
    Concat(Contributions(ms, wordTokenize, stopWords))
  }

  /** Filtering works token by token: it distributes over concatenation, so
      the kept tokens keep their order. */
  lemma {:induction false} FilterAppend(a: seq<string>, b: seq<string>, stopWords: set<string>)
    ensures Filter(a + b, stopWords) == Filter(a, stopWords) + Filter(b, stopWords)
    decreases |b|
  {
    if b == [] {
      assert a + b == a;
    } else {
      assert (a + b)[..|a + b| - 1] == a + b[..|b| - 1];
      FilterAppend(a, b[..|b| - 1], stopWords);
    }
  }

  /** Exactly the tokens that are not stop words are kept. */
  lemma {:induction false} FilterMembers(tokens: seq<string>, stopWords: set<string>, w: string)
    ensures w in Filter(tokens, stopWords) <==> w in tokens && w !in stopWords
    decreases |tokens|
  {
    if tokens != [] {
      var init := tokens[..|tokens| - 1];
      FilterMembers(init, stopWords, w);
      assert tokens == init + [tokens[|tokens| - 1]];
    }
  }

  /** Tokens none of which is a stop word all pass. */
  lemma {:induction false} FilterNoStopWords(tokens: seq<string>, stopWords: set<string>)
    requires forall k | 0 <= k < |tokens| :: tokens[k] !in stopWords
    ensures Filter(tokens, stopWords) == tokens
    decreases |tokens|
  {
    if tokens != [] {
      FilterNoStopWords(tokens[..|tokens| - 1], stopWords);
    }
  }

  /** Joining two non-empty lists puts one separator between them. */
  lemma {:induction false} JoinAppend(sep: string, a: seq<string>, b: seq<string>)
    requires a != [] && b != []
    ensures Join(sep, a + b) == Join(sep, a) + sep + Join(sep, b)
    decreases |b|
  {
    if |b| == 1 {
      assert (a + b)[..|a + b| - 1] == a;
    } else {
      var b' := b[..|b| - 1];
      assert (a + b)[..|a + b| - 1] == a + b';
      JoinAppend(sep, a, b');
    }
  }

  /** The text content is built message by message. */
  lemma {:induction false} TextContentAppend(a: seq<Msg>, b: seq<Msg>, wordTokenize: string -> seq<string>, stopWords: set<string>)
    ensures TextContent(a + b, wordTokenize, stopWords)
         == TextContent(a, wordTokenize, stopWords) + TextContent(b, wordTokenize, stopWords)
  {
    var ca, cb := Contributions(a, wordTokenize, stopWords), Contributions(b, wordTokenize, stopWords);
    assert Contributions(a + b, wordTokenize, stopWords) == ca + cb;
    ConcatAppend(ca, cb);
    assert TextContent(a + b, wordTokenize, stopWords) == Concat(ca + cb);
    assert TextContent(a, wordTokenize, stopWords) == Concat(ca);
    assert TextContent(b, wordTokenize, stopWords) == Concat(cb);
  }

  /** One more message adds its contribution at the end. */
  lemma {:induction false} TextContentSnoc(ms: seq<Msg>, m: Msg, wordTokenize: string -> seq<string>, stopWords: set<string>)
    ensures TextContent(ms + [m], wordTokenize, stopWords)
         == TextContent(ms, wordTokenize, stopWords) + Contribution(m, wordTokenize, stopWords)
  {
    TextContentAppend(ms, [m], wordTokenize, stopWords);
    var c := Contributions([m], wordTokenize, stopWords);
    assert c == [Contribution(m, wordTokenize, stopWords)];
    assert c[..0] == [];
    assert TextContent([m], wordTokenize, stopWords) == Concat(c) == Concat(c[..0]) + c[0];
  }

  /** Message `i` adds its contribution in place; a message whose text is
      still a fragment sequence adds nothing. */
  lemma {:induction false} ContributionAt(ms: seq<Msg>, wordTokenize: string -> seq<string>, stopWords: set<string>, i: nat)
    requires i < |ms|
    ensures TextContent(ms, wordTokenize, stopWords)
         == TextContent(ms[..i], wordTokenize, stopWords)
          + (if ms[i].text.Plain? then " " + Join(" ", Filter(wordTokenize(ms[i].text.s), stopWords)) else "")
          + TextContent(ms[i + 1..], wordTokenize, stopWords)
  {
    var pre, mid, post := ms[..i], [ms[i]], ms[i + 1..];
    assert pre + mid + post == ms;
    TextContentAppend(pre + mid, post, wordTokenize, stopWords);
    TextContentSnoc(pre, ms[i], wordTokenize, stopWords);
  }

  /** A stop word is dropped and the other tokens keep their order. */
  lemma CatSat(wordTokenize: string -> seq<string>)
    requires wordTokenize("the cat sat") == ["the", "cat", "sat"]
    ensures Contribution(Msg(1, "A", Wrappers.None, Plain("the cat sat")), wordTokenize, {"the"}) == " cat sat"
  {
    var ts := ["the", "cat", "sat"];
    assert ts[..2][..1][..0] == [];
    assert ts[..2][..1] == ["the"];
    assert ts[..2] == ["the", "cat"];
    assert "cat" != "the" && "sat" != "the" by {
      assert "cat"[0] != "the"[0] && "sat"[0] != "the"[0];
    }
    assert Filter(["the"], {"the"}) == [];
    assert Filter(["the", "cat"], {"the"}) == ["cat"];
    assert Filter(ts, {"the"}) == ["cat", "sat"];
    assert ["cat", "sat"][..1] == ["cat"];
  }

  /** U+2066 (left-to-right isolate) and U+2069 (pop directional isolate),
      the characters the clean-up pattern matches. */
  predicate IsControl(c: char)
  {
    c == '\U{2066}' || c == '\U{2069}'
  }

  /** `s` without its leading run of control characters. */
  function DropRun(s: string): (r: string)
    ensures |r| <= |s| && r == s[|s| - |r|..]
    ensures r == [] || !IsControl(r[0])
    ensures forall k | 0 <= k < |s| - |r| :: IsControl(s[k])
  {
    if s != [] && IsControl(s[0]) then DropRun(s[1..]) else s
  }

  /** `re.compile("[\u2069\u2066]+").sub(" ", s)`: scanning left to right,
      each maximal run of control characters becomes one space. */
  function StripControls(s: string): string
    decreases |s|
  {
    if s == [] then ""
    else if IsControl(s[0]) then " " + StripControls(DropRun(s))
    else [s[0]] + StripControls(s[1..])
  }

  /** An independent character-by-character reading of the same rule: a
      control character becomes a space when it is not preceded by another
      control character and vanishes when it is; every other character is
      copied. `afterControl` says whether the previous character was one. */
  function PerCharacter(s: string, afterControl: bool): string
  {
    if s == [] then ""
    else
      (if !IsControl(s[0]) then [s[0]] else if afterControl then "" else " ")
        + PerCharacter(s[1..], IsControl(s[0]))
  }

  lemma {:induction false} PerCharacterSkipsRun(s: string)
    ensures PerCharacter(s, true) == PerCharacter(DropRun(s), false)
    decreases |s|
  {
    if s != [] && IsControl(s[0]) {
      PerCharacterSkipsRun(s[1..]);
    }
  }

  /** The greedy run replacement is the per-character rule. */
  lemma {:induction false} StripControlsPerCharacter(s: string)
    ensures StripControls(s) == PerCharacter(s, false)
    decreases |s|
  {
    if s != [] {
      if IsControl(s[0]) {
        PerCharacterSkipsRun(s[1..]);
        assert DropRun(s) == DropRun(s[1..]);
        StripControlsPerCharacter(DropRun(s));
      } else {
        StripControlsPerCharacter(s[1..]);
      }
    }
  }

  /** No control character survives the replacement. */
  lemma {:induction false} StripControlsLeavesNone(s: string)
    ensures forall k | 0 <= k < |StripControls(s)| :: !IsControl(StripControls(s)[k])
    decreases |s|
  {
    if s != [] {
      if IsControl(s[0]) {
        StripControlsLeavesNone(DropRun(s));
      } else {
        StripControlsLeavesNone(s[1..]);
      }
    }
  }

  /** A string without control characters is left as it is. */
  lemma {:induction false} StripControlsKeeps(s: string)
    requires forall k | 0 <= k < |s| :: !IsControl(s[k])
    ensures StripControls(s) == s
    decreases |s|
  {
    if s != [] {
      StripControlsKeeps(s[1..]);
    }
  }

  /** Replacing twice is replacing once. */
  lemma StripControlsIdempotent(s: string)
    ensures StripControls(StripControls(s)) == StripControls(s)
  {
    StripControlsLeavesNone(s);
    StripControlsKeeps(StripControls(s));
  }

  /** The nested `deEmojify`: control runs to spaces, then emoji to spaces. */
  function DeEmojify(tools: Toolkit, text: string): string
  {
    tools.demojiReplace(StripControls(text), " ")
  }

  /** One round of the reshaping loop. */
  function ReshapeRound(tools: Toolkit, text: string): string
  {
    tools.getDisplay(DeEmojify(tools, tools.reshape(text)))
  }

  /** `k` rounds of the reshaping loop. */
  function ReshapeRounds(tools: Toolkit, text: string, k: nat): string
  {
    if k == 0 then text else ReshapeRound(tools, ReshapeRounds(tools, text, k - 1))
  }
}
