/**
 * The exported chat transcript: messages, their text (a flat string or a
 * sequence of fragments), and the foreign language-processing collaborators
 * the statistics consume.
 */
module Transcript {
  import opened Wrappers

  /** One element of a composite message body: a bare string, or an
      annotated span (link, mention, bold, ...) whose `text` member may be absent. */
  datatype Fragment = Bare(s: string) | Annotated(text: Option<string>)

  /** A message's `text` field. */
  datatype Text = Plain(s: string) | Fragments(parts: seq<Fragment>)

  /** The value of one message record at one moment. */
  datatype Msg = Msg(id: int, from: string, reply: Option<int>, text: Text)

  /** The foreign collaborators, all of them opaque: the sentence and word
      tokenisers and the normaliser of the language-processing library, the
      letter reshaper, the bidirectional display reordering and the emoji
      replacer. Each is a total function of its inputs. */
  datatype Toolkit = Toolkit(
    sentTokenize: string -> seq<string>,
    wordTokenize: string -> seq<string>,
    normalize: string -> string,
    reshape: string -> string,
    getDisplay: string -> string,
    demojiReplace: (string, string) -> string)

  /** A message record of the loaded transcript. Only its `text` is ever
      written: reconstruction caches the flattened body in place. */
  class Message {
    const id: int
    const from: string
    const reply: Option<int>
    var text: Text

    constructor (id: int, from: string, reply: Option<int>, text: Text)
      ensures this.id == id && this.from == from && this.reply == reply && this.text == text
    {
      this.id, this.from, this.reply, this.text := id, from, reply, text;
    }

    function View(): Msg
      reads this
    {
      Msg(id, from, reply, text)
    }
  }

  /** The values of a sequence of message records in the current heap. */
  function Views(ms: seq<Message>): seq<Msg>
    reads ms
  {
    seq(|ms|, i requires 0 <= i < |ms| reads ms => ms[i].View())
  }

  /** Strings laid end to end. */
  function Concat(ss: seq<string>): string
  {
    if ss == [] then "" else Concat(ss[..|ss| - 1]) + ss[|ss| - 1]
  }

  lemma {:induction false} ConcatAppend(a: seq<string>, b: seq<string>)
    ensures Concat(a + b) == Concat(a) + Concat(b)
    decreases |b|
  {
    if b == [] {
      assert a + b == a;
    } else {
      var ab, b', last := a + b, b[..|b| - 1], b[|b| - 1];
      assert ab[..|ab| - 1] == a + b' && ab[|ab| - 1] == last;
      ConcatAppend(a, b');
    }
  }
}
