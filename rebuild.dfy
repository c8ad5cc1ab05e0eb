/**
 * Message reconstruction: flattening a composite message body into one
 * string, and the in-place caching of that string on every message.
 */
module Rebuild {
  import opened Wrappers
  import opened Transcript

  /** What one fragment contributes: a bare string verbatim, an annotated
      span its `text` member, or nothing when that member is absent. */
  function Piece(f: Fragment): string
  {
    match f
    case Bare(s) => s
    case Annotated(t) => if t.Some? then t.value else ""
  }

  /** The fragments' pieces concatenated in sequence order, with no separator. */
  function Flatten(fs: seq<Fragment>): string
  {
    if fs == [] then "" else Flatten(fs[..|fs| - 1]) + Piece(fs[|fs| - 1])
  }

  /** The plain string a `text` field stands for. */
  function Content(t: Text): string
  {
    match t
    case Plain(s) => s
    case Fragments(fs) => Flatten(fs)
  }

  /** A message after its `text` has been rebuilt and written back. */
  function Flattened(m: Msg): (r: Msg)
    ensures r.text.Plain? && Content(r.text) == Content(m.text)
    ensures r.id == m.id && r.from == m.from && r.reply == m.reply
    ensures m.text.Plain? ==> r == m
  {
    m.(text := Plain(Content(m.text)))
  }

  /** Every message of a transcript after the first pass of the ranking. */
  function FlattenAll(ms: seq<Msg>): (r: seq<Msg>)
  {
    seq(|ms|, i requires 0 <= i < |ms| => Flattened(ms[i]))
  }

  /** Flattening distributes over concatenation of fragment sequences. */
  lemma {:induction false} FlattenAppend(a: seq<Fragment>, b: seq<Fragment>)
    ensures Flatten(a + b) == Flatten(a) + Flatten(b)
    decreases |b|
  {
    if b == [] {
      assert a + b == a;
    } else {
      var ab, b', last := a + b, b[..|b| - 1], b[|b| - 1];
      assert ab[..|ab| - 1] == a + b' && ab[|ab| - 1] == last;
      assert Flatten(ab) == Flatten(a + b') + Piece(last);
      assert Flatten(b) == Flatten(b') + Piece(last);
      FlattenAppend(a, b');
    }
  }

  /** Each fragment's piece occurs verbatim, between the flattening of the
      fragments before it and the flattening of those after it. */
  lemma {:induction false} FlattenAt(fs: seq<Fragment>, k: nat)
    requires k < |fs|
    ensures Flatten(fs) == Flatten(fs[..k]) + Piece(fs[k]) + Flatten(fs[k + 1..])
  {
    var pre, mid, post := fs[..k], [fs[k]], fs[k + 1..];
    assert pre + mid + post == fs;
    assert Flatten(mid) == Piece(fs[k]) by {
      assert mid[..0] == [];
    }
    calc {
      Flatten(fs);
      Flatten(pre + mid + post);
      { FlattenAppend(pre + mid, post); }
      Flatten(pre + mid) + Flatten(post);
      { FlattenAppend(pre, mid); }
      Flatten(pre) + Flatten(mid) + Flatten(post);
    }
  }

  /** The length of the rebuilt string is the sum of the pieces' lengths:
      nothing is inserted between fragments. */
  function PiecesLength(fs: seq<Fragment>): nat
  {
    if fs == [] then 0 else PiecesLength(fs[..|fs| - 1]) + |Piece(fs[|fs| - 1])|
  }

  lemma {:induction false} FlattenLength(fs: seq<Fragment>)
    ensures |Flatten(fs)| == PiecesLength(fs)
    decreases |fs|
  {
    if fs != [] {
      FlattenLength(fs[..|fs| - 1]);
    }
  }

  /** Annotated spans without a `text` member can be dropped without changing the result. */
  lemma {:induction false} FlattenSkipsEmptySpan(a: seq<Fragment>, b: seq<Fragment>)
    ensures Flatten(a + [Annotated(None)] + b) == Flatten(a + b)
  {
    FlattenAppend(a + [Annotated(None)], b);
    FlattenAppend(a, [Annotated(None)]);
    FlattenAppend(a, b);
    assert [Annotated(None)][..0] == [];
  }

  /** Running the first pass on its own output changes nothing. */
  lemma FlattenAllIdempotent(ms: seq<Msg>)
    ensures FlattenAll(FlattenAll(ms)) == FlattenAll(ms)
  {
  }

  /** A link fragment followed by a bare string, as in a rich export. */
  lemma RebuildExample()
    ensures Flatten([Annotated(Some("Hello ")), Bare("world")]) == "Hello world"
  {
    var fs := [Annotated(Some("Hello ")), Bare("world")];
    assert fs[..1][..0] == [];
  }
}
