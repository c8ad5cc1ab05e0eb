/**
 * Counting votes as Python's `collections.Counter` does: one (author,
 * count) entry per distinct author, in the order authors first occur.
 */
module Counter {

  type Entry = (string, nat)

  /** Position of the first occurrence of `x` in `s`. */
  function FirstIndex(s: seq<string>, x: string): (r: nat)
    requires x in s
    ensures r < |s| && s[r] == x && x !in s[..r]
  {
    if s[0] == x then 0
    else
      var r := 1 + FirstIndex(s[1..], x);
      assert s[..r] == [s[0]] + s[1..][..r - 1];
      r
  }

  lemma {:induction false} FirstIndexUnique(s: seq<string>, x: string, k: nat)
    requires k < |s| && s[k] == x && x !in s[..k]
    ensures FirstIndex(s, x) == k
  {
    var r := FirstIndex(s, x);
  }

  /** Votes after the ones already counted do not move a first occurrence. */
  lemma {:induction false} FirstIndexExtend(p: seq<string>, u: string, x: string)
    requires x in p
    ensures FirstIndex(p + [u], x) == FirstIndex(p, x)
  {
    var r := FirstIndex(p, x);
    assert (p + [u])[..r] == p[..r];
    FirstIndexUnique(p + [u], x, r);
  }

  predicate HasKey(t: seq<Entry>, u: string)
  {
    exists i :: 0 <= i < |t| && t[i].0 == u
  }

  predicate DistinctKeys(t: seq<Entry>)
  {
    forall i, j :: 0 <= i < j < |t| ==> t[i].0 != t[j].0
  }

  /** Sum of the counts. */
  function Total(t: seq<Entry>): nat
  {
    if t == [] then 0 else t[0].1 + Total(t[1..])
  }

  /** One more vote for `u`: its entry's count goes up by one, or a new entry
      (u, 1) is appended. */
  function Bump(t: seq<Entry>, u: string): seq<Entry>
  {
    if t == [] then [(u, 1)]
    else if t[0].0 == u then [(u, t[0].1 + 1)] + t[1..]
    else [t[0]] + Bump(t[1..], u)
  }

  /** The counter built from `users`, one vote at a time, in order. */
  function Tally(users: seq<string>): seq<Entry>
  {
    if users == [] then [] else Bump(Tally(users[..|users| - 1]), users[|users| - 1])
  }

  /** A vote for a known author changes that author's count and no other. */
  lemma {:induction false} BumpExisting(t: seq<Entry>, u: string)
    requires DistinctKeys(t) && HasKey(t, u)
    ensures |Bump(t, u)| == |t|
    ensures forall i :: 0 <= i < |t| ==>
      Bump(t, u)[i] == (t[i].0, if t[i].0 == u then t[i].1 + 1 else t[i].1)
    ensures Total(Bump(t, u)) == Total(t) + 1
  {
    BumpKnownAt(t, u, 0);
    BumpKnownTotal(t, u);
    forall i | 0 <= i < |t| ensures Bump(t, u)[i] == (t[i].0, if t[i].0 == u then t[i].1 + 1 else t[i].1) {
      BumpKnownAt(t, u, i);
    }
  }

  lemma {:induction false} BumpKnownAt(t: seq<Entry>, u: string, i: nat)
    requires DistinctKeys(t) && HasKey(t, u) && i < |t|
    ensures |Bump(t, u)| == |t|
    ensures Bump(t, u)[i] == (t[i].0, if t[i].0 == u then t[i].1 + 1 else t[i].1)
  {
    var b := Bump(t, u);
    if t[0].0 != u {
      var t' := t[1..];
      DropKnown(t, u);
      BumpKnownAt(t', u, if i == 0 then 0 else i - 1);
      assert b == [t[0]] + Bump(t', u);
      if i > 0 {
        assert b[i] == Bump(t', u)[i - 1] && t'[i - 1] == t[i];
      }
    } else if i > 0 {
      assert t[0].0 != t[i].0;
      assert b[i] == t[1..][i - 1];
    }
  }

  lemma {:induction false} BumpKnownTotal(t: seq<Entry>, u: string)
    requires DistinctKeys(t) && HasKey(t, u)
    ensures Total(Bump(t, u)) == Total(t) + 1
  {
    var b := Bump(t, u);
    if t[0].0 != u {
      DropKnown(t, u);
      BumpKnownTotal(t[1..], u);
      assert b[1..] == Bump(t[1..], u);
    } else {
      assert b[1..] == t[1..];
    }
  }

  /** The tail of a counter that knows `u` but does not start with it still knows it. */
  lemma {:induction false} DropKnown(t: seq<Entry>, u: string)
    requires DistinctKeys(t) && HasKey(t, u) && t[0].0 != u
    ensures DistinctKeys(t[1..]) && HasKey(t[1..], u)
  {
    var t' := t[1..];
    var k :| 0 <= k < |t| && t[k].0 == u;
    assert t'[k - 1].0 == u;
    forall i, j | 0 <= i < j < |t'| ensures t'[i].0 != t'[j].0 {
      assert t'[i] == t[i + 1] && t'[j] == t[j + 1];
    }
  }

  lemma {:induction false} BumpNew(t: seq<Entry>, u: string)
    requires !HasKey(t, u)
    ensures Bump(t, u) == t + [(u, 1)]
    ensures Total(Bump(t, u)) == Total(t) + 1
  {
    if t != [] {
      assert t[0].0 != u;
      BumpNew(t[1..], u);
      assert t == [t[0]] + t[1..];
    }
  }

  /** The defining facts of a counter of `users`: one entry per distinct
      author, with that author's number of votes, in first-vote order, the
      counts adding up to the number of votes. */
  ghost predicate IsCounterOf(t: seq<Entry>, users: seq<string>)
  {
    && DistinctKeys(t)
    && (forall i :: 0 <= i < |t| ==> t[i].0 in users && t[i].1 == multiset(users)[t[i].0])
    && (forall u :: u in users ==> HasKey(t, u))
    && (forall i, j :: 0 <= i < j < |t| ==> FirstIndex(users, t[i].0) < FirstIndex(users, t[j].0))
    && Total(t) == |users|
  }

  lemma {:induction false} TallyFacts(users: seq<string>)
    ensures IsCounterOf(Tally(users), users)
    decreases |users|
  {
    if users != [] {
      var p, u := users[..|users| - 1], users[|users| - 1];
      assert users == p + [u];
      TallyFacts(p);
      if HasKey(Tally(p), u) {
        BumpExistingCounter(Tally(p), p, u);
      } else {
        BumpNewCounter(Tally(p), p, u);
      }
    }
  }

  lemma {:induction false} BumpExistingCounter(t: seq<Entry>, p: seq<string>, u: string)
    requires IsCounterOf(t, p) && HasKey(t, u)
    ensures IsCounterOf(Bump(t, u), p + [u])
  {
    var users, t' := p + [u], Bump(t, u);
    BumpExisting(t, u);
    assert multiset(users) == multiset(p) + multiset{u};
    forall i | 0 <= i < |t'| ensures t'[i].0 == t[i].0 && t'[i].0 in users {
    }
    assert DistinctKeys(t');
    forall i | 0 <= i < |t'| ensures t'[i].1 == multiset(users)[t'[i].0] {
      if t[i].0 == u {
        assert t'[i].1 == t[i].1 + 1;
      } else {
        assert t'[i].1 == t[i].1;
      }
    }
    forall x | x in users ensures HasKey(t', x) {
      if x != u {
        assert x in p;
      }
      var i :| 0 <= i < |t| && t[i].0 == x;
      assert t'[i].0 == x;
    }
    forall i, j | 0 <= i < j < |t'|
      ensures FirstIndex(users, t'[i].0) < FirstIndex(users, t'[j].0)
    {
      FirstIndexExtend(p, u, t[i].0);
      FirstIndexExtend(p, u, t[j].0);
    }
  }

  lemma {:induction false} BumpNewCounter(t: seq<Entry>, p: seq<string>, u: string)
    requires IsCounterOf(t, p) && !HasKey(t, u)
    ensures IsCounterOf(Bump(t, u), p + [u])
  {
    var users, t' := p + [u], Bump(t, u);
    BumpNew(t, u);
    assert u !in p;
    forall i, j | 0 <= i < j < |t'| ensures t'[i].0 != t'[j].0 {
      assert t'[i] == t[i];
      if j < |t| {
        assert t'[j] == t[j];
      }
    }
    BumpNewCounts(t, p, u);
    BumpNewCovers(t, p, u);
    BumpNewOrder(t, p, u);
  }

  lemma {:induction false} BumpNewCounts(t: seq<Entry>, p: seq<string>, u: string)
    requires IsCounterOf(t, p) && !HasKey(t, u)
    ensures forall i :: 0 <= i < |Bump(t, u)| ==>
      Bump(t, u)[i].0 in p + [u] && Bump(t, u)[i].1 == multiset(p + [u])[Bump(t, u)[i].0]
  {
    var users, t' := p + [u], Bump(t, u);
    BumpNew(t, u);
    assert u !in p;
    assert multiset(users) == multiset(p) + multiset{u};
    forall i | 0 <= i < |t'|
      ensures t'[i].0 in users && t'[i].1 == multiset(users)[t'[i].0]
    {
      if i < |t| {
        assert t'[i] == t[i];
        assert t[i].0 != u;
      }
    }
  }

  lemma {:induction false} BumpNewCovers(t: seq<Entry>, p: seq<string>, u: string)
    requires IsCounterOf(t, p) && !HasKey(t, u)
    ensures forall x :: x in p + [u] ==> HasKey(Bump(t, u), x)
  {
    var users, t' := p + [u], Bump(t, u);
    BumpNew(t, u);
    forall x | x in users ensures HasKey(t', x) {
      if x == u {
        assert t'[|t|].0 == u;
      } else {
        assert x in p;
        var i :| 0 <= i < |t| && t[i].0 == x;
        assert t'[i].0 == x;
      }
    }
  }

  lemma {:induction false} BumpNewOrder(t: seq<Entry>, p: seq<string>, u: string)
    requires IsCounterOf(t, p) && !HasKey(t, u)
    ensures forall i :: 0 <= i < |Bump(t, u)| ==> Bump(t, u)[i].0 in p + [u]
    ensures forall i, j :: 0 <= i < j < |Bump(t, u)| ==>
      FirstIndex(p + [u], Bump(t, u)[i].0) < FirstIndex(p + [u], Bump(t, u)[j].0)
  {
    var users, t' := p + [u], Bump(t, u);
    BumpNew(t, u);
    assert u !in p;
    FirstIndexUnique(users, u, |p|);
    forall i | 0 <= i < |t'| ensures t'[i].0 in users {
      if i < |t| {
        assert t'[i] == t[i];
      }
    }
    forall i, j | 0 <= i < j < |t'|
      ensures FirstIndex(users, t'[i].0) < FirstIndex(users, t'[j].0)
    {
      assert t'[i] == t[i];
      FirstIndexExtend(p, u, t[i].0);
      if j < |t| {
        assert t'[j] == t[j];
        FirstIndexExtend(p, u, t[j].0);
      }
    }
  }

  /** The counter knows exactly the authors who voted. */
  lemma {:induction false} TallyKnows(users: seq<string>, u: string)
    ensures HasKey(Tally(users), u) <==> u in users
  {
    TallyFacts(users);
    if HasKey(Tally(users), u) {
      var i :| 0 <= i < |Tally(users)| && Tally(users)[i].0 == u;
    }
  }

  /** One entry per distinct author. */
  lemma {:induction false} TallyLength(users: seq<string>)
    ensures |Tally(users)| == |set x | x in users|
    decreases |users|
  {
    if users != [] {
      var p, u := users[..|users| - 1], users[|users| - 1];
      assert users == p + [u];
      TallyLength(p);
      TallyKnows(p, u);
      TallyFacts(p);
      assert (set x | x in users) == (set x | x in p) + {u};
      if u in p {
        BumpKnownAt(Tally(p), u, 0);
      } else {
        BumpNew(Tally(p), u);
      }
    }
  }
}
