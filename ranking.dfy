/**
 * `Counter.most_common(n)`: the counter's entries sorted by count,
 * largest first, equal counts kept in the counter's own (first-vote)
 * order, cut to the first `n`; nothing at all when `n <= 0`.
 */
module Ranking {
  import opened Counter

  /** Counts never increase along `s`. */
  predicate Descending(s: seq<Entry>)
  {
    forall i, j :: 0 <= i < j < |s| ==> s[i].1 >= s[j].1
  }

  /** Where an author first voted; authors that never voted come last. */
  function Seen(users: seq<string>, a: string): nat
  {
    if a in users then FirstIndex(users, a) else |users|
  }

  /** Entries are in the order their authors first voted. */
  predicate InVoteOrder(s: seq<Entry>, users: seq<string>)
  {
    forall i, j :: 0 <= i < j < |s| ==> Seen(users, s[i].0) < Seen(users, s[j].0)
  }

  /** Entries with equal counts are in the order their authors first voted. */
  predicate TiesInVoteOrder(s: seq<Entry>, users: seq<string>)
  {
    forall i, j :: 0 <= i < j < |s| && s[i].1 == s[j].1 ==> Seen(users, s[i].0) < Seen(users, s[j].0)
  }

  /** Neighbour-by-neighbour forms of the two orders, which insertion
      keeps locally; LocalToGlobal lifts them to every pair. */
  predicate NeighboursDescend(s: seq<Entry>)
  {
    forall i :: 0 < i < |s| ==> s[i - 1].1 >= s[i].1
  }

  predicate NeighbourTiesInVoteOrder(s: seq<Entry>, users: seq<string>)
  {
    forall i :: 0 < i < |s| && s[i - 1].1 == s[i].1 ==> Seen(users, s[i - 1].0) < Seen(users, s[i].0)
  }

  /** Places `e` before the first entry whose count is not larger: a stable
      insertion for an `e` that came before every entry of `s`. */
  function Insert(e: Entry, s: seq<Entry>): seq<Entry>
  {
    if s == [] || s[0].1 <= e.1 then [e] + s else [s[0]] + Insert(e, s[1..])
  }

  /** `sorted(entries, key=count, reverse=True)`, which is stable. */
  function SortByCount(t: seq<Entry>): seq<Entry>
  {
    if t == [] then [] else Insert(t[0], SortByCount(t[1..]))
  }

  /** The slice `[:n]` as `heapq.nlargest` returns it: empty for `n <= 0`. */
  function Take(s: seq<Entry>, n: int): seq<Entry>
  {
    if n <= 0 then [] else if n >= |s| then s else s[..n]
  }

  function MostCommon(t: seq<Entry>, n: int): seq<Entry>
  {
    Take(SortByCount(t), n)
  }

  lemma {:induction false} LocalToGlobal(s: seq<Entry>, users: seq<string>)
    requires NeighboursDescend(s) && NeighbourTiesInVoteOrder(s, users)
    ensures Descending(s) && TiesInVoteOrder(s, users)
  {
    if s != [] {
      var s' := s[1..];
      assert NeighboursDescend(s') by {
        forall i | 0 < i < |s'| ensures s'[i - 1].1 >= s'[i].1 {
          assert s'[i - 1] == s[i] && s'[i] == s[i + 1];
        }
      }
      assert NeighbourTiesInVoteOrder(s', users) by {
        forall i | 0 < i < |s'| && s'[i - 1].1 == s'[i].1
          ensures Seen(users, s'[i - 1].0) < Seen(users, s'[i].0)
        {
          assert s'[i - 1] == s[i] && s'[i] == s[i + 1];
        }
      }
      LocalToGlobal(s', users);
      forall j | 0 < j < |s| ensures s[0].1 >= s[j].1 {
        if j > 1 {
          assert s'[0] == s[1] && s'[j - 1] == s[j];
        }
      }
      forall i, j | 0 <= i < j < |s| ensures s[i].1 >= s[j].1 {
        if i > 0 {
          assert s'[i - 1] == s[i] && s'[j - 1] == s[j];
        }
      }
      forall j | 0 < j < |s| && s[0].1 == s[j].1 ensures Seen(users, s[0].0) < Seen(users, s[j].0) {
        if j > 1 {
          assert s'[0] == s[1] && s'[j - 1] == s[j];
          assert s[1].1 == s[0].1;
        }
      }
      forall i, j | 0 <= i < j < |s| && s[i].1 == s[j].1 ensures Seen(users, s[i].0) < Seen(users, s[j].0) {
        if i > 0 {
          assert s'[i - 1] == s[i] && s'[j - 1] == s[j];
        }
      }
    }
  }

  lemma {:induction false} InsertPermutes(e: Entry, s: seq<Entry>)
    ensures multiset(Insert(e, s)) == multiset(s) + multiset{e}
    ensures |Insert(e, s)| == |s| + 1
    ensures Total(Insert(e, s)) == e.1 + Total(s)
  {
    if !(s == [] || s[0].1 <= e.1) {
      InsertPermutes(e, s[1..]);
      assert s == [s[0]] + s[1..];
    }
  }

  /** Every entry of `Insert(e, s)` is `e` or an entry of `s`. */
  lemma {:induction false} InsertMember(e: Entry, s: seq<Entry>, k: nat)
    requires k < |s| + 1
    ensures |Insert(e, s)| == |s| + 1
    ensures Insert(e, s)[k] == e || exists m :: 0 <= m < |s| && s[m] == Insert(e, s)[k]
  {
    InsertPermutes(e, s);
    if s == [] || s[0].1 <= e.1 {
      if k > 0 {
        assert Insert(e, s)[k] == s[k - 1];
      }
    } else if k > 0 {
      InsertMember(e, s[1..], k - 1);
      if Insert(e, s)[k] != e {
        var m :| 0 <= m < |s[1..]| && s[1..][m] == Insert(e, s[1..])[k - 1];
        assert s[m + 1] == Insert(e, s)[k];
      }
    }
  }

  /** The first entry of an insertion. */
  lemma InsertHead(e: Entry, s: seq<Entry>)
    ensures Insert(e, s) != []
    ensures Insert(e, s)[0] == if s == [] || s[0].1 <= e.1 then e else s[0]
  {
  }

  lemma {:induction false} ConsDescends(x: Entry, r: seq<Entry>)
    requires NeighboursDescend(r) && (r != [] ==> x.1 >= r[0].1)
    ensures NeighboursDescend([x] + r)
  {
    var xr := [x] + r;
    forall i | 0 < i < |xr| ensures xr[i - 1].1 >= xr[i].1 {
      if i > 1 {
        assert xr[i - 1] == r[i - 2] && xr[i] == r[i - 1];
      }
    }
  }

  lemma {:induction false} ConsKeepsTies(x: Entry, r: seq<Entry>, users: seq<string>)
    requires NeighbourTiesInVoteOrder(r, users)
    requires r != [] && x.1 == r[0].1 ==> Seen(users, x.0) < Seen(users, r[0].0)
    ensures NeighbourTiesInVoteOrder([x] + r, users)
  {
    var xr := [x] + r;
    forall i | 0 < i < |xr| && xr[i - 1].1 == xr[i].1 ensures Seen(users, xr[i - 1].0) < Seen(users, xr[i].0) {
      if i > 1 {
        assert xr[i - 1] == r[i - 2] && xr[i] == r[i - 1];
      }
    }
  }

  /** The tail of an ordered sequence keeps the order. */
  lemma TailDescends(s: seq<Entry>)
    requires s != [] && NeighboursDescend(s)
    ensures NeighboursDescend(s[1..])
  {
    var s' := s[1..];
    forall i | 0 < i < |s'| ensures s'[i - 1].1 >= s'[i].1 {
      assert s'[i - 1] == s[i] && s'[i] == s[i + 1];
    }
  }

  lemma TailKeepsTies(s: seq<Entry>, users: seq<string>)
    requires s != [] && NeighbourTiesInVoteOrder(s, users)
    ensures NeighbourTiesInVoteOrder(s[1..], users)
  {
    var s' := s[1..];
    forall i | 0 < i < |s'| && s'[i - 1].1 == s'[i].1 ensures Seen(users, s'[i - 1].0) < Seen(users, s'[i].0) {
      assert s'[i - 1] == s[i] && s'[i] == s[i + 1];
    }
  }

  lemma {:induction false} InsertDescends(e: Entry, s: seq<Entry>)
    requires NeighboursDescend(s)
    ensures NeighboursDescend(Insert(e, s))
  {
    if s == [] || s[0].1 <= e.1 {
      ConsDescends(e, s);
    } else {
      TailDescends(s);
      InsertDescends(e, s[1..]);
      InsertHead(e, s[1..]);
      ConsDescends(s[0], Insert(e, s[1..]));
    }
  }

  lemma {:induction false} InsertKeepsTies(e: Entry, s: seq<Entry>, users: seq<string>)
    requires NeighbourTiesInVoteOrder(s, users)
    requires forall k :: 0 <= k < |s| ==> Seen(users, e.0) < Seen(users, s[k].0)
    ensures NeighbourTiesInVoteOrder(Insert(e, s), users)
  {
    if s == [] || s[0].1 <= e.1 {
      ConsKeepsTies(e, s, users);
    } else {
      var s' := s[1..];
      TailKeepsTies(s, users);
      forall k | 0 <= k < |s'| ensures Seen(users, e.0) < Seen(users, s'[k].0) {
        assert s'[k] == s[k + 1];
      }
      InsertKeepsTies(e, s', users);
      InsertHead(e, s');
      if s' != [] {
        assert s'[0] == s[1];
      }
      ConsKeepsTies(s[0], Insert(e, s'), users);
    }
  }

  lemma {:induction false} InsertDistinct(e: Entry, s: seq<Entry>)
    requires DistinctKeys(s) && !HasKey(s, e.0)
    ensures DistinctKeys(Insert(e, s))
  {
    if !(s == [] || s[0].1 <= e.1) {
      var r := Insert(e, s[1..]);
      InsertDistinct(e, s[1..]);
      InsertPermutes(e, s[1..]);
      assert Insert(e, s) == [s[0]] + r;
      forall k | 0 <= k < |r| ensures s[0].0 != r[k].0 {
        InsertMember(e, s[1..], k);
        if r[k] != e {
          var m :| 0 <= m < |s[1..]| && s[1..][m] == r[k];
          assert s[m + 1] == r[k];
        }
      }
      forall i, j | 0 <= i < j < |r| + 1 ensures ([s[0]] + r)[i].0 != ([s[0]] + r)[j].0 {
        if i > 0 {
          assert ([s[0]] + r)[i] == r[i - 1];
        }
        assert ([s[0]] + r)[j] == r[j - 1];
      }
    } else {
      forall k | 0 <= k < |s| ensures e.0 != s[k].0 {
      }
    }
  }

  /** Sorting keeps exactly the entries. */
  lemma {:induction false} SortPermutes(t: seq<Entry>)
    ensures multiset(SortByCount(t)) == multiset(t)
    ensures |SortByCount(t)| == |t| && Total(SortByCount(t)) == Total(t)
  {
    if t != [] {
      SortPermutes(t[1..]);
      InsertPermutes(t[0], SortByCount(t[1..]));
      assert t == [t[0]] + t[1..];
    }
  }

  /** Every sorted entry is an entry of the input. */
  lemma SortMember(t: seq<Entry>, k: nat)
    requires k < |SortByCount(t)|
    ensures exists m :: 0 <= m < |t| && t[m] == SortByCount(t)[k]
  {
    SortPermutes(t);
    assert SortByCount(t)[k] in multiset(t);
  }

  lemma {:induction false} SortDistinct(t: seq<Entry>)
    requires DistinctKeys(t)
    ensures DistinctKeys(SortByCount(t))
  {
    if t != [] {
      var rest := SortByCount(t[1..]);
      SortDistinct(t[1..]);
      forall k | 0 <= k < |rest| ensures rest[k].0 != t[0].0 {
        SortMember(t[1..], k);
        var m :| 0 <= m < |t[1..]| && t[1..][m] == rest[k];
        assert t[m + 1] == rest[k];
      }
      InsertDistinct(t[0], rest);
    }
  }

  lemma {:induction false} SortDescendsLocally(t: seq<Entry>)
    ensures NeighboursDescend(SortByCount(t))
  {
    if t != [] {
      SortDescendsLocally(t[1..]);
      InsertDescends(t[0], SortByCount(t[1..]));
    }
  }

  lemma {:induction false} SortKeepsTiesLocally(t: seq<Entry>, users: seq<string>)
    requires InVoteOrder(t, users)
    ensures NeighbourTiesInVoteOrder(SortByCount(t), users)
  {
    if t != [] {
      var rest := SortByCount(t[1..]);
      assert InVoteOrder(t[1..], users) by {
        forall i, j | 0 <= i < j < |t[1..]| ensures Seen(users, t[1..][i].0) < Seen(users, t[1..][j].0) {
          assert t[1..][i] == t[i + 1] && t[1..][j] == t[j + 1];
        }
      }
      SortKeepsTiesLocally(t[1..], users);
      forall k | 0 <= k < |rest| ensures Seen(users, t[0].0) < Seen(users, rest[k].0) {
        SortMember(t[1..], k);
        var m :| 0 <= m < |t[1..]| && t[1..][m] == rest[k];
        assert t[m + 1] == rest[k];
      }
      InsertKeepsTies(t[0], rest, users);
    }
  }

  /** Sorting orders the entries by count, largest first, and is stable:
      among equal counts the input order survives. */
  lemma SortOrders(t: seq<Entry>, users: seq<string>)
    requires InVoteOrder(t, users)
    ensures Descending(SortByCount(t)) && TiesInVoteOrder(SortByCount(t), users)
  {
    SortDescendsLocally(t);
    SortKeepsTiesLocally(t, users);
    LocalToGlobal(SortByCount(t), users);
  }

  lemma {:induction false} TotalPrefix(s: seq<Entry>, n: nat)
    requires n <= |s|
    ensures Total(s[..n]) <= Total(s)
  {
    if n > 0 {
      assert s[..n][1..] == s[1..][..n - 1];
      TotalPrefix(s[1..], n - 1);
    }
  }

  /** The sorted counter of `users`: every voter once, with their number of
      votes, counts non-increasing, ties in first-vote order. */
  ghost predicate IsRankingOf(s: seq<Entry>, users: seq<string>)
  {
    && DistinctKeys(s)
    && (forall i :: 0 <= i < |s| ==> s[i].0 in users && s[i].1 == multiset(users)[s[i].0])
    && (forall u :: u in users ==> HasKey(s, u))
    && Descending(s)
    && TiesInVoteOrder(s, users)
    && Total(s) == |users|
    && |s| == |set x | x in users|
  }

  lemma SortedTallyEntries(users: seq<string>)
    ensures forall i :: 0 <= i < |SortByCount(Tally(users))| ==>
      SortByCount(Tally(users))[i].0 in users &&
      SortByCount(Tally(users))[i].1 == multiset(users)[SortByCount(Tally(users))[i].0]
    ensures forall u :: u in users ==> HasKey(SortByCount(Tally(users)), u)
  {
    var t := Tally(users);
    var s := SortByCount(t);
    TallyFacts(users);
    SortPermutes(t);
    forall i | 0 <= i < |s| ensures s[i].0 in users && s[i].1 == multiset(users)[s[i].0] {
      SortMember(t, i);
    }
    forall u | u in users ensures HasKey(s, u) {
      var m :| 0 <= m < |t| && t[m].0 == u;
      assert t[m] in multiset(s);
      var i :| 0 <= i < |s| && s[i] == t[m];
    }
  }

  lemma SortedTally(users: seq<string>)
    ensures IsRankingOf(SortByCount(Tally(users)), users)
  {
    var t := Tally(users);
    TallyFacts(users);
    TallyLength(users);
    SortPermutes(t);
    SortDistinct(t);
    assert InVoteOrder(t, users) by {
      forall i, j | 0 <= i < j < |t| ensures Seen(users, t[i].0) < Seen(users, t[j].0) {
      }
    }
    SortOrders(t, users);
    SortedTallyEntries(users);
  }

  /** Each entry of `most_common(n)` is a voter with exactly their number of
      votes, no author twice, and the counts add up to at most the number of votes. */
  lemma {:induction false} MostCommonCounts(users: seq<string>, n: int)
    ensures DistinctKeys(MostCommon(Tally(users), n))
    ensures forall i :: 0 <= i < |MostCommon(Tally(users), n)| ==>
      MostCommon(Tally(users), n)[i].0 in users &&
      MostCommon(Tally(users), n)[i].1 == multiset(users)[MostCommon(Tally(users), n)[i].0]
    ensures Total(MostCommon(Tally(users), n)) <= |users|
  {
    var s := SortByCount(Tally(users));
    SortedTally(users);
    if 0 < n < |s| {
      TotalPrefix(s, n);
    }
  }

  /** Counts are non-increasing, and authors with equal counts appear in the
      order of their first vote. */
  lemma {:induction false} MostCommonOrder(users: seq<string>, n: int)
    ensures Descending(MostCommon(Tally(users), n))
    ensures forall i, j | 0 <= i < j < |MostCommon(Tally(users), n)| ::
      (MostCommon(Tally(users), n)[i].1 == MostCommon(Tally(users), n)[j].1 ==>
        MostCommon(Tally(users), n)[i].0 in users && MostCommon(Tally(users), n)[j].0 in users &&
        FirstIndex(users, MostCommon(Tally(users), n)[i].0) < FirstIndex(users, MostCommon(Tally(users), n)[j].0))
  {
    SortedTally(users);
    TakeOrder(SortByCount(Tally(users)), users, n);
  }

  lemma {:induction false} TakeOrder(s: seq<Entry>, users: seq<string>, n: int)
    requires IsRankingOf(s, users)
    ensures Descending(Take(s, n))
    ensures forall i, j | 0 <= i < j < |Take(s, n)| ::
      (Take(s, n)[i].1 == Take(s, n)[j].1 ==>
        Take(s, n)[i].0 in users && Take(s, n)[j].0 in users &&
        FirstIndex(users, Take(s, n)[i].0) < FirstIndex(users, Take(s, n)[j].0))
  {
    var r := Take(s, n);
    assert forall k | 0 <= k < |r| :: r[k] == s[k];
  }

  /** `min(n, number of distinct voters)` entries, none when `n <= 0`. */
  lemma {:induction false} MostCommonLength(users: seq<string>, n: int)
    ensures |MostCommon(Tally(users), n)| ==
      if n <= 0 then 0 else if n < |set x | x in users| then n else |set x | x in users|
  {
    SortedTally(users);
  }

  /** A voter left out of `most_common(n)` only when `n` entries are
      already there, each with at least as many votes, and those with just
      as many voted first. */
  lemma {:induction false} MostCommonComplete(users: seq<string>, n: int, u: string)
    requires u in users && !HasKey(MostCommon(Tally(users), n), u)
    ensures n > 0 ==> |MostCommon(Tally(users), n)| == n
    ensures forall i | 0 <= i < |MostCommon(Tally(users), n)| ::
      (MostCommon(Tally(users), n)[i].1 >= multiset(users)[u] &&
       MostCommon(Tally(users), n)[i].0 in users &&
       (MostCommon(Tally(users), n)[i].1 == multiset(users)[u] ==>
         FirstIndex(users, MostCommon(Tally(users), n)[i].0) < FirstIndex(users, u)))
  {
    SortedTally(users);
    TakeComplete(SortByCount(Tally(users)), users, n, u);
  }

  lemma {:induction false} TakeComplete(s: seq<Entry>, users: seq<string>, n: int, u: string)
    requires IsRankingOf(s, users)
    requires u in users && !HasKey(Take(s, n), u)
    ensures n > 0 ==> |Take(s, n)| == n
    ensures forall i | 0 <= i < |Take(s, n)| ::
      (Take(s, n)[i].1 >= multiset(users)[u] && Take(s, n)[i].0 in users &&
       (Take(s, n)[i].1 == multiset(users)[u] ==> FirstIndex(users, Take(s, n)[i].0) < FirstIndex(users, u)))
  {
    var r := Take(s, n);
    var k :| 0 <= k < |s| && s[k].0 == u;
    if n >= |s| {
      assert false;
    } else if 0 < n && k < n {
      assert false;
    } else if 0 < n {
      assert r == s[..n];
      forall i | 0 <= i < |r|
        ensures r[i].1 >= multiset(users)[u] && r[i].0 in users
        ensures r[i].1 == multiset(users)[u] ==> FirstIndex(users, r[i].0) < FirstIndex(users, u)
      {
        assert r[i] == s[i];
        assert s[i].1 >= s[k].1;
        if s[i].1 == s[k].1 {
          assert Seen(users, s[i].0) < Seen(users, s[k].0);
        }
      }
    }
  }

  /** A shorter ranking is a prefix of a longer one. */
  lemma {:induction false} MostCommonPrefix(t: seq<Entry>, n: int, m: int)
    requires n <= m
    ensures MostCommon(t, n) <= MostCommon(t, m)
  {
  }
}
