/** Leaderboard records and the ordering used to display them: a stable sort
    by non-increasing survival time, the behaviour of
    `Array.prototype.sort` with the comparator `b.time - a.time`. */
module Leaderboard {

  /** A leaderboard record; `time` is the survival time in milliseconds. */
  datatype Entry = Entry(name: string, time: int)

  predicate NonIncreasing(s: seq<Entry>) {
    forall i, j :: 0 <= i < j < |s| ==> s[i].time >= s[j].time
  }

  /** The records of `s` whose time is `t`, in their order in `s`. */
  function WithTime(s: seq<Entry>, t: int): seq<Entry> {
    if s == [] then []
    else (if s[0].time == t then [s[0]] else []) + WithTime(s[1..], t)
  }

  /** Places `e` before the first record whose time is not greater. */
  function Insert(e: Entry, s: seq<Entry>): seq<Entry> {
    if s == [] then [e]
    else if s[0].time <= e.time then [e] + s
    else [s[0]] + Insert(e, s[1..])
  }

  function SortByTime(s: seq<Entry>): seq<Entry> {
    if s == [] then [] else Insert(s[0], SortByTime(s[1..]))
  }

  lemma {:induction false} InsertSorted(e: Entry, s: seq<Entry>)
    requires NonIncreasing(s)
    ensures NonIncreasing(Insert(e, s))
    ensures |Insert(e, s)| == |s| + 1
    ensures Insert(e, s)[0] == e || Insert(e, s)[0] == s[0]
  {
    if s != [] && s[0].time > e.time {
      InsertSorted(e, s[1..]);
      var r := Insert(e, s[1..]);
      assert Insert(e, s) == [s[0]] + r;
      assert r[0] == e || r[0] == s[1..][0];
    }
  }

  /** The displayed order is sorted by non-increasing time. */
  lemma {:induction false} SortedNonIncreasing(s: seq<Entry>)
    ensures NonIncreasing(SortByTime(s))
    ensures |SortByTime(s)| == |s|
  {
    if s != [] {
      SortedNonIncreasing(s[1..]);
      InsertSorted(s[0], SortByTime(s[1..]));
    }
  }

  lemma {:induction false} InsertPermutes(e: Entry, s: seq<Entry>)
    ensures multiset(Insert(e, s)) == multiset(s) + multiset{e}
  {
    if s != [] && s[0].time > e.time {
      InsertPermutes(e, s[1..]);
      assert s == [s[0]] + s[1..];
    }
  }

  /** The displayed records are exactly the stored ones. */
  lemma {:induction false} SortPermutes(s: seq<Entry>)
    ensures multiset(SortByTime(s)) == multiset(s)
  {
    if s != [] {
      SortPermutes(s[1..]);
      InsertPermutes(s[0], SortByTime(s[1..]));
      assert s == [s[0]] + s[1..];
    }
  }

  lemma {:induction false} WithTimeAppend(a: seq<Entry>, b: seq<Entry>, t: int)
    ensures WithTime(a + b, t) == WithTime(a, t) + WithTime(b, t)
  {
    if a == [] {
      assert a + b == b;
    } else {
      var ab := a + b;
      assert ab[0] == a[0];
      assert ab[1..] == a[1..] + b;
      WithTimeAppend(a[1..], b, t);
      var head := if a[0].time == t then [a[0]] else [];
      assert WithTime(ab, t) == head + WithTime(a[1..] + b, t);
      assert WithTime(a, t) == head + WithTime(a[1..], t);
    }
  }

  lemma {:induction false} InsertStable(e: Entry, s: seq<Entry>, t: int)
    ensures WithTime(Insert(e, s), t) == WithTime([e], t) + WithTime(s, t)
  {
    if s == [] {
    } else if s[0].time <= e.time {
      WithTimeAppend([e], s, t);
    } else {
      InsertStable(e, s[1..], t);
      WithTimeAppend([s[0]], Insert(e, s[1..]), t);
      WithTimeAppend([s[0]], s[1..], t);
      assert s == [s[0]] + s[1..];
      assert [e][1..] == [];
    }
  }

  /** The sort is stable: records with equal times keep their relative
      order, so the earlier explosion is listed first among equal times. */
  lemma {:induction false} SortStable(s: seq<Entry>, t: int)
    ensures WithTime(SortByTime(s), t) == WithTime(s, t)
  {
    if s != [] {
      SortStable(s[1..], t);
      InsertStable(s[0], SortByTime(s[1..]), t);
      WithTimeAppend([s[0]], s[1..], t);
      assert s == [s[0]] + s[1..];
    }
  }

  /** Sorting an already displayed leaderboard again leaves it as it is. */
  lemma {:induction false} SortIdempotent(s: seq<Entry>)
    requires NonIncreasing(s)
    ensures SortByTime(s) == s
  {
    if s != [] {
      assert NonIncreasing(s[1..]) by {
        forall i, j | 0 <= i < j < |s| - 1 ensures s[1..][i].time >= s[1..][j].time {
          assert s[1..][i] == s[i + 1] && s[1..][j] == s[j + 1];
        }
      }
      SortIdempotent(s[1..]);
      if |s| > 1 {
        assert s[1..][0] == s[1];
      }
    }
  }
}
