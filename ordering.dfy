/** The ordering step of one cycle (orpheus.py, line 174): the torrent list
    sorted ascending by score with Python's stable `list.sort`. The library's
    algorithm is not part of this model; `SortByScore` is a reference stable
    insertion sort whose result is proved sorted, a permutation of its input,
    and stable (torrents with equal scores keep their relative order). */
module Ordering {
  import opened Torrents

  /** Ascending by score. */
  ghost predicate SortedByScore(s: seq<Torrent>)
  {
    forall i, j :: 0 <= i < j < |s| ==> s[i].score <= s[j].score
  }

  /** The torrents of `s` whose score is `k`, in their order in `s`. */
  function WithScore(s: seq<Torrent>, k: real): seq<Torrent>
  {
    if s == [] then []
    else (if s[0].score == k then [s[0]] else []) + WithScore(s[1..], k)
  }

  /** Puts `t` in front of the first torrent whose score is not below its own. */
  function Insert(t: Torrent, s: seq<Torrent>): (r: seq<Torrent>)
    ensures |r| == |s| + 1
  {
    if s == [] then [t]
    else if t.score <= s[0].score then [t] + s
    else [s[0]] + Insert(t, s[1..])
  }

  /** The list as `list.sort(key=score)` leaves it. */
  function SortByScore(s: seq<Torrent>): (r: seq<Torrent>)
    ensures |r| == |s|
  {
    if s == [] then [] else Insert(s[0], SortByScore(s[1..]))
  }

  lemma {:induction false} InsertPermutes(t: Torrent, s: seq<Torrent>)
    ensures multiset(Insert(t, s)) == multiset(s) + multiset{t}
  {
    if s != [] && t.score > s[0].score {
      InsertPermutes(t, s[1..]);
      assert s == [s[0]] + s[1..];
    }
  }

  lemma {:induction false} InsertAtLeast(t: Torrent, s: seq<Torrent>, b: real)
    requires b <= t.score
    requires forall i :: 0 <= i < |s| ==> b <= s[i].score
    ensures forall i :: 0 <= i < |Insert(t, s)| ==> b <= Insert(t, s)[i].score
  {
    if s != [] && t.score > s[0].score {
      InsertAtLeast(t, s[1..], b);
    }
  }

  lemma {:induction false} InsertSorted(t: Torrent, s: seq<Torrent>)
    requires SortedByScore(s)
    ensures SortedByScore(Insert(t, s))
  {
    if s != [] && t.score > s[0].score {
      var rest := Insert(t, s[1..]);
      InsertSorted(t, s[1..]);
      InsertAtLeast(t, s[1..], s[0].score);
      var r := [s[0]] + rest;
      forall i, j | 0 <= i < j < |r| ensures r[i].score <= r[j].score {
        assert r[j] == rest[j - 1];
        if i > 0 {
          assert r[i] == rest[i - 1];
        }
      }
    }
  }

  /** Inserting `t` adds it to its own score class only, in front of the
      torrents already there: the insertion is stable. */
  lemma {:induction false} InsertStable(t: Torrent, s: seq<Torrent>, k: real)
    ensures WithScore(Insert(t, s), k) == (if t.score == k then [t] else []) + WithScore(s, k)
  {
    if s == [] {
      assert WithScore([t], k) == (if t.score == k then [t] else []) + WithScore([], k) by {
        assert [t][1..] == [];
      }
    } else if t.score <= s[0].score {
      assert ([t] + s)[0] == t && ([t] + s)[1..] == s;
    } else {
      var r := [s[0]] + Insert(t, s[1..]);
      InsertStable(t, s[1..], k);
      assert r[0] == s[0] && r[1..] == Insert(t, s[1..]);
      assert WithScore(r, k) == (if s[0].score == k then [s[0]] else []) + WithScore(Insert(t, s[1..]), k);
      assert WithScore(s, k) == (if s[0].score == k then [s[0]] else []) + WithScore(s[1..], k);
      assert t.score == k ==> s[0].score != k;
    }
  }

  /** The sort result is ascending by score. */
  lemma {:induction false} SortSorted(s: seq<Torrent>)
    ensures SortedByScore(SortByScore(s))
  {
    if s != [] {
      SortSorted(s[1..]);
      InsertSorted(s[0], SortByScore(s[1..]));
    }
  }

  /** The sort result holds the same torrents, each as often. */
  lemma {:induction false} SortPermutes(s: seq<Torrent>)
    ensures multiset(SortByScore(s)) == multiset(s)
  {
    if s != [] {
      SortPermutes(s[1..]);
      InsertPermutes(s[0], SortByScore(s[1..]));
      assert s == [s[0]] + s[1..];
    }
  }

  /** Stability: for every score, the torrents with that score appear in the
      result in the same order as in the input. */
  lemma {:induction false} SortStable(s: seq<Torrent>, k: real)
    ensures WithScore(SortByScore(s), k) == WithScore(s, k)
  {
    if s != [] {
      SortStable(s[1..], k);
      InsertStable(s[0], SortByScore(s[1..]), k);
    }
  }

  /** What the reclamation pass receives: the scored list, sorted, permuted
      and stable. */
  lemma SortByScoreSpec(s: seq<Torrent>)
    ensures |SortByScore(s)| == |s|
    ensures SortedByScore(SortByScore(s))
    ensures multiset(SortByScore(s)) == multiset(s)
    ensures forall k :: WithScore(SortByScore(s), k) == WithScore(s, k)
  {
    SortSorted(s);
    SortPermutes(s);
    assert |multiset(SortByScore(s))| == |multiset(s)|;
    forall k ensures WithScore(SortByScore(s), k) == WithScore(s, k) {
      SortStable(s, k);
    }
  }

  lemma {:induction false} WithScoreMembers(s: seq<Torrent>, k: real)
    ensures forall x :: x in WithScore(s, k) <==> x in s && x.score == k
  {
    if s != [] {
      WithScoreMembers(s[1..], k);
      assert s == [s[0]] + s[1..];
    }
  }

  /** A stable ascending sort has only one possible result: any list that is
      sorted by score and keeps every score class in input order is the one
      `SortByScore` computes, so the reference sort stands for `list.sort`
      whatever algorithm the library uses. */
  lemma {:induction false} StableSortUnique(a: seq<Torrent>, b: seq<Torrent>)
    requires SortedByScore(a) && SortedByScore(b)
    requires forall k :: WithScore(a, k) == WithScore(b, k)
    ensures a == b
    decreases |a|
  {
    if a == [] || b == [] {
      if a != [] {
        WithScoreMembers(a, a[0].score);
        WithScoreMembers(b, a[0].score);
        assert false;
      } else if b != [] {
        WithScoreMembers(a, b[0].score);
        WithScoreMembers(b, b[0].score);
        assert false;
      }
    } else {
      var x, y := a[0], b[0];
      WithScoreMembers(a, y.score);
      WithScoreMembers(b, y.score);
      WithScoreMembers(a, x.score);
      WithScoreMembers(b, x.score);
      assert y in WithScore(b, y.score);
      assert x in WithScore(a, x.score);
      assert x.score == y.score;
      var m := x.score;
      assert WithScore(a, m) == [x] + WithScore(a[1..], m);
      assert WithScore(b, m) == [y] + WithScore(b[1..], m);
      assert WithScore(a, m) == WithScore(b, m);
      assert WithScore(a, m)[0] == x && WithScore(b, m)[0] == y;
      forall k ensures WithScore(a[1..], k) == WithScore(b[1..], k) {
        if k == m {
          assert WithScore(a[1..], k) == WithScore(a, k)[1..];
          assert WithScore(b[1..], k) == WithScore(b, k)[1..];
        } else {
          assert WithScore(a[1..], k) == WithScore(a, k);
          assert WithScore(b[1..], k) == WithScore(b, k);
        }
      }
      StableSortUnique(a[1..], b[1..]);
      assert a == [x] + a[1..] && b == [y] + b[1..];
    }
  }

  /** Whatever stable sort produced `r` from `s`, it is `SortByScore(s)`. */
  lemma StableSortIsSortByScore(s: seq<Torrent>, r: seq<Torrent>)
    requires SortedByScore(r)
    requires forall k :: WithScore(r, k) == WithScore(s, k)
    ensures r == SortByScore(s)
  {
    SortByScoreSpec(s);
    StableSortUnique(r, SortByScore(s));
  }
}
