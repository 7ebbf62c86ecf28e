/** The ordered log behind the message store: a sorted set per key.

    Each key holds a sequence of entries ordered by a numeric score. Appending
    inserts an entry at a rank that keeps the scores non-decreasing; reading takes
    an inclusive window of ranks, counted from the lowest score or, reversed, from
    the highest. The order among entries of equal score is left unspecified.
 */
module SortedLog {

  /** One member of a sorted set, ranked by its score. */
  datatype Entry<T> = Entry(score: int, member: T)

  function Min(a: int, b: int): int
  {
    if a <= b then a else b
  }

  /** Scores never decrease from one rank to the next. */
  predicate Sorted<T>(s: seq<Entry<T>>)
  {
    forall i, j :: 0 <= i < j < |s| ==> s[i].score <= s[j].score
  }

  /** Scores never increase from one rank to the next. */
  predicate SortedDescending<T>(s: seq<Entry<T>>)
  {
    forall i, j :: 0 <= i < j < |s| ==> s[i].score >= s[j].score
  }

  /** `t` is `s` with `x` put in at rank `i`, everything else in its old order. */
  ghost predicate InsertedAt<T>(s: seq<Entry<T>>, x: Entry<T>, t: seq<Entry<T>>, i: int)
  {
    0 <= i <= |s| && t == s[..i] + [x] + s[i..]
  }

  /** `t` is `s` with `x` put in at some rank. */
  ghost predicate IsInsertion<T>(s: seq<Entry<T>>, x: Entry<T>, t: seq<Entry<T>>)
  {
    exists i :: InsertedAt(s, x, t, i)
  }

  /** The sequence read from the other end. */
  function Reverse<X>(s: seq<X>): (r: seq<X>)
    ensures |r| == |s|
    ensures forall i :: 0 <= i < |s| ==> r[i] == s[|s| - 1 - i]
  {
    if |s| == 0 then [] else Reverse(s[1..]) + [s[0]]
  }

  /** Ranks as a range query counts them: from the lowest score, or from the highest. */
  function View<X>(s: seq<X>, rev: bool): seq<X>
  {
    if rev then Reverse(s) else s
  }

  /** Size of the inclusive rank window [start, stop] over n ranks, stop clamped to n - 1. */
  function WindowSize(n: nat, start: nat, stop: nat): (k: nat)
    ensures k <= n
    ensures k == 0 <==> start >= n || start > stop
  {
    if start <= stop && start < n then Min(stop, n - 1) - start + 1 else 0
  }

  /** The inclusive rank window [start, stop] of `v`. */
  function RankWindow<X>(v: seq<X>, start: nat, stop: nat): (w: seq<X>)
    ensures |w| == WindowSize(|v|, start, stop)
    ensures forall i :: 0 <= i < |w| ==> w[i] == v[start + i]
  {
    if start <= stop && start < |v| then v[start .. Min(stop, |v| - 1) + 1] else []
  }

  /** The members of a run of entries, in order. */
  function Members<T>(es: seq<Entry<T>>): (ms: seq<T>)
    ensures |ms| == |es|
    ensures forall i :: 0 <= i < |es| ==> ms[i] == es[i].member
  {
    seq(|es|, i requires 0 <= i < |es| => es[i].member)
  }

  /** Inserting after every smaller-or-equal score and before every larger one keeps order. */
  lemma InsertKeepsSorted<T>(s: seq<Entry<T>>, x: Entry<T>, i: nat)
    requires Sorted(s) && i <= |s|
    requires forall j :: 0 <= j < i ==> s[j].score <= x.score
    requires i < |s| ==> x.score < s[i].score
    ensures Sorted(s[..i] + [x] + s[i..])
  {
    var t := s[..i] + [x] + s[i..];
    forall p, q | 0 <= p < q < |t| ensures t[p].score <= t[q].score {
      if p < i && q == i {
      } else if p == i && i < q {
        assert t[q] == s[q - 1];
        assert s[i].score <= s[q - 1].score;
      } else if q < i {
        assert t[p] == s[p] && t[q] == s[q];
      } else if p < i {
        assert t[p] == s[p] && t[q] == s[q - 1];
      } else {
        assert t[p] == s[p - 1] && t[q] == s[q - 1];
      }
    }
  }

  /** In a sorted insertion, the entries ranked above the new one score at least as high. */
  lemma InsertedBelow<T>(s: seq<Entry<T>>, x: Entry<T>, t: seq<Entry<T>>, i: int)
    requires Sorted(t) && InsertedAt(s, x, t, i)
    ensures i == |s| || x.score <= s[i].score
  {
    if i < |s| {
      assert t[i] == x && t[i + 1] == s[i];
    }
  }

  /** A sorted log where every score is below the new one takes it at the top rank. */
  lemma {:induction false} InsertAboveAll<T>(s: seq<Entry<T>>, x: Entry<T>, t: seq<Entry<T>>)
    requires Sorted(t) && IsInsertion(s, x, t)
    requires forall j :: 0 <= j < |s| ==> s[j].score < x.score
    ensures t == s + [x]
  {
    var i :| InsertedAt(s, x, t, i);
    InsertedBelow(s, x, t, i);
    assert i == |s|;
    assert s[..i] == s && s[i..] == [];
  }

  /** An insertion adds exactly one entry and keeps all the others. */
  lemma InsertionGrows<T>(s: seq<Entry<T>>, x: Entry<T>, t: seq<Entry<T>>)
    requires IsInsertion(s, x, t)
    ensures |t| == |s| + 1
    ensures multiset(t) == multiset(s) + multiset{x}
  {
    var i :| InsertedAt(s, x, t, i);
    assert s == s[..i] + s[i..];
    assert multiset(s) == multiset(s[..i]) + multiset(s[i..]);
  }

  /** Any window of a sorted log is sorted. */
  lemma WindowOfSorted<T>(s: seq<Entry<T>>, start: nat, stop: nat)
    requires Sorted(s)
    ensures Sorted(RankWindow(s, start, stop))
  {
  }

  /** Read from the highest score, a sorted log has non-increasing scores. */
  lemma ReverseOfSorted<T>(s: seq<Entry<T>>)
    requires Sorted(s)
    ensures SortedDescending(View(s, true))
  {
  }

  /** A window that reaches past the last rank, starting at rank 0, is the whole log. */
  lemma FullWindow<X>(v: seq<X>, stop: nat)
    requires stop + 1 >= |v|
    ensures RankWindow(v, 0, stop) == v
  {
  }

  /** Reading the whole log in descending rank order is the exact reverse of reading it ascending. */
  lemma FullWindowMirrors<X>(s: seq<X>, stop: nat)
    requires stop + 1 >= |s|
    ensures RankWindow(View(s, true), 0, stop) == Reverse(RankWindow(View(s, false), 0, stop))
  {
    FullWindow(s, stop);
    FullWindow(Reverse(s), stop);
  }

  /** Rank r counted from the top is rank n - 1 - r counted from the bottom, so a
      descending window is the reverse of the mirrored ascending window. */
  lemma WindowMirrors<X>(s: seq<X>, start: nat, stop: nat)
    requires start <= stop < |s|
    ensures RankWindow(View(s, true), start, stop)
         == Reverse(RankWindow(s, |s| - 1 - stop, |s| - 1 - start))
  {
  }

  /** A key-indexed collection of sorted sets, updated in place. */
  class Log<T> {
    var sets: map<string, seq<Entry<T>>>

    /** Every key's entries are in score order. */
    ghost predicate Valid()
      reads this
    {
      forall k :: k in sets ==> Sorted(sets[k])
    }

    /** The entries under `key`; a key never written holds none. */
    function Entries(key: string): seq<Entry<T>>
      reads this
    {
      if key in sets then sets[key] else []
    }

    constructor ()
      ensures Valid() && sets == map[]
    {
      sets := map[];
    }

    /** Adds `member` under `key` with the given score, creating the key on first use. */
    method Append(key: string, score: int, member: T)
      requires Valid()
      modifies this
      ensures Valid()
      ensures IsInsertion(old(Entries(key)), Entry(score, member), Entries(key))
      ensures sets.Keys == old(sets.Keys) + {key}
      ensures forall k :: k != key ==> Entries(k) == old(Entries(k))
    {
      var s := Entries(key);
      var x := Entry(score, member);
      var i := 0;
      while i < |s| && s[i].score <= score
        invariant 0 <= i <= |s|
        invariant forall j :: 0 <= j < i ==> s[j].score <= score
      {
        i := i + 1;
      }
      InsertKeepsSorted(s, x, i);
      var t := s[..i] + [x] + s[i..];
      assert InsertedAt(s, x, t, i);
      sets := sets[key := t];
    }

    /** The members at ranks start..stop (inclusive, clamped to the last rank), counted
        from the lowest score, or from the highest when `rev` is set. */
    method Range(key: string, start: nat, stop: nat, rev: bool) returns (members: seq<T>)
      ensures |members| == WindowSize(|Entries(key)|, start, stop)
      ensures !rev ==> forall i :: 0 <= i < |members| ==> members[i] == Entries(key)[start + i].member
      ensures rev ==> forall i :: 0 <= i < |members| ==>
                members[i] == Entries(key)[|Entries(key)| - 1 - (start + i)].member
      ensures members == Members(RankWindow(View(Entries(key), rev), start, stop))
    {
      var s := Entries(key);
      var n := |s|;
      members := [];
      if start <= stop && start < n {
        var last := Min(stop, n - 1);
        var r := start;
        while r <= last
          invariant start <= r <= last + 1
          invariant |members| == r - start
          invariant forall i :: 0 <= i < |members| ==>
                      members[i] == (if rev then s[n - 1 - (start + i)] else s[start + i]).member
        {
          var e := if rev then s[n - 1 - r] else s[r];
          members := members + [e.member];
          r := r + 1;
        }
      }
    }
  }
}
