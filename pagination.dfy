/** Stateless cursor pagination over a ranked view of the log.

    A pull at `cursor` with page size `limit` asks the log for the inclusive rank
    window [cursor, cursor + limit], one rank more than a page. The extra rank is a
    probe: when it exists there is more to read and it is dropped from the page. The
    next cursor is always cursor + limit. The functions here say what a pull should
    deliver; the lemmas show that following the cursors reads the view exactly once.
 */
module Pagination {
  import opened SortedLog

  /** There is more to read: some rank at or beyond cursor + limit exists, that is,
      strictly more than `limit` ranks exist at or after the cursor. */
  predicate HasMore(n: nat, cursor: nat, limit: nat)
  {
    cursor + limit < n
  }

  /** The ranks of one page: cursor .. cursor + limit - 1, as far as they exist. */
  function Page<X>(v: seq<X>, cursor: nat, limit: nat): (p: seq<X>)
    ensures |p| == if cursor < |v| then Min(limit, |v| - cursor) else 0
    ensures forall i :: 0 <= i < |p| ==> p[i] == v[cursor + i]
  {
    v[Min(cursor, |v|) .. Min(cursor + limit, |v|)]
  }

  /** A page is full exactly when there is more to read, and is then `limit` long. */
  lemma PageFullWhenMore<X>(v: seq<X>, cursor: nat, limit: nat)
    ensures HasMore(|v|, cursor, limit) ==> |Page(v, cursor, limit)| == limit
    ensures !HasMore(|v|, cursor, limit) ==> Page(v, cursor, limit) == v[Min(cursor, |v|)..]
  {
  }

  /** Dropping the probe from the requested window gives the page: the window holds
      limit + 1 ranks exactly when there is more to read, and the page is its first
      `limit` ranks then and the whole window otherwise. */
  lemma {:induction false} TrimmedWindowIsPage<X>(v: seq<X>, cursor: nat, limit: nat)
    ensures |RankWindow(v, cursor, cursor + limit)| == limit + 1 <==> HasMore(|v|, cursor, limit)
    ensures HasMore(|v|, cursor, limit) ==> RankWindow(v, cursor, cursor + limit)[..limit] == Page(v, cursor, limit)
    ensures !HasMore(|v|, cursor, limit) ==> RankWindow(v, cursor, cursor + limit) == Page(v, cursor, limit)
  {
    var w := RankWindow(v, cursor, cursor + limit);
    var p := Page(v, cursor, limit);
    if HasMore(|v|, cursor, limit) {
      assert |w[..limit]| == |p|;
      assert forall i :: 0 <= i < limit ==> w[..limit][i] == p[i];
    } else {
      assert |w| == |p|;
      assert forall i :: 0 <= i < |w| ==> w[i] == p[i];
    }
  }

  /** With limit 0 a pull is a probe: the page is empty and has_more says whether the
      rank at the cursor exists. */
  lemma ZeroLimitProbes<X>(v: seq<X>, cursor: nat)
    ensures Page(v, cursor, 0) == []
    ensures HasMore(|v|, cursor, 0) <==> cursor < |v|
  {
  }

  /** Two successive pages, the second at the first's next cursor, are one longer page:
      they neither overlap nor leave a gap. */
  lemma PagesTile<X>(v: seq<X>, cursor: nat, a: nat, b: nat)
    ensures Page(v, cursor, a) + Page(v, cursor + a, b) == Page(v, cursor, a + b)
  {
    var lo, mid, hi := Min(cursor, |v|), Min(cursor + a, |v|), Min(cursor + a + b, |v|);
    assert Min(cursor + a, |v|) == mid;
    assert v[lo..mid] + v[mid..hi] == v[lo..hi];
  }

  /** Appending to the log leaves every page that lies wholly inside the old log as
      it was: an ascending read of an append-only log is stable. */
  lemma AppendKeepsPage<X>(v: seq<X>, extra: seq<X>, cursor: nat, limit: nat)
    requires cursor + limit <= |v|
    ensures Page(v + extra, cursor, limit) == Page(v, cursor, limit)
  {
    assert Page(v + extra, cursor, limit) == (v + extra)[cursor .. cursor + limit];
  }

  /** A full page read before an append and the next page read after it tile the
      grown log with no overlap and no gap. */
  lemma {:induction false} PagesTileAcrossAppend<X>(v: seq<X>, extra: seq<X>, cursor: nat, a: nat, b: nat)
    requires cursor + a <= |v|
    ensures Page(v, cursor, a) + Page(v + extra, cursor + a, b) == Page(v + extra, cursor, a + b)
  {
    AppendKeepsPage(v, extra, cursor, a);
    PagesTile(v + extra, cursor, a, b);
  }

  /** Read from the highest score, an append shifts every rank by one: the first
      descending page of a one-entry log and of the same log grown by one differ. */
  lemma ReversedReadShifts<X>(x: X, y: X)
    requires x != y
    ensures Page(View([x], true), 0, 1) != Page(View([x] + [y], true), 0, 1)
  {
    assert View([x] + [y], true)[0] == y;
  }

  /** After a short page the next cursor lies past the end of the log; an entry
      appended into that gap is never on the page read at the next cursor. */
  lemma ShortPageThenAppendSkips<X>(x: X, y: X)
    ensures !HasMore(|[x]|, 0, 2)
    ensures Page([x] + [y], 2, 2) == []
    ensures ([x] + [y])[1] == y
  {
  }

  /** Everything a client reads starting at `cursor`, following next_cursor while
      has_more is set. The limit must be positive: with limit 0 at a cursor inside the
      log, has_more is set and next_cursor is the cursor itself, so the client never
      finishes. */
  function Drain<X>(v: seq<X>, cursor: nat, limit: nat): seq<X>
    requires limit > 0
    decreases |v| - cursor
  {
    if HasMore(|v|, cursor, limit) then Page(v, cursor, limit) + Drain(v, cursor + limit, limit)
    else Page(v, cursor, limit)
  }

  /** Following the cursors reads every rank from the starting cursor on, each once,
      in order. */
  lemma {:induction false} DrainReadsSuffix<X>(v: seq<X>, cursor: nat, limit: nat)
    requires limit > 0
    ensures Drain(v, cursor, limit) == v[Min(cursor, |v|)..]
    decreases |v| - cursor
  {
    if HasMore(|v|, cursor, limit) {
      DrainReadsSuffix(v, cursor + limit, limit);
      assert Min(cursor + limit, |v|) == cursor + limit && Min(cursor, |v|) == cursor;
      assert Page(v, cursor, limit) == v[cursor .. cursor + limit];
      assert v[cursor..] == v[cursor .. cursor + limit] + v[cursor + limit..];
    } else {
      assert Min(cursor + limit, |v|) == |v|;
      assert Page(v, cursor, limit) == v[Min(cursor, |v|)..];
    }
  }
}
