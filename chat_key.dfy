/** Canonical conversation keys.

    A raw chat identifier is a ':'-separated list of participants. The canonical key
    splits it into tokens, sorts the tokens in ordinary string order and joins them
    again, so every listing of the same participants gives the same key.
 */
module ChatKey {

  /** The delimiter between participants in a chat identifier. */
  const Sep: char := ':'

  /** Splitting on a one-character separator: n separators give n + 1 tokens,
      and the empty string gives one empty token. */
  function Split(s: string, sep: char): (r: seq<string>)
    ensures |r| >= 1
    decreases |s|
  {
    if |s| == 0 then [""]
    else if s[0] == sep then [""] + Split(s[1..], sep)
    else
      var rest := Split(s[1..], sep);
      [[s[0]] + rest[0]] + rest[1..]
  }

  /** Joining tokens with one separator between neighbours. */
  function Join(parts: seq<string>, sep: char): string
  {
    if |parts| == 0 then ""
    else if |parts| == 1 then parts[0]
    else parts[0] + [sep] + Join(parts[1..], sep)
  }

  /** No token contains the separator. */
  predicate NoSep(parts: seq<string>, sep: char)
  {
    forall i :: 0 <= i < |parts| ==> sep !in parts[i]
  }

  lemma {:induction false} SplitHasNoSep(s: string, sep: char)
    ensures NoSep(Split(s, sep), sep)
    decreases |s|
  {
    if |s| > 0 {
      SplitHasNoSep(s[1..], sep);
      var rest := Split(s[1..], sep);
      if s[0] != sep {
        assert sep !in [s[0]] + rest[0];
      }
    }
  }

  /** Joining the tokens of a split gives the string back. */
  lemma {:induction false} JoinSplit(s: string, sep: char)
    ensures Join(Split(s, sep), sep) == s
    decreases |s|
  {
    if |s| > 0 {
      JoinSplit(s[1..], sep);
      var rest := Split(s[1..], sep);
      if s[0] == sep {
        assert Split(s, sep) == [""] + rest;
        assert s == [s[0]] + s[1..];
      } else {
        var r := Split(s, sep);
        assert r[1..] == rest[1..];
        if |rest| == 1 {
          assert Join(r, sep) == [s[0]] + rest[0];
        } else {
          assert Join(rest, sep) == rest[0] + [sep] + Join(rest[1..], sep);
          assert Join(r, sep) == [s[0]] + rest[0] + [sep] + Join(rest[1..], sep);
        }
        assert s == [s[0]] + s[1..];
      }
    }
  }

  /** Splitting a token without separators, followed by the separator and more text. */
  lemma {:induction false} SplitAfterToken(t: string, sep: char, rest: string)
    requires sep !in t
    ensures Split(t + [sep] + rest, sep) == [t] + Split(rest, sep)
    decreases |t|
  {
    if |t| == 0 {
      assert t + [sep] + rest == [sep] + rest;
      assert ([sep] + rest)[1..] == rest;
    } else {
      SplitAfterToken(t[1..], sep, rest);
      var s := t + [sep] + rest;
      assert s[0] == t[0];
      assert s[1..] == t[1..] + [sep] + rest;
      assert [t[0]] + t[1..] == t;
    }
  }

  /** A token without separators splits to itself. */
  lemma {:induction false} SplitToken(t: string, sep: char)
    requires sep !in t
    ensures Split(t, sep) == [t]
    decreases |t|
  {
    if |t| > 0 {
      SplitToken(t[1..], sep);
      assert [t[0]] + t[1..] == t;
    }
  }

  /** Splitting a join of separator-free tokens gives the tokens back. */
  lemma {:induction false} SplitJoin(parts: seq<string>, sep: char)
    requires |parts| >= 1 && NoSep(parts, sep)
    ensures Split(Join(parts, sep), sep) == parts
    decreases |parts|
  {
    if |parts| == 1 {
      SplitToken(parts[0], sep);
    } else {
      SplitJoin(parts[1..], sep);
      SplitAfterToken(parts[0], sep, Join(parts[1..], sep));
      assert [parts[0]] + parts[1..] == parts;
    }
  }

  /** Ordinary (byte-wise, here code-point-wise) lexicographic order on strings. */
  predicate LessEq(a: string, b: string)
    decreases |a|
  {
    |a| == 0 || (|b| > 0 && (a[0] < b[0] || (a[0] == b[0] && LessEq(a[1..], b[1..]))))
  }

  lemma {:induction false} LessEqTotal(a: string, b: string)
    ensures LessEq(a, b) || LessEq(b, a)
    decreases |a|
  {
    if |a| > 0 && |b| > 0 && a[0] == b[0] {
      LessEqTotal(a[1..], b[1..]);
    }
  }

  lemma {:induction false} LessEqAntisymmetric(a: string, b: string)
    requires LessEq(a, b) && LessEq(b, a)
    ensures a == b
    decreases |a|
  {
    if |a| > 0 {
      LessEqAntisymmetric(a[1..], b[1..]);
      assert a == [a[0]] + a[1..] && b == [b[0]] + b[1..];
    }
  }

  lemma {:induction false} LessEqTransitive(a: string, b: string, c: string)
    requires LessEq(a, b) && LessEq(b, c)
    ensures LessEq(a, c)
    decreases |a|
  {
    if |a| > 0 && a[0] == b[0] && b[0] == c[0] {
      LessEqTransitive(a[1..], b[1..], c[1..]);
    }
  }

  predicate SortedStrings(s: seq<string>)
  {
    forall i, j :: 0 <= i < j < |s| ==> LessEq(s[i], s[j])
  }

  /** Inserting one token before the first token it does not follow. */
  function InsertToken(x: string, s: seq<string>): seq<string>
    decreases |s|
  {
    if |s| == 0 then [x]
    else if LessEq(x, s[0]) then [x] + s
    else [s[0]] + InsertToken(x, s[1..])
  }

  /** Inserting a token adds exactly that token. */
  lemma {:induction false} InsertTokenAdds(x: string, s: seq<string>)
    ensures multiset(InsertToken(x, s)) == multiset(s) + multiset{x}
    decreases |s|
  {
    if |s| > 0 && !LessEq(x, s[0]) {
      InsertTokenAdds(x, s[1..]);
      assert s == [s[0]] + s[1..];
    }
  }

  /** Inserting a token into a sorted list keeps it sorted. */
  lemma {:induction false} InsertTokenSorted(x: string, s: seq<string>)
    requires SortedStrings(s)
    ensures SortedStrings(InsertToken(x, s))
    decreases |s|
  {
    if |s| == 0 {
    } else if LessEq(x, s[0]) {
      forall j | 0 < j < |s| ensures LessEq(x, s[j]) { LessEqTransitive(x, s[0], s[j]); }
    } else {
      LessEqTotal(x, s[0]);
      var t := InsertToken(x, s[1..]);
      InsertTokenSorted(x, s[1..]);
      InsertTokenAdds(x, s[1..]);
      forall k | 0 <= k < |t| ensures LessEq(s[0], t[k]) {
        assert t[k] in multiset(t);
        assert t[k] == x || t[k] in multiset(s[1..]);
        if t[k] != x {
          var j :| 0 <= j < |s[1..]| && s[1..][j] == t[k];
          assert s[1 + j] == t[k];
        }
      }
      assert InsertToken(x, s) == [s[0]] + t;
    }
  }

  /** Insertion sort; by `SortStringsSorts` and `SortedUnique` it gives the same list as
      the standard library's string sort, whatever algorithm that uses. */
  function SortStrings(s: seq<string>): seq<string>
    decreases |s|
  {
    if |s| == 0 then [] else InsertToken(s[0], SortStrings(s[1..]))
  }

  /** Sorting yields a sorted list holding exactly the input's tokens. */
  lemma {:induction false} SortStringsSorts(s: seq<string>)
    ensures SortedStrings(SortStrings(s))
    ensures multiset(SortStrings(s)) == multiset(s)
    decreases |s|
  {
    if |s| > 0 {
      SortStringsSorts(s[1..]);
      InsertTokenSorted(s[0], SortStrings(s[1..]));
      InsertTokenAdds(s[0], SortStrings(s[1..]));
      assert s == [s[0]] + s[1..];
    }
  }

  /** The first element of a non-empty sorted list is a least element. */
  lemma HeadIsLeast(s: seq<string>, x: string)
    requires SortedStrings(s) && x in multiset(s)
    ensures LessEq(s[0], x)
  {
    var j :| 0 <= j < |s| && s[j] == x;
    if j == 0 {
      LessEqTotal(x, x);
    }
  }

  /** Two sorted lists with the same tokens (duplicates counted) are equal. */
  lemma {:induction false} SortedUnique(a: seq<string>, b: seq<string>)
    requires SortedStrings(a) && SortedStrings(b)
    requires multiset(a) == multiset(b)
    ensures a == b
    decreases |a|
  {
    if |a| == 0 {
      assert |b| == |multiset(b)| == 0;
    } else {
      assert |b| == |multiset(b)| == |multiset(a)| == |a|;
      assert a[0] in multiset(b) && b[0] in multiset(a);
      HeadIsLeast(b, a[0]);
      HeadIsLeast(a, b[0]);
      LessEqAntisymmetric(a[0], b[0]);
      MultisetOfTail(a);
      MultisetOfTail(b);
      SortedUnique(a[1..], b[1..]);
    }
  }

  lemma MultisetOfTail<X>(s: seq<X>)
    requires |s| > 0
    ensures multiset(s[1..]) == multiset(s) - multiset{s[0]}
  {
    assert s == [s[0]] + s[1..];
    assert multiset(s) == multiset([s[0]]) + multiset(s[1..]);
  }

  /** The canonical key of a raw chat identifier: split, sort, join. */
  function Normalise(chatID: string): string
  {
    Join(SortStrings(Split(chatID, Sep)), Sep)
  }

  /** The key's participants are the raw identifier's participants, duplicates
      included, in sorted order. */
  lemma NormaliseSortsTokens(chatID: string)
    ensures SortedStrings(Split(Normalise(chatID), Sep))
    ensures multiset(Split(Normalise(chatID), Sep)) == multiset(Split(chatID, Sep))
  {
    var parts := Split(chatID, Sep);
    var sorted := SortStrings(parts);
    SortStringsSorts(parts);
    SplitHasNoSep(chatID, Sep);
    NoSepOfPermutation(parts, sorted, Sep);
    SplitJoin(sorted, Sep);
  }

  /** A permutation of separator-free tokens is separator-free and as long. */
  lemma NoSepOfPermutation(a: seq<string>, b: seq<string>, sep: char)
    requires NoSep(a, sep) && multiset(a) == multiset(b)
    ensures NoSep(b, sep) && |b| == |a|
  {
    forall i | 0 <= i < |b| ensures sep !in b[i] {
      assert b[i] in multiset(a);
    }
    assert |b| == |multiset(b)| == |multiset(a)| == |a|;
  }

  /** The key does not depend on the order in which participants are listed. */
  lemma NormaliseOrderIndependent(a: seq<string>, b: seq<string>)
    requires |a| >= 1 && NoSep(a, Sep)
    requires multiset(a) == multiset(b)
    ensures Normalise(Join(a, Sep)) == Normalise(Join(b, Sep))
  {
    NoSepOfPermutation(a, b, Sep);
    SplitJoin(a, Sep);
    SplitJoin(b, Sep);
    SortStringsSorts(a);
    SortStringsSorts(b);
    SortedUnique(SortStrings(a), SortStrings(b));
  }

  /** Normalising a key that is already canonical changes nothing. */
  lemma NormaliseIdempotent(chatID: string)
    ensures Normalise(Normalise(chatID)) == Normalise(chatID)
  {
    var parts := Split(Normalise(chatID), Sep);
    NormaliseSortsTokens(chatID);
    SortStringsSorts(parts);
    SortedUnique(SortStrings(parts), parts);
    JoinSplit(Normalise(chatID), Sep);
  }

  /** The canonical key is exactly as long as the raw identifier. */
  lemma NormalisePreservesLength(chatID: string)
    ensures |Normalise(chatID)| == |chatID|
  {
    var parts := Split(chatID, Sep);
    var sorted := SortStrings(parts);
    SortStringsSorts(parts);
    SplitHasNoSep(chatID, Sep);
    NoSepOfPermutation(parts, sorted, Sep);
    JoinSplit(chatID, Sep);
    JoinLength(parts, Sep);
    JoinLength(sorted, Sep);
    TotalLengthOfPermutation(parts, sorted);
  }

  /** Total length of the tokens. */
  function TotalLength(parts: seq<string>): nat
  {
    if |parts| == 0 then 0 else |parts[0]| + TotalLength(parts[1..])
  }

  lemma {:induction false} JoinLength(parts: seq<string>, sep: char)
    requires |parts| >= 1
    ensures |Join(parts, sep)| == TotalLength(parts) + |parts| - 1
    decreases |parts|
  {
    if |parts| > 1 {
      JoinLength(parts[1..], sep);
    }
  }

  lemma {:induction false} TotalLengthOfPermutation(a: seq<string>, b: seq<string>)
    requires multiset(a) == multiset(b)
    ensures TotalLength(a) == TotalLength(b)
    decreases |a|
  {
    if |a| == 0 {
      assert |b| == |multiset(b)| == 0;
    } else {
      assert a[0] in multiset(b);
      var j :| 0 <= j < |b| && b[j] == a[0];
      var rest := b[..j] + b[j + 1..];
      assert b == b[..j] + ([b[j]] + b[j + 1..]);
      TotalLengthSplit(b[..j], [b[j]] + b[j + 1..]);
      TotalLengthSplit(b[..j], b[j + 1..]);
      assert ([b[j]] + b[j + 1..])[1..] == b[j + 1..];
      assert TotalLength([b[j]] + b[j + 1..]) == |b[j]| + TotalLength(b[j + 1..]);
      MultisetOfTail(a);
      assert multiset(b) == multiset(b[..j]) + multiset([b[j]]) + multiset(b[j + 1..]);
      assert multiset(rest) == multiset(b[..j]) + multiset(b[j + 1..]);
      assert multiset(a[1..]) == multiset(rest);
      TotalLengthOfPermutation(a[1..], rest);
    }
  }

  lemma {:induction false} TotalLengthSplit(a: seq<string>, b: seq<string>)
    ensures TotalLength(a + b) == TotalLength(a) + TotalLength(b)
    decreases |a|
  {
    if |a| > 0 {
      assert (a + b)[1..] == a[1..] + b;
      assert (a + b)[0] == a[0];
      TotalLengthSplit(a[1..], b);
    } else {
      assert a + b == b;
    }
  }

  /** A sorted two-party identifier is already canonical. */
  lemma SortedPairIsCanonical()
    ensures Normalise("alice:bob") == "alice:bob"
  {
    var sorted := ["alice", "bob"];
    assert Join(sorted, Sep) == "alice:bob";
    SplitJoin(sorted, Sep);
    assert LessEq("alice", "bob");
    SortStringsSorts(sorted);
    SortedUnique(SortStrings(sorted), sorted);
  }

  /** Both listings of a two-party conversation give one key. */
  lemma TwoPartyExample()
    ensures Normalise("bob:alice") == "alice:bob"
  {
    var sorted, unsorted := ["alice", "bob"], ["bob", "alice"];
    assert Join(sorted, Sep) == "alice:bob";
    assert Join(unsorted, Sep) == "bob:alice";
    assert multiset(unsorted) == multiset(sorted);
    NormaliseOrderIndependent(unsorted, sorted);
    SortedPairIsCanonical();
  }
}
