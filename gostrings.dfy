/** The parts of Go's `strings` package the server relies on: Index, Count,
    Split and Join, and the byte-wise ordering `sort` uses on strings.
    A Go string is a sequence of bytes; here every byte is one `char`. */
module GoStrings {

  /** `sub` occurs in `s` starting at offset `i`. */
  predicate OccursAt(s: string, sub: string, i: int)
  {
    0 <= i && i + |sub| <= |s| && s[i..i + |sub|] == sub
  }

  /** The search of strings.Index, started at offset `from`. */
  function IndexFrom(s: string, sub: string, from: nat): (r: int)
    requires from <= |s|
    ensures r == -1 || (from <= r && r + |sub| <= |s|)
    decreases |s| - from
  {
    if from + |sub| > |s| then -1
    else if s[from..from + |sub|] == sub then from
    else IndexFrom(s, sub, from + 1)
  }

  lemma {:induction false} IndexFromSpec(s: string, sub: string, from: nat)
    requires from <= |s|
    ensures var r := IndexFrom(s, sub, from);
      && (r != -1 ==> OccursAt(s, sub, r))
      && forall i :: from <= i && (r == -1 || i < r) ==> !OccursAt(s, sub, i)
    decreases |s| - from
  {
    if from + |sub| <= |s| && s[from..from + |sub|] != sub {
      IndexFromSpec(s, sub, from + 1);
    }
  }

  /** strings.Index: the offset of the first occurrence of `sub` in `s`, or -1. */
  function Index(s: string, sub: string): (r: int)
    ensures r == -1 || 0 <= r <= |s| - |sub|
  {
    IndexFrom(s, sub, 0)
  }

  /** strings.Index finds the first occurrence, and -1 only when there is none. */
  lemma IndexSpec(s: string, sub: string)
    ensures Index(s, sub) == -1 <==> forall i :: !OccursAt(s, sub, i)
    ensures Index(s, sub) != -1 ==>
      OccursAt(s, sub, Index(s, sub)) && forall i :: 0 <= i < Index(s, sub) ==> !OccursAt(s, sub, i)
  {
    IndexFromSpec(s, sub, 0);
  }

  /** strings.Count for a non-empty separator: the number of non-overlapping
      occurrences of `sub`, found greedily from the left. */
  function Count(s: string, sub: string): (n: nat)
    requires |sub| > 0
    decreases |s|
  {
    var i := Index(s, sub);
    if i == -1 then 0 else 1 + Count(s[i + |sub|..], sub)
  }

  /** Where `sub` occurs only from offset |a| on in `a + b`, the search in
      `a + b` is the search in `b`, shifted by |a|. */
  lemma {:induction false} IndexAfterPrefix(a: string, b: string, sub: string)
    requires forall i :: 0 <= i < |a| ==> !OccursAt(a + b, sub, i)
    ensures Index(a + b, sub) == if Index(b, sub) == -1 then -1 else |a| + Index(b, sub)
  {
    var s := a + b;
    IndexSpec(s, sub);
    IndexSpec(b, sub);
    forall i | 0 <= i
      ensures OccursAt(s, sub, |a| + i) <==> OccursAt(b, sub, i)
    {
      OccursShifted(a, b, sub, i);
    }
    var j := Index(b, sub);
    if j == -1 {
      forall i ensures !OccursAt(s, sub, i) {
        if i >= |a| {
          assert !OccursAt(b, sub, i - |a|);
        }
      }
    } else {
      assert OccursAt(s, sub, |a| + j);
      forall i | 0 <= i < |a| + j ensures !OccursAt(s, sub, i) {
        if i >= |a| {
          assert !OccursAt(b, sub, i - |a|);
        }
      }
    }
  }

  lemma OccursShifted(a: string, b: string, sub: string, i: nat)
    ensures OccursAt(a + b, sub, |a| + i) <==> OccursAt(b, sub, i)
  {
    if |a| + i + |sub| <= |a + b| {
      assert (a + b)[|a| + i..|a| + i + |sub|] == b[i..i + |sub|];
    }
  }

  /** No occurrence is counted exactly when `sub` does not occur at all:
      the count behind the server's "no content" answer. */
  lemma {:induction false} CountZero(s: string, sub: string)
    requires |sub| > 0
    ensures Count(s, sub) == 0 <==> forall i :: !OccursAt(s, sub, i)
  {
    IndexSpec(s, sub);
  }

  /** The counted occurrences do not overlap, so they fit in the text. */
  lemma {:induction false} CountBound(s: string, sub: string)
    requires |sub| > 0
    ensures Count(s, sub) * |sub| <= |s|
    decreases |s|
  {
    var i := Index(s, sub);
    if i != -1 {
      var rest := s[i + |sub|..];
      CountBound(rest, sub);
      CountUnfold(s, sub, i);
      var c := Count(rest, sub);
      OneMore(c, |sub|);
      assert Count(s, sub) * |sub| == |sub| + c * |sub|;
    }
  }

  lemma OneMore(c: nat, n: nat)
    ensures (1 + c) * n == n + c * n
  {
  }

  /** One step of strings.Count: the first occurrence, then the rest. */
  lemma {:induction false} CountUnfold(s: string, sub: string, i: int)
    requires |sub| > 0 && i == Index(s, sub) && i != -1
    ensures Count(s, sub) == 1 + Count(s[i + |sub|..], sub)
  {
  }

  lemma {:induction false} CountNone(s: string, sub: string)
    requires |sub| > 0 && Index(s, sub) == -1
    ensures Count(s, sub) == 0
  {
  }

  lemma {:induction false} CountShifted(s: string, b: string, sub: string, n: nat)
    requires |sub| > 0 && n <= |s| && s[n..] == b
    requires Index(s, sub) == if Index(b, sub) == -1 then -1 else n + Index(b, sub)
    ensures Count(s, sub) == Count(b, sub)
  {
    var k := Index(b, sub);
    if k == -1 {
      CountNone(s, sub);
      CountNone(b, sub);
    } else {
      CountUnfold(s, sub, n + k);
      CountUnfold(b, sub, k);
      assert s[n + k + |sub|..] == b[k + |sub|..];
    }
  }

  /** Where `sub` occurs only from offset |a| on in `a + b`, counting in
      `a + b` is counting in `b`. */
  lemma {:induction false} CountAfterPrefix(a: string, b: string, sub: string)
    requires |sub| > 0
    requires forall i :: 0 <= i < |a| ==> !OccursAt(a + b, sub, i)
    ensures Count(a + b, sub) == Count(b, sub)
  {
    IndexAfterPrefix(a, b, sub);
    CountShifted(a + b, b, sub, |a|);
  }

  /** The first occurrence of `sub` in `a` is the first in `a + b`. */
  lemma {:induction false} IndexInPrefix(a: string, b: string, sub: string)
    requires Index(a, sub) != -1
    ensures Index(a + b, sub) == Index(a, sub)
  {
    var s, j := a + b, Index(a, sub);
    IndexSpec(a, sub);
    IndexSpec(s, sub);
    assert s[j..j + |sub|] == a[j..j + |sub|];
    assert OccursAt(s, sub, j);
    forall i | 0 <= i < j ensures !OccursAt(s, sub, i) {
      assert s[i..i + |sub|] == a[i..i + |sub|];
      assert !OccursAt(a, sub, i);
    }
  }

  /** No occurrence of `sub` in `a + b` starts inside `a` and ends beyond it. */
  predicate NoStraddle(a: string, b: string, sub: string)
  {
    forall i :: 0 <= i < |a| < i + |sub| ==> !OccursAt(a + b, sub, i)
  }

  lemma {:induction false} NoStraddleNoPrefixOccurrence(a: string, b: string, sub: string)
    requires NoStraddle(a, b, sub) && Index(a, sub) == -1
    ensures forall i :: 0 <= i < |a| ==> !OccursAt(a + b, sub, i)
  {
    var s := a + b;
    IndexSpec(a, sub);
    forall i | 0 <= i < |a| ensures !OccursAt(s, sub, i) {
      if i + |sub| <= |a| {
        assert s[i..i + |sub|] == a[i..i + |sub|];
        assert !OccursAt(a, sub, i);
      }
    }
  }

  lemma {:induction false} NoStraddleSuffix(a: string, b: string, sub: string, shift: nat)
    requires NoStraddle(a, b, sub) && shift <= |a|
    ensures NoStraddle(a[shift..], b, sub)
  {
    var s, a' := a + b, a[shift..];
    assert s[shift..] == a' + b;
    forall i | 0 <= i < |a'| < i + |sub|
      ensures !OccursAt(a' + b, sub, i)
    {
      if i + |sub| <= |a' + b| {
        assert (a' + b)[i..i + |sub|] == s[shift + i..shift + i + |sub|];
        assert !OccursAt(s, sub, shift + i);
      }
    }
  }

  /** Counting over a concatenation splits into the two counts when no
      occurrence of `sub` straddles the seam: a payload made of records
      counts the markers record by record. */
  lemma {:induction false} CountConcat(a: string, b: string, sub: string)
    requires |sub| > 0 && NoStraddle(a, b, sub)
    ensures Count(a + b, sub) == Count(a, sub) + Count(b, sub)
    decreases |a|
  {
    var j := Index(a, sub);
    if j == -1 {
      NoStraddleNoPrefixOccurrence(a, b, sub);
      CountAfterPrefix(a, b, sub);
      CountNone(a, sub);
    } else {
      var s, shift := a + b, j + |sub|;
      var a' := a[shift..];
      IndexInPrefix(a, b, sub);
      NoStraddleSuffix(a, b, sub, shift);
      CountConcat(a', b, sub);
      CountUnfold(a, sub, j);
      CountUnfold(s, sub, j);
      assert s[shift..] == a' + b;
    }
  }

  /** A one-byte string occurs exactly where that byte is. */
  lemma {:induction false} OccursAtByte(s: string, c: char, i: int)
    ensures OccursAt(s, [c], i) <==> 0 <= i < |s| && s[i] == c
  {
    if 0 <= i < |s| {
      assert s[i..i + 1] == [s[i]];
    }
  }

  /** strings.Split for a one-byte separator: the pieces between successive
      separators, so one more piece than there are separators. */
  function Split(s: string, sep: char): (parts: seq<string>)
    ensures |parts| >= 1
    ensures forall k :: 0 <= k < |parts| ==> sep !in parts[k]
    decreases |s|
  {
    var i := Index(s, [sep]);
    IndexSpec(s, [sep]);
    if i == -1 then
      assert forall k :: 0 <= k < |s| ==> s[k] != sep by {
        forall k | 0 <= k < |s| ensures s[k] != sep {
          OccursAtByte(s, sep, k);
        }
      }
      [s]
    else
      OccursAtByte(s, sep, i);
      assert forall k :: 0 <= k < i ==> s[k] != sep by {
        forall k | 0 <= k < i ensures s[k] != sep {
          OccursAtByte(s, sep, k);
        }
      }
      [s[..i]] + Split(s[i + 1..], sep)
  }

  /** The total length of the parts. */
  function LengthSum(parts: seq<string>): (r: nat)
  {
    if parts == [] then 0 else |parts[0]| + LengthSum(parts[1..])
  }

  /** strings.Join with a one-byte separator: every part once, with one
      separator between each two neighbours and none at either end. */
  function Join(parts: seq<string>, sep: char): (r: string)
    ensures |parts| == 0 ==> r == ""
    ensures |parts| > 0 ==> |r| == LengthSum(parts) + |parts| - 1
  {
    if |parts| == 0 then ""
    else if |parts| == 1 then parts[0]
    else parts[0] + [sep] + Join(parts[1..], sep)
  }

  /** Joining the pieces of a split gives back the text. */
  lemma {:induction false} JoinSplit(s: string, sep: char)
    ensures Join(Split(s, sep), sep) == s
    decreases |s|
  {
    var i := Index(s, [sep]);
    IndexSpec(s, [sep]);
    if i != -1 {
      JoinSplit(s[i + 1..], sep);
      OccursAtByte(s, sep, i);
      assert s == s[..i] + [sep] + s[i + 1..];
    }
  }

  /** Splitting a join of separator-free pieces gives back the pieces. */
  lemma {:induction false} SplitJoin(parts: seq<string>, sep: char)
    requires |parts| >= 1
    requires forall k :: 0 <= k < |parts| ==> sep !in parts[k]
    ensures Split(Join(parts, sep), sep) == parts
    decreases |parts|
  {
    var head := parts[0];
    IndexSpec(Join(parts, sep), [sep]);
    if |parts| == 1 {
      forall i ensures !OccursAt(head, [sep], i) {
        OccursAtByte(head, sep, i);
        if 0 <= i < |head| {
          assert head[i] in head;
        }
      }
    } else {
      var rest := Join(parts[1..], sep);
      var s := head + [sep] + rest;
      OccursAtByte(s, sep, |head|);
      forall i | 0 <= i < |head| ensures !OccursAt(s, [sep], i) {
        OccursAtByte(s, sep, i);
        assert s[i] == head[i];
        assert head[i] in head;
      }
      assert Index(s, [sep]) == |head|;
      assert s[..|head|] == head;
      assert s[|head| + 1..] == rest;
      SplitJoin(parts[1..], sep);
    }
  }

  /** Byte-wise string order, as Go's `<` on strings (and hence sort.Strings). */
  predicate Less(a: string, b: string)
  {
    if a == [] then b != []
    else if b == [] then false
    else if a[0] != b[0] then a[0] < b[0]
    else Less(a[1..], b[1..])
  }

  lemma {:induction false} LessIrreflexive(a: string)
    ensures !Less(a, a)
  {
    if a != [] {
      LessIrreflexive(a[1..]);
    }
  }

  lemma {:induction false} LessAsymmetric(a: string, b: string)
    ensures Less(a, b) ==> !Less(b, a)
  {
    if a != [] && b != [] && a[0] == b[0] {
      LessAsymmetric(a[1..], b[1..]);
    }
  }

  lemma {:induction false} LessTransitive(a: string, b: string, c: string)
    requires Less(a, b) && Less(b, c)
    ensures Less(a, c)
  {
    if a != [] && b != [] && c != [] && a[0] == b[0] && b[0] == c[0] {
      LessTransitive(a[1..], b[1..], c[1..]);
    }
  }

  lemma {:induction false} LessTotal(a: string, b: string)
    ensures a == b || Less(a, b) || Less(b, a)
  {
    if a != [] && b != [] && a[0] == b[0] {
      LessTotal(a[1..], b[1..]);
      if a[1..] == b[1..] {
        assert a == [a[0]] + a[1..] && b == [b[0]] + b[1..];
      }
    }
  }

  /** The four facts that make Less a strict total order. */
  lemma {:induction false} LessIsStrictTotal()
    ensures forall a: string :: !Less(a, a)
    ensures forall a: string, b: string :: Less(a, b) ==> !Less(b, a)
    ensures forall a: string, b: string, c: string :: Less(a, b) && Less(b, c) ==> Less(a, c)
    ensures forall a: string, b: string :: a == b || Less(a, b) || Less(b, a)
  {
    forall a: string ensures !Less(a, a) {
      LessIrreflexive(a);
    }
    forall a: string, b: string ensures Less(a, b) ==> !Less(b, a) {
      LessAsymmetric(a, b);
    }
    forall a: string, b: string, c: string | Less(a, b) && Less(b, c) ensures Less(a, c) {
      LessTransitive(a, b, c);
    }
    forall a: string, b: string ensures a == b || Less(a, b) || Less(b, a) {
      LessTotal(a, b);
    }
  }
}
