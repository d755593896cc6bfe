/** `u8aSorted` of lib/utils/u8a.dart: byte lists sorted in place by a comparison that reads past the
    end, and throws, when one list is a prefix of the other. */
module Sorting {
  import opened Basics

  /** The comparator: the difference of the first bytes that differ, or a RangeError. */
  function Compare(a: bytes, b: bytes): Result<int> {
    if a == [] || b == [] then Err("RangeError")
    else if a[0] != b[0] then Ok(a[0] as int - b[0] as int)
    else Compare(a[1..], b[1..])
  }

  predicate Less(a: bytes, b: bytes) {
    Compare(a, b).Ok? && Compare(a, b).value < 0
  }

  method CompareBytes(a: bytes, b: bytes) returns (r: Result<int>)
    ensures r == Compare(a, b)
  {
    var i := 0;
    while i < |a|
      invariant 0 <= i <= |a| && i <= |b|
      invariant Compare(a[i..], b[i..]) == Compare(a, b)
    {
      if i >= |b| {
        return Err("RangeError");
      }
      var cmp := a[i] as int - b[i] as int;
      if cmp != 0 {
        return Ok(cmp);
      }
      assert a[i..][1..] == a[i + 1..] && b[i..][1..] == b[i + 1..];
      i := i + 1;
    }
    r := Err("RangeError");
  }

  /** The comparison throws exactly when one list is a prefix of the other; otherwise it is never
      zero and changes sign with the order of its arguments. */
  lemma {:induction false} CompareExact(a: bytes, b: bytes)
    ensures Compare(a, b).Err? <==> a <= b || b <= a
    ensures Compare(a, b).Ok? <==> Less(a, b) || Less(b, a)
    ensures !(Less(a, b) && Less(b, a))
  {
    if a != [] && b != [] && a[0] == b[0] {
      CompareExact(a[1..], b[1..]);
      assert a <= b <==> a[1..] <= b[1..] by {
        PrefixTail(a, b);
      }
      assert b <= a <==> b[1..] <= a[1..] by {
        PrefixTail(b, a);
      }
    }
  }

  /** The order is by the first byte that differs, smaller bytes first. */
  lemma {:induction false} LessExact(a: bytes, b: bytes)
    ensures Less(a, b) <==> exists i :: 0 <= i < |a| && i < |b| && a[..i] == b[..i] && a[i] < b[i]
  {
    if a != [] && b != [] {
      if a[0] == b[0] {
        LessExact(a[1..], b[1..]);
        if i :| 0 <= i < |a| && i < |b| && a[..i] == b[..i] && a[i] < b[i] {
          SameFront(a, b, i);
          assert a[1..][i - 1] < b[1..][i - 1];
        }
        if i :| 0 <= i < |a[1..]| && i < |b[1..]| && a[1..][..i] == b[1..][..i] && a[1..][i] < b[1..][i] {
          SameFront(a, b, i + 1);
          assert a[i + 1] < b[i + 1];
        }
      } else {
        assert a[0] < b[0] ==> a[..0] == b[..0];
      }
    }
  }

  lemma SameFront(a: bytes, b: bytes, i: nat)
    requires i <= |a| && i <= |b| && a != [] && b != [] && a[0] == b[0]
    ensures i > 0 ==> (a[..i] == b[..i] <==> a[1..][..i - 1] == b[1..][..i - 1])
  {
    if i > 0 {
      assert a[..i] == [a[0]] + a[1..][..i - 1] && b[..i] == [b[0]] + b[1..][..i - 1];
      assert a[..i][1..] == a[1..][..i - 1] && b[..i][1..] == b[1..][..i - 1];
    }
  }

  lemma PrefixTail(a: bytes, b: bytes)
    requires a != [] && b != [] && a[0] == b[0]
    ensures a <= b <==> a[1..] <= b[1..]
  {
    assert a == [a[0]] + a[1..] && b == [b[0]] + b[1..];
    if a <= b {
      assert a[1..] == b[1..][..|a| - 1];
    }
    if a[1..] <= b[1..] {
      assert a == [b[0]] + b[1..][..|a| - 1];
    }
  }

  lemma {:induction false} LessTransitive(a: bytes, b: bytes, c: bytes)
    requires Less(a, b) && Less(b, c)
    ensures Less(a, c)
  {
    if a[0] == b[0] == c[0] {
      LessTransitive(a[1..], b[1..], c[1..]);
    }
  }

  // ----- sorted lists -----

  predicate Sorted(s: seq<bytes>) {
    forall i, j :: 0 <= i < j < |s| ==> Less(s[i], s[j])
  }

  /** No list is equal to or a prefix of another one. */
  predicate Comparable(s: seq<bytes>) {
    forall i, j :: 0 <= i < |s| && 0 <= j < |s| && i != j ==> Compare(s[i], s[j]).Ok?
  }

  predicate SameLengthDistinct(s: seq<bytes>) {
    forall i, j :: 0 <= i < j < |s| ==> |s[i]| == |s[j]| && s[i] != s[j]
  }

  lemma SameLengthComparable(s: seq<bytes>)
    requires SameLengthDistinct(s)
    ensures Comparable(s)
  {
    forall i, j | 0 <= i < |s| && 0 <= j < |s| && i != j
      ensures Compare(s[i], s[j]).Ok?
    {
      CompareExact(s[i], s[j]);
    }
  }

  lemma HeadEqual(s: seq<bytes>, t: seq<bytes>)
    requires Sorted(s) && Sorted(t) && multiset(s) == multiset(t) && s != [] && t != []
    ensures s[0] == t[0]
  {
    hide Less;
    assert s[0] in multiset(t) && t[0] in multiset(s);
    var i :| 0 <= i < |t| && t[i] == s[0];
    var j :| 0 <= j < |s| && s[j] == t[0];
    CompareExact(s[0], t[0]);
  }

  lemma TailMultiset(s: seq<bytes>)
    requires s != []
    ensures multiset(s[1..]) == multiset(s) - multiset{s[0]}
  {
    assert s == [s[0]] + s[1..];
  }

  /** A sorted arrangement of given lists is unique, so it does not depend on the sorting algorithm. */
  lemma {:induction false} SortedUnique(s: seq<bytes>, t: seq<bytes>)
    requires Sorted(s) && Sorted(t) && multiset(s) == multiset(t)
    ensures s == t
  {
    hide Less;
    assert |s| == |multiset(s)| == |multiset(t)| == |t|;
    if s != [] {
      HeadEqual(s, t);
      TailMultiset(s);
      TailMultiset(t);
      SortedUnique(s[1..], t[1..]);
      assert s == [s[0]] + s[1..] && t == [t[0]] + t[1..];
    }
  }

  /** The position an element comes from when j-1 and j are exchanged. */
  function Exchanged(p: nat, j: nat): int {
    if p == j then j - 1 else if p + 1 == j then j else p
  }

  lemma SwapKeepsComparable(s: seq<bytes>, t: seq<bytes>, j: nat)
    requires 0 < j < |s| && t == s[j - 1 := s[j]][j := s[j - 1]] && Comparable(s)
    ensures Comparable(t)
  {
    hide Compare;
    forall p, q | 0 <= p < |t| && 0 <= q < |t| && p != q
      ensures Compare(t[p], t[q]).Ok?
    {
      assert t[p] == s[Exchanged(p, j)] && t[q] == s[Exchanged(q, j)];
    }
  }

  lemma SwapKeepsMultiset(s: seq<bytes>, t: seq<bytes>, j: nat)
    requires 0 < j < |s| && t == s[j - 1 := s[j]][j := s[j - 1]]
    ensures multiset(s) == multiset(t)
  {
  }

  lemma SwapComparable(s: seq<bytes>, t: seq<bytes>, j: nat)
    requires 0 < j < |s| && t == s[j - 1 := s[j]][j := s[j - 1]]
    ensures Comparable(s) <==> Comparable(t)
    ensures multiset(s) == multiset(t)
  {
    hide Comparable;
    assert s == t[j - 1 := t[j]][j := t[j - 1]];
    SwapKeepsMultiset(s, t, j);
    if Comparable(s) {
      SwapKeepsComparable(s, t, j);
    }
    if Comparable(t) {
      SwapKeepsComparable(t, s, j);
    }
  }

  lemma SortedIsComparable(s: seq<bytes>)
    requires Sorted(s)
    ensures Comparable(s)
  {
    forall i, j | 0 <= i < |s| && 0 <= j < |s| && i != j
      ensures Compare(s[i], s[j]).Ok?
    {
      CompareExact(s[i], s[j]);
      CompareExact(s[j], s[i]);
    }
  }

  /** All but position j are in order among the first i+1, and position j is before what follows it. */
  predicate SortedBut(s: seq<bytes>, i: nat, j: nat)
    requires j <= i < |s|
  {
    && (forall p, q :: 0 <= p < q <= i && p != j && q != j ==> Less(s[p], s[q]))
    && (forall q :: j < q <= i ==> Less(s[j], s[q]))
  }

  lemma SwapStep(s: seq<bytes>, t: seq<bytes>, i: nat, j: nat)
    requires 0 < j <= i < |s| && SortedBut(s, i, j) && Less(s[j], s[j - 1])
    requires t == s[j - 1 := s[j]][j := s[j - 1]]
    ensures SortedBut(t, i, j - 1)
  {
    hide Compare, Less;
  }

  lemma InsertDone(s: seq<bytes>, i: nat, j: nat)
    requires j <= i < |s| && SortedBut(s, i, j) && (j == 0 || Less(s[j - 1], s[j]))
    ensures Sorted(s[..i + 1])
  {
    forall p, q | 0 <= p < q <= i
      ensures Less(s[p], s[q])
    {
      if q == j && p < j - 1 {
        LessTransitive(s[p], s[j - 1], s[j]);
      }
    }
  }

  /** Sorts in place by insertion. It succeeds exactly when no list is equal to or a prefix of another. */
  method U8aSorted(u8as: array<bytes>) returns (r: Result<bool>)
    modifies u8as
    ensures multiset(u8as[..]) == multiset(old(u8as[..]))
    ensures r.Ok? ==> Sorted(u8as[..])
    ensures r.Ok? <==> Comparable(old(u8as[..]))
  {
    ghost var was := u8as[..];
    for i := 0 to u8as.Length
      invariant Sorted(u8as[..i])
      invariant multiset(u8as[..]) == multiset(was) && (Comparable(u8as[..]) <==> Comparable(was))
    {
      var placed := InsertAt(u8as, i);
      if !placed {
        return Err("RangeError");
      }
    }
    assert u8as[..u8as.Length] == u8as[..];
    SortedIsComparable(u8as[..]);
    r := Ok(true);
  }

  /** Moves element i down to its place among the sorted elements before it; false means that a
      comparison threw. */
  method InsertAt(a: array<bytes>, i: nat) returns (placed: bool)
    requires i < a.Length && Sorted(a[..i])
    modifies a
    ensures multiset(a[..]) == multiset(old(a[..])) && (Comparable(a[..]) <==> Comparable(old(a[..])))
    ensures if placed then Sorted(a[..i + 1]) else !Comparable(a[..])
  {
    hide Compare, Less, Comparable;
    ghost var was := a[..];
    var j := i;
    assert SortedBut(a[..], i, j) by {
      SortedPrefix(a[..], i);
    }
    while j > 0
      invariant 0 <= j <= i && SortedBut(a[..], i, j)
      invariant multiset(a[..]) == multiset(was) && (Comparable(a[..]) <==> Comparable(was))
    {
      var c := CompareBytes(a[j - 1], a[j]);
      CompareExactAt(a[..], j);
      if c.Err? {
        return false;
      }
      if c.value < 0 {
        break;
      }
      ghost var before := a[..];
      a[j - 1], a[j] := a[j], a[j - 1];
      assert a[..] == before[j - 1 := before[j]][j := before[j - 1]];
      SwapComparable(before, a[..], j);
      SwapStep(before, a[..], i, j);
      j := j - 1;
    }
    InsertDone(a[..], i, j);
    placed := true;
  }

  lemma SortedPrefix(s: seq<bytes>, i: nat)
    requires i < |s| && Sorted(s[..i])
    ensures SortedBut(s, i, i)
  {
    forall p, q | 0 <= p < q < i
      ensures Less(s[p], s[q])
    {
      assert Less(s[..i][p], s[..i][q]);
    }
  }

  lemma CompareExactAt(s: seq<bytes>, j: nat)
    requires 0 < j < |s|
    ensures Compare(s[j - 1], s[j]).Err? ==> !Comparable(s)
    ensures Compare(s[j - 1], s[j]).Ok? ==>
              if Compare(s[j - 1], s[j]).value < 0 then Less(s[j - 1], s[j]) else Less(s[j], s[j - 1])
  {
    CompareExact(s[j - 1], s[j]);
  }
}
