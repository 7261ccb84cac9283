/**
 * Go's string ordering and `sort.Strings`. Go compares strings byte by byte
 * in UTF-8; on valid text that is the same order as comparing Unicode scalar
 * values one by one, which is what `LessEq` does on Dafny's `char`.
 */
module GoSort {

  /** `a <= b` on Go strings: lexicographic, so a prefix comes first. */
  predicate LessEq(a: string, b: string)
    ensures |a| <= |b| && a == b[..|a|] ==> LessEq(a, b)
  {
    a == [] || (b != [] && (a[0] < b[0] || (a[0] == b[0] && LessEq(a[1..], b[1..]))))
  }

  lemma {:induction false} LessEqReflexive(a: string)
    ensures LessEq(a, a)
  {
    if a != [] {
      LessEqReflexive(a[1..]);
    }
  }

  lemma {:induction false} LessEqAntisymmetric(a: string, b: string)
    requires LessEq(a, b) && LessEq(b, a)
    ensures a == b
  {
    if a != [] && b != [] {
      LessEqAntisymmetric(a[1..], b[1..]);
      assert a == [a[0]] + a[1..] && b == [b[0]] + b[1..];
    }
  }

  lemma {:induction false} LessEqTransitive(a: string, b: string, c: string)
    requires LessEq(a, b) && LessEq(b, c)
    ensures LessEq(a, c)
  {
    if a != [] && b != [] && c != [] && a[0] == b[0] == c[0] {
      LessEqTransitive(a[1..], b[1..], c[1..]);
    }
  }

  lemma {:induction false} LessEqTotal(a: string, b: string)
    ensures LessEq(a, b) || LessEq(b, a)
  {
    if a != [] && b != [] && a[0] == b[0] {
      LessEqTotal(a[1..], b[1..]);
    }
  }

  /** Ascending order, as `sort.Strings` leaves a slice. */
  predicate Sorted(s: seq<string>)
  {
    forall i, j :: 0 <= i < j < |s| ==> LessEq(s[i], s[j])
  }

  /** The first element of a sorted sequence comes before every element of it. */
  lemma SortedFirst(s: seq<string>, x: string)
    requires Sorted(s) && x in multiset(s)
    ensures LessEq(s[0], x)
  {
    var j :| 0 <= j < |s| && s[j] == x;
    if j == 0 {
      LessEqReflexive(x);
    }
  }

  lemma TailMultiset(s: seq<string>)
    requires s != []
    ensures multiset(s[1..]) == multiset(s) - multiset{s[0]}
  {
    assert s == [s[0]] + s[1..];
  }

  lemma SortedTail(s: seq<string>)
    requires Sorted(s) && s != []
    ensures Sorted(s[1..])
  {
  }

  /** Two sorted sequences holding the same strings start with the same string. */
  lemma SortedSameFirst(a: seq<string>, b: seq<string>)
    requires Sorted(a) && Sorted(b) && a != []
    requires multiset(a) == multiset(b)
    ensures b != [] && a[0] == b[0]
  {
    assert a[0] in multiset(a);
    assert b[0] in multiset(b);
    SortedFirst(b, a[0]);
    SortedFirst(a, b[0]);
    LessEqAntisymmetric(a[0], b[0]);
  }

  /** Two sorted sequences holding the same strings are the same sequence. */
  lemma {:induction false} SortedUnique(a: seq<string>, b: seq<string>)
    requires Sorted(a) && Sorted(b)
    requires multiset(a) == multiset(b)
    ensures a == b
  {
    if a != [] {
      SortedSameFirst(a, b);
      TailMultiset(a);
      TailMultiset(b);
      SortedTail(a);
      SortedTail(b);
      SortedUnique(a[1..], b[1..]);
      assert a == [a[0]] + a[1..] && b == [b[0]] + b[1..];
    } else {
      assert |b| == |multiset(b)| == 0;
    }
  }

  /** Inserts `x` before the first element it does not follow. */
  function Insert(x: string, s: seq<string>): (r: seq<string>)
    ensures multiset(r) == multiset(s) + multiset{x}
  {
    if s == [] then [x]
    else if LessEq(x, s[0]) then [x] + s
    else
      assert s == [s[0]] + s[1..];
      [s[0]] + Insert(x, s[1..])
  }

  /** Inserting into a sorted sequence keeps it sorted. */
  lemma {:induction false} InsertSorted(x: string, s: seq<string>)
    requires Sorted(s)
    ensures Sorted(Insert(x, s))
  {
    if s != [] {
      if LessEq(x, s[0]) {
        forall j | 0 <= j < |s| ensures LessEq(x, s[j]) {
          if j > 0 { LessEqTransitive(x, s[0], s[j]); }
        }
      } else {
        InsertSorted(x, s[1..]);
        var t := Insert(x, s[1..]);
        assert s == [s[0]] + s[1..];
        forall j | 0 <= j < |t| ensures LessEq(s[0], t[j]) {
          assert t[j] in multiset(t);
          if t[j] == x {
            LessEqTotal(x, s[0]);
          } else {
            assert t[j] in multiset(s[1..]);
            var k :| 0 <= k < |s[1..]| && s[1..][k] == t[j];
            assert LessEq(s[0], s[k + 1]);
          }
        }
      }
    }
  }

  /**
   * The ascending sequence of the strings of a multiset: what `sort.Strings`
   * produces from any slice holding exactly those strings.
   */
  ghost function SortBag(b: multiset<string>): (r: seq<string>)
    ensures multiset(r) == b
    decreases |b|
  {
    if b == multiset{} then []
    else
      var x :| x in b;
      Insert(x, SortBag(b - multiset{x}))
  }

  lemma {:induction false} SortBagSorted(b: multiset<string>)
    ensures Sorted(SortBag(b))
    decreases |b|
  {
    if b != multiset{} {
      var x :| x in b && SortBag(b) == Insert(x, SortBag(b - multiset{x}));
      SortBagSorted(b - multiset{x});
      InsertSorted(x, SortBag(b - multiset{x}));
    }
  }

  /** Sorting is determined by the strings alone: any sorted arrangement of them is `SortBag`. */
  lemma SortedIsSortBag(s: seq<string>)
    requires Sorted(s)
    ensures s == SortBag(multiset(s))
  {
    SortBagSorted(multiset(s));
    SortedUnique(s, SortBag(multiset(s)));
  }

  /**
   * `sort.Strings`: sorts the slice in place into ascending order,
   * keeping exactly the same strings.
   */
  method SortStrings(a: array<string>)
    modifies a
    ensures Sorted(a[..])
    ensures multiset(a[..]) == multiset(old(a[..]))
  {
    for i := 0 to a.Length
      invariant Sorted(a[..i])
      invariant multiset(a[..]) == multiset(old(a[..]))
    {
      InsertLast(a, i);
    }
    assert a[..a.Length] == a[..];
  }

  /** Moves `a[i]` down into the sorted prefix `a[..i]`, one swap at a time. */
  method InsertLast(a: array<string>, i: int)
    requires 0 <= i < a.Length && Sorted(a[..i])
    modifies a
    ensures Sorted(a[..i + 1])
    ensures multiset(a[..]) == multiset(old(a[..]))
    ensures a[i + 1..] == old(a[i + 1..])
  {
    var j := i;
    SiftStart(a[..], i);
    while j > 0 && !LessEq(a[j - 1], a[j])
      invariant 0 <= j <= i
      invariant SortedBut(a[..], i, j)
      invariant multiset(a[..]) == multiset(old(a[..]))
      invariant a[i + 1..] == old(a[i + 1..])
    {
      ghost var before := a[..];
      a[j - 1], a[j] := a[j], a[j - 1];
      assert a[..] == before[j - 1 := before[j]][j := before[j - 1]];
      SiftSwap(before, i, j);
      j := j - 1;
    }
    SiftDone(a[..], i, j);
  }

  /**
   * `s[..i + 1]` is sorted except that `s[j]` may sit too far right:
   * every other pair is in order, and `s[j]` precedes everything after it.
   */
  predicate SortedBut(s: seq<string>, i: int, j: int)
    requires 0 <= j <= i < |s|
  {
    && (forall p, q :: 0 <= p < q <= i && p != j && q != j ==> LessEq(s[p], s[q]))
    && (forall q :: j < q <= i ==> LessEq(s[j], s[q]))
  }

  lemma SiftStart(s: seq<string>, i: int)
    requires 0 <= i < |s| && Sorted(s[..i])
    ensures SortedBut(s, i, i)
  {
    forall p, q | 0 <= p < q < i ensures LessEq(s[p], s[q]) {
      assert s[p] == s[..i][p] && s[q] == s[..i][q];
    }
  }

  lemma SiftSwap(s: seq<string>, i: int, j: int)
    requires 0 < j <= i < |s| && SortedBut(s, i, j) && !LessEq(s[j - 1], s[j])
    ensures SortedBut(s[j - 1 := s[j]][j := s[j - 1]], i, j - 1)
  {
    var t := s[j - 1 := s[j]][j := s[j - 1]];
    LessEqTotal(s[j - 1], s[j]);
    forall q | j - 1 < q <= i ensures LessEq(t[j - 1], t[q]) {
      if q > j {
        LessEqTransitive(s[j], s[j - 1], s[q]);
      }
    }
  }

  lemma SiftDone(s: seq<string>, i: int, j: int)
    requires 0 <= j <= i < |s| && SortedBut(s, i, j)
    requires j == 0 || LessEq(s[j - 1], s[j])
    ensures Sorted(s[..i + 1])
  {
    forall p, q | 0 <= p < q <= i ensures LessEq(s[p], s[q]) {
      if q == j && p < j - 1 {
        LessEqTransitive(s[p], s[j - 1], s[j]);
      }
    }
  }
}
