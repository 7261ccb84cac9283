/**
 * The parts of Go's `strings` package that the codec calls:
 * `Split` on a one-character separator, `Index`, `SplitN(s, sep, 2)` and `Join`.
 */
module GoStrings {
  import opened Wrappers

  /** `strings.Split(s, string(c))`: always at least one piece, none holding `c`. */
  function Split(s: string, c: char): (r: seq<string>)
    ensures |r| >= 1
    ensures forall i :: 0 <= i < |r| ==> c !in r[i]
  {
    if s == [] then [[]]
    else
      var rest := Split(s[1..], c);
      if s[0] == c then [[]] + rest else [[s[0]] + rest[0]] + rest[1..]
  }

  /** `strings.Join(l, sep)`. */
  function Join(l: seq<string>, sep: string): (r: string)
    ensures |l| >= 1 ==> |r| >= |l[0]| && r[..|l[0]|] == l[0]
  {
    if |l| == 0 then "" else if |l| == 1 then l[0] else l[0] + sep + Join(l[1..], sep)
  }

  /** Splitting a piece that holds no separator gives that piece alone. */
  lemma {:induction false} SplitNoSeparator(s: string, c: char)
    requires c !in s
    ensures Split(s, c) == [s]
  {
    if s != [] {
      SplitNoSeparator(s[1..], c);
      assert [s[0]] + s[1..] == s;
    }
  }

  /** The separator after a separator-free prefix ends the first piece. */
  lemma {:induction false} SplitAfterPiece(x: string, c: char, rest: string)
    requires c !in x
    ensures Split(x + [c] + rest, c) == [x] + Split(rest, c)
  {
    if x == [] {
      assert (x + [c] + rest)[1..] == rest;
    } else {
      var s := x + [c] + rest;
      assert s[0] == x[0] && s[0] != c;
      assert s[1..] == x[1..] + [c] + rest;
      SplitAfterPiece(x[1..], c, rest);
      assert [x[0]] + x[1..] == x;
    }
  }

  /** Split undoes Join when no piece holds the separator. */
  lemma {:induction false} SplitJoin(l: seq<string>, c: char)
    requires |l| >= 1
    requires forall i :: 0 <= i < |l| ==> c !in l[i]
    ensures Split(Join(l, [c]), c) == l
  {
    if |l| == 1 {
      assert Join(l, [c]) == l[0];
      SplitNoSeparator(l[0], c);
    } else {
      var rest := Join(l[1..], [c]);
      assert Join(l, [c]) == l[0] + [c] + rest;
      assert forall i :: 0 <= i < |l[1..]| ==> l[1..][i] == l[i + 1];
      SplitJoin(l[1..], c);
      SplitAfterPiece(l[0], c, rest);
    }
  }

  /** Join undoes Split. */
  lemma {:induction false} JoinSplit(s: string, c: char)
    ensures Join(Split(s, c), [c]) == s
  {
    if s != [] {
      JoinSplit(s[1..], c);
      var rest := Split(s[1..], c);
      assert s == [s[0]] + s[1..];
      if s[0] == c {
        var l := [[]] + rest;
        assert l[1..] == rest;
        assert Join(l, [c]) == [] + [c] + Join(rest, [c]);
      } else if |rest| == 1 {
        assert Join([[s[0]] + rest[0]], [c]) == [s[0]] + rest[0];
      } else {
        var l := [[s[0]] + rest[0]] + rest[1..];
        assert l[1..] == rest[1..];
        assert Join(l, [c]) == [s[0]] + rest[0] + [c] + Join(rest[1..], [c]);
        assert Join(rest, [c]) == rest[0] + [c] + Join(rest[1..], [c]);
      }
    }
  }

  /** A join whose first piece is non-empty is non-empty. */
  lemma JoinNonEmpty(l: seq<string>, sep: string)
    requires |l| >= 1 && l[0] != ""
    ensures Join(l, sep) != ""
  {
  }

  /** `sep` occurs in `s` at position `i`. */
  predicate OccursAt(s: string, sep: string, i: nat)
  {
    i + |sep| <= |s| && s[i..i + |sep|] == sep
  }

  /** `strings.Index(s, sep)`: the first occurrence, `None` for Go's -1. */
  function Index(s: string, sep: string): (r: Option<nat>)
    ensures r.Some? ==> OccursAt(s, sep, r.value)
    ensures r.Some? ==> forall j :: 0 <= j < r.value ==> !OccursAt(s, sep, j)
    ensures r.None? ==> forall j :: 0 <= j <= |s| ==> !OccursAt(s, sep, j)
    decreases |s|
  {
    if |s| < |sep| then None
    else if s[..|sep|] == sep then Some(0)
    else
      match Index(s[1..], sep)
      case None =>
        assert forall j :: 1 <= j <= |s| ==> (OccursAt(s, sep, j) <==> OccursAt(s[1..], sep, j - 1));
        None
      case Some(i) =>
        assert forall j :: 1 <= j <= |s| ==> (OccursAt(s, sep, j) <==> OccursAt(s[1..], sep, j - 1));
        Some(i + 1)
  }

  /**
   * `strings.SplitN(s, sep, 2)`. With a non-empty separator: the text before
   * the first occurrence and everything after it, or `[s]` when there is none.
   * With an empty separator Go splits off the first character; an empty `s`
   * then gives no pieces at all.
   */
  function SplitN2(s: string, sep: string): (r: seq<string>)
    ensures sep != "" ==> 1 <= |r| <= 2
    ensures |r| == 0 <==> sep == "" && s == ""
  {
    if sep == "" then
      (if s == "" then [] else if |s| == 1 then [s] else [s[..1], s[1..]])
    else
      match Index(s, sep)
      case None => [s]
      case Some(i) =>
        assert s == s[..i] + sep + s[i + |sep|..];
        [s[..i], s[i + |sep|..]]
  }

  /** What the segments of `SplitN2` are, around the first occurrence of the separator. */
  lemma SplitN2Segments(s: string, sep: string)
    // One segment: the separator does not occur, and the segment is the whole string.
    ensures var r := SplitN2(s, sep);
      sep != "" && |r| == 1 ==> r[0] == s && forall j :: 0 <= j <= |s| ==> !OccursAt(s, sep, j)
    // Two segments: they surround the first occurrence of the separator.
    ensures var r := SplitN2(s, sep);
      sep != "" && |r| == 2 ==>
        && s == r[0] + sep + r[1]
        && forall j :: 0 <= j < |r[0]| ==> !OccursAt(s, sep, j)
    // An empty separator splits off the first character.
    ensures var r := SplitN2(s, sep);
      sep == "" && |r| >= 1 ==> |r[0]| == 1 && s == r[0] + (if |r| == 2 then r[1] else "")
  {
    if sep != "" && Index(s, sep).Some? {
      var i := Index(s, sep).value;
      assert s == s[..i] + sep + s[i + |sep|..];
    }
  }

  /** A separator that does not occur before the end of the key is first found right after it. */
  lemma IndexAfterPrefix(k: string, sep: string, v: string)
    requires forall j :: 0 <= j < |k| ==> !OccursAt(k + sep + v, sep, j)
    ensures Index(k + sep + v, sep) == Some(|k|)
  {
    var s := k + sep + v;
    assert s[|k|..|k| + |sep|] == sep;
    assert OccursAt(s, sep, |k|);
  }

  /** A separator that occurs nowhere is not found. */
  lemma IndexAbsent(k: string, sep: string)
    requires forall j :: 0 <= j <= |k| ==> !OccursAt(k, sep, j)
    ensures Index(k, sep) == None
  {
  }

  /** A one-character separator occurs nowhere in a string without that character. */
  lemma CharAbsent(k: string, c: char)
    requires c !in k
    ensures forall j :: 0 <= j <= |k| ==> !OccursAt(k, [c], j)
  {
    forall j | 0 <= j <= |k|
      ensures !OccursAt(k, [c], j)
    {
      if j < |k| {
        assert k[j..j + 1][0] == k[j];
      }
    }
  }

  /** ... nor before the end of a key without that character, whatever follows. */
  lemma CharAbsentBefore(k: string, c: char, v: string)
    requires c !in k
    ensures forall j :: 0 <= j < |k| ==> !OccursAt(k + [c] + v, [c], j)
  {
    var s := k + [c] + v;
    forall j | 0 <= j < |k|
      ensures !OccursAt(s, [c], j)
    {
      assert s[j..j + 1][0] == k[j];
    }
  }
}
