/**
 * The kernel mount-option codec: `ToKernelMountOptionString` renders a
 * resolved option map as the flat `key=value,flag,...` string of the mount
 * utility's `-o` syntax, and `ParseOptionStringToMap` reads such a string
 * back into a map.
 */
module KernelMountOptions {
  import opened Wrappers
  import opened Strconv
  import opened GoStrings
  import opened GoSort
  import opened VolumeMountOptions

  // ---------------------------------------------------------------------
  // Encoding
  // ---------------------------------------------------------------------

  /**
   * The fragment written for one entry: a 16-bit integer value is re-rendered
   * in canonical decimal, an empty value gives the bare key (a flag), any
   * other value is written verbatim after `=`.
   */
  function Fragment(k: string, v: string): (r: string)
    ensures |r| >= |k| && r[..|k|] == k
    ensures v == "" <==> r == k
    ensures v != "" ==> |r| > |k| && r[|k|] == '=' && Canonical(r[|k| + 1..])
    ensures v != "" && ParseInt16(v).Some? ==> ParseInt16(r[|k| + 1..]) == ParseInt16(v)
    ensures v != "" && ParseInt16(v).None? ==> r[|k| + 1..] == v
  {
    match ParseInt16(v)
    case Some(n) =>
      ParseInt16FormatInt(n);
      var r := k + "=" + FormatInt(n);
      assert r[..|k|] == k && r[|k| + 1..] == FormatInt(n);
      r
    case None =>
      if v == "" then k
      else
        var r := k + "=" + v;
        assert r[..|k|] == k && r[|k| + 1..] == v;
        r
  }

  /** The fragment as the encoder writes it: the bare key, or `key=` and the normalized value. */
  lemma FragmentNormalized(k: string, v: string)
    ensures Fragment(k, v) == (if v == "" then k else k + "=" + Normalize(v))
  {
  }

  lemma MapRemoveSize<K, V>(m: map<K, V>, k: K)
    requires k in m
    ensures |m - {k}| == |m| - 1
  {
    assert (m - {k}).Keys == m.Keys - {k};
  }

  /** The values of a map, one per key, in no particular order. */
  ghost function Bag<K, V>(m: map<K, V>): (b: multiset<V>)
    ensures |b| == |m|
    decreases |m|
  {
    if m == map[] then multiset{}
    else
      var k :| k in m;
      MapRemoveSize(m, k);
      multiset{m[k]} + Bag(m - {k})
  }

  /** The bag does not depend on which entry is taken first. */
  lemma {:induction false} BagRemove<K, V>(m: map<K, V>, k: K)
    requires k in m
    ensures Bag(m) == multiset{m[k]} + Bag(m - {k})
    decreases |m|
  {
    var k0 :| k0 in m && Bag(m) == multiset{m[k0]} + Bag(m - {k0});
    if k0 != k {
      var rest := m - {k0} - {k};
      assert m - {k} - {k0} == rest;
      MapRemoveSize(m, k0);
      MapRemoveSize(m, k);
      BagRemove(m - {k0}, k);
      BagRemove(m - {k}, k0);
      calc {
        Bag(m);
        multiset{m[k0]} + Bag(m - {k0});
        multiset{m[k0]} + (multiset{m[k]} + Bag(rest));
        multiset{m[k]} + (multiset{m[k0]} + Bag(rest));
        multiset{m[k]} + Bag(m - {k});
      }
    }
  }

  /** A value is in the bag exactly when some key maps to it. */
  lemma {:induction false} BagMembers<K, V>(m: map<K, V>, x: V)
    ensures x in Bag(m) <==> exists k :: k in m && x == m[k]
    decreases |m|
  {
    if m != map[] {
      var k0 :| k0 in m;
      BagRemove(m, k0);
      MapRemoveSize(m, k0);
      BagMembers(m - {k0}, x);
      if x in Bag(m) && x != m[k0] {
        var k :| k in m - {k0} && x == (m - {k0})[k];
        assert k in m && x == m[k];
      }
      if x !in Bag(m) {
        forall k | k in m ensures x != m[k] {
          if k != k0 {
            assert k in m - {k0};
          }
        }
      }
    }
  }

  /** Each key of `m` with the fragment written for its entry. */
  function FragmentMap(m: MountOpts): (r: map<string, string>)
    ensures r.Keys == m.Keys
  {
    map k | k in m :: Fragment(k, m[k])
  }

  /** The fragments of all entries of `m`, one per entry, in no particular order. */
  ghost function FragmentBag(m: MountOpts): (b: multiset<string>)
    ensures |b| == |m|
  {
    Bag(FragmentMap(m))
  }

  lemma FragmentMapRemove(m: MountOpts, k: string)
    ensures FragmentMap(m - {k}) == FragmentMap(m) - {k}
  {
  }

  /**
   * The encoding of `m`: one fragment per entry, in ascending order, joined
   * with ",". A function of `m` alone, so independent of the order in which
   * the entries are visited.
   */
  ghost function EncodeSpec(m: MountOpts): (s: string)
  {
    Join(SortBag(FragmentBag(m)), ",")
  }

  /**
   * `ToKernelMountOptionString`. The map is visited in an arbitrary order,
   * as Go's `range` over a map does; the fragments are collected, sorted in
   * place and joined.
   */
  method ToKernelMountOptionString(mountOpts: MountOpts) returns (s: string)
    ensures s == EncodeSpec(mountOpts)
  {
    var paramList: seq<string> := [];
    var unvisited := mountOpts;
    while unvisited != map[]
      invariant multiset(paramList) + FragmentBag(unvisited) == FragmentBag(mountOpts)
      decreases |unvisited|
    {
      var k :| k in unvisited;
      var v := unvisited[k];
      var param: string;
      var parsed := ParseInt16(v);
      if parsed.Some? {
        param := k + "=" + FormatInt(parsed.value);
      } else if v == "" {
        param := k;
      } else {
        param := k + "=" + v;
      }
      assert param == Fragment(k, v);
      VisitOne(paramList, unvisited, mountOpts, k, param);
      MapRemoveSize(unvisited, k);
      paramList := paramList + [param];
      unvisited := unvisited - {k};
    }
    VisitedAll(paramList, unvisited, mountOpts);
    var a := new string[|paramList|](i requires 0 <= i < |paramList| => paramList[i]);
    assert a[..] == paramList;
    SortStrings(a);
    var sorted := a[..];
    SortedIsSortBag(sorted);
    s := Join(sorted, ",");
  }

  /** Once no entry is left, the list holds exactly the fragments of the whole map. */
  lemma VisitedAll(paramList: seq<string>, unvisited: MountOpts, m: MountOpts)
    requires unvisited == map[]
    requires multiset(paramList) + FragmentBag(unvisited) == FragmentBag(m)
    ensures multiset(paramList) == FragmentBag(m)
  {
    assert FragmentMap(unvisited) == map[];
  }

  /** Moving one entry's fragment from the map to the list keeps the invariant of the encoding loop. */
  lemma VisitOne(paramList: seq<string>, unvisited: MountOpts, m: MountOpts, k: string, param: string)
    requires multiset(paramList) + FragmentBag(unvisited) == FragmentBag(m)
    requires k in unvisited && param == Fragment(k, unvisited[k])
    ensures multiset(paramList + [param]) + FragmentBag(unvisited - {k}) == FragmentBag(m)
  {
    BagRemove(FragmentMap(unvisited), k);
    FragmentMapRemove(unvisited, k);
  }

  /** The empty map encodes to the empty string. */
  lemma EncodeEmpty()
    ensures EncodeSpec(map[]) == ""
  {
    assert SortBag(multiset{}) == [];
  }

  /** A one-entry map encodes to that entry's fragment. */
  lemma EncodeSingleton(k: string, v: string)
    ensures EncodeSpec(map[k := v]) == Fragment(k, v)
  {
    var m := map[k := v];
    BagRemove(FragmentMap(m), k);
    assert FragmentMap(m) - {k} == map[];
    SortedIsSortBag([Fragment(k, v)]);
  }

  /**
   * The encoding lists one fragment per entry, in ascending order: the
   * fragments are exactly those of the entries of `m`.
   */
  lemma EncodeFragments(m: MountOpts)
    ensures Sorted(SortBag(FragmentBag(m)))
    ensures |SortBag(FragmentBag(m))| == |m|
    ensures forall x :: x in SortBag(FragmentBag(m)) <==> x in FragmentMap(m).Values
  {
    var l := SortBag(FragmentBag(m));
    SortBagSorted(FragmentBag(m));
    assert |l| == |multiset(l)| == |m|;
    forall x ensures x in l <==> x in FragmentMap(m).Values {
      assert x in l <==> x in multiset(l);
      BagMembers(FragmentMap(m), x);
    }
  }

  /** Leading zeros and a `+` sign are dropped, flags have no `=`, out-of-range numbers stay verbatim. */
  lemma FragmentExamples()
    ensures Fragment("opt1", "0123") == "opt1=123"
    ensures Fragment("k", "+5") == "k=5"
    ensures Fragment("k", "") == "k"
    ensures Fragment("k", "40000") == "k=40000"
  {
    LeadingZerosDropped();
    PlusSignDropped();
    OutOfRangeVerbatim();
  }

  lemma LeadingZerosDropped()
    ensures Fragment("opt1", "0123") == "opt1=123"
  {
    assert ParseInt16("0123") == Some(123) by { ParseInt16Accepts(); }
    assert FormatInt(123) == "123";
  }

  lemma PlusSignDropped()
    ensures Fragment("k", "+5") == "k=5"
  {
    assert ParseInt16("+5") == Some(5) by { ParseInt16Accepts(); }
    assert FormatInt(5) == "5";
  }

  lemma OutOfRangeVerbatim()
    ensures Fragment("k", "40000") == "k=40000"
  {
    assert ParseInt16("40000") == None by { ParseInt16Rejects(); }
  }

  /** The same examples, for whole one-entry maps. */
  lemma EncodeExamples()
    ensures EncodeSpec(map["opt1" := "0123"]) == "opt1=123"
    ensures EncodeSpec(map["k" := "+5"]) == "k=5"
    ensures EncodeSpec(map["k" := ""]) == "k"
    ensures EncodeSpec(map["k" := "40000"]) == "k=40000"
  {
    FragmentExamples();
    EncodeSingleton("opt1", "0123");
    EncodeSingleton("k", "+5");
    EncodeSingleton("k", "");
    EncodeSingleton("k", "40000");
  }

  // ---------------------------------------------------------------------
  // Parsing
  // ---------------------------------------------------------------------

  /**
   * The key and value of one fragment: the text before and after the first
   * separator, or the whole fragment and "" when there is none. `None` when
   * the fragment splits into no segments at all (an empty fragment with an
   * empty separator), where Go indexes past the end of the slice and panics.
   */
  function ParseFragment(opt: string, separator: string): (r: Option<(string, string)>)
    ensures separator != "" ==> r.Some?
  {
    var segments := SplitN2(opt, separator);
    if |segments| == 0 then None
    else if |segments| == 1 then Some((segments[0], ""))
    else Some((segments[0], segments[1]))
  }

  /** The map built from pairs in order, a later pair overwriting an earlier one with the same key. */
  function ToMap<K, V>(ps: seq<(K, V)>): (m: map<K, V>)
  {
    if ps == [] then map[] else ToMap(ps[..|ps| - 1])[ps[|ps| - 1].0 := ps[|ps| - 1].1]
  }

  lemma ToMapSnoc<K, V>(ps: seq<(K, V)>, p: (K, V))
    ensures ToMap(ps + [p]) == ToMap(ps)[p.0 := p.1]
  {
    assert (ps + [p])[..|ps|] == ps;
  }

  /** A key is in the map exactly when some pair has it. */
  lemma {:induction false} ToMapKeys<K, V>(ps: seq<(K, V)>, k: K)
    ensures k in ToMap(ps) <==> exists i :: 0 <= i < |ps| && ps[i].0 == k
  {
    if ps != [] {
      var pre := ps[..|ps| - 1];
      ToMapKeys(pre, k);
      if exists i :: 0 <= i < |pre| && pre[i].0 == k {
        var i :| 0 <= i < |pre| && pre[i].0 == k;
        assert ps[i] == pre[i];
      }
      if ps[|ps| - 1].0 != k && exists i :: 0 <= i < |ps| && ps[i].0 == k {
        var i :| 0 <= i < |ps| && ps[i].0 == k;
        assert i < |pre| && pre[i] == ps[i];
      }
    }
  }

  /** Every value of the map is the value of a pair with that key. */
  lemma {:induction false} ToMapValue<K, V>(ps: seq<(K, V)>, k: K)
    requires k in ToMap(ps)
    ensures exists j :: 0 <= j < |ps| && ps[j].0 == k && ToMap(ps)[k] == ps[j].1
  {
    var pre := ps[..|ps| - 1];
    if ps[|ps| - 1].0 != k {
      ToMapValue(pre, k);
      var j :| 0 <= j < |pre| && pre[j].0 == k && ToMap(pre)[k] == pre[j].1;
      assert ps[j] == pre[j];
    }
  }

  /** The last pair with a key decides its value: a later duplicate overwrites an earlier one. */
  lemma {:induction false} ToMapLastWins<K, V>(ps: seq<(K, V)>, j: nat)
    requires j < |ps|
    requires forall i :: j < i < |ps| ==> ps[i].0 != ps[j].0
    ensures ps[j].0 in ToMap(ps) && ToMap(ps)[ps[j].0] == ps[j].1
  {
    var pre := ps[..|ps| - 1];
    if j < |pre| {
      assert pre[j] == ps[j];
      assert forall i :: j < i < |pre| ==> pre[i] == ps[i];
      ToMapLastWins(pre, j);
    }
  }

  /** The pairs of all fragments in order; `None` if any fragment panics. */
  function Pairs(opts: seq<string>, separator: string): (r: Option<seq<(string, string)>>)
    ensures r.Some? ==> |r.value| == |opts|
    ensures separator != "" ==> r.Some?
  {
    if opts == [] then Some([])
    else
      match Pairs(opts[..|opts| - 1], separator)
      case None => None
      case Some(ps) =>
        match ParseFragment(opts[|opts| - 1], separator)
        case None => None
        case Some(p) => Some(ps + [p])
  }

  /** The fragments parse together exactly when each one parses, and then in order. */
  lemma {:induction false} PairsFragments(opts: seq<string>, separator: string)
    ensures Pairs(opts, separator).Some? <==> forall i :: 0 <= i < |opts| ==> ParseFragment(opts[i], separator).Some?
    ensures Pairs(opts, separator).Some? ==>
      forall i :: 0 <= i < |opts| ==> ParseFragment(opts[i], separator) == Some(Pairs(opts, separator).value[i])
  {
    if opts != [] {
      var pre := opts[..|opts| - 1];
      PairsFragments(pre, separator);
      assert forall i :: 0 <= i < |pre| ==> pre[i] == opts[i];
    }
  }

  lemma PairsSnoc(pre: seq<string>, last: string, separator: string)
    ensures Pairs(pre + [last], separator) ==
      match Pairs(pre, separator)
      case None => None
      case Some(ps) =>
        match ParseFragment(last, separator)
        case None => None
        case Some(p) => Some(ps + [p])
  {
    assert (pre + [last])[..|pre|] == pre;
  }

  /** What `ParseOptionStringToMap` returns: the empty map for "", else the fragments split on ",". */
  function ParseOptions(optionString: string, separator: string): (r: Option<MountOpts>)
  {
    if optionString == "" then Some(map[])
    else
      match Pairs(Split(optionString, ','), separator)
      case None => None
      case Some(ps) => Some(ToMap(ps))
  }

  /** One more fragment: how the segments of `opts[i]` extend the pairs parsed so far. */
  lemma ParseStep(opts: seq<string>, i: int, separator: string, pairs: seq<(string, string)>)
    requires 0 <= i < |opts| && Pairs(opts[..i], separator) == Some(pairs)
    ensures var segments := SplitN2(opts[i], separator);
      && (|segments| == 0 ==> Pairs(opts[..i + 1], separator) == None)
      && (|segments| == 1 ==> Pairs(opts[..i + 1], separator) == Some(pairs + [(segments[0], "")]))
      && (|segments| >= 2 ==> Pairs(opts[..i + 1], separator) == Some(pairs + [(segments[0], segments[1])]))
  {
    PairsSnoc(opts[..i], opts[i], separator);
    assert opts[..i + 1] == opts[..i] + [opts[i]];
  }

  /** `ParseOptionStringToMap`; `None` stands for Go's index-out-of-range panic. */
  method ParseOptionStringToMap(optionString: string, separator: string) returns (r: Option<MountOpts>)
    ensures r == ParseOptions(optionString, separator)
  {
    var mountOpts: MountOpts := map[];
    if optionString == "" {
      return Some(mountOpts);
    }
    var opts := Split(optionString, ',');
    ghost var pairs: seq<(string, string)> := [];
    for i := 0 to |opts|
      invariant Pairs(opts[..i], separator) == Some(pairs)
      invariant mountOpts == ToMap(pairs)
    {
      var optSegments := SplitN2(opts[i], separator);
      ParseStep(opts, i, separator, pairs);
      if |optSegments| == 1 {
        ToMapSnoc(pairs, (optSegments[0], ""));
        pairs := pairs + [(optSegments[0], "")];
        mountOpts := mountOpts[optSegments[0] := ""];
      } else if |optSegments| >= 2 {
        ToMapSnoc(pairs, (optSegments[0], optSegments[1]));
        pairs := pairs + [(optSegments[0], optSegments[1])];
        mountOpts := mountOpts[optSegments[0] := optSegments[1]];
      } else {
        PairsFragments(opts, separator);
        return None;
      }
    }
    assert opts[..|opts|] == opts;
    r := Some(mountOpts);
  }

  /** Parsing the empty string yields the empty map. */
  lemma ParseEmpty(separator: string)
    ensures ParseOptions("", separator) == Some(map[])
  {
  }

  /** A fragment in which the separator does not occur maps its key to "". */
  lemma ParseFragmentFlag(k: string, sep: string)
    requires sep != ""
    requires forall j :: 0 <= j <= |k| ==> !OccursAt(k, sep, j)
    ensures ParseFragment(k, sep) == Some((k, ""))
  {
    IndexAbsent(k, sep);
  }

  /**
   * Only the first occurrence of the separator splits a fragment: the value
   * may contain more of them.
   */
  lemma ParseFragmentFirstSeparator(k: string, sep: string, v: string)
    requires sep != ""
    requires forall j :: 0 <= j < |k| ==> !OccursAt(k + sep + v, sep, j)
    ensures ParseFragment(k + sep + v, sep) == Some((k, v))
  {
    IndexAfterPrefix(k, sep, v);
    var s := k + sep + v;
    assert s[..|k|] == k && s[|k| + |sep|..] == v;
  }

  /**
   * With a non-empty separator, parsing a list of fragments never panics,
   * and a key takes its value from the last fragment with that key.
   */
  lemma ParseFragmentsLastWins(opts: seq<string>, separator: string, j: nat)
    requires separator != "" && j < |opts|
    requires forall i :: j < i < |opts| ==>
      ParseFragment(opts[i], separator).value.0 != ParseFragment(opts[j], separator).value.0
    ensures Pairs(opts, separator).Some?
    ensures var m := ToMap(Pairs(opts, separator).value);
            var (k, v) := ParseFragment(opts[j], separator).value;
            k in m && m[k] == v
  {
    var ps := Pairs(opts, separator).value;
    PairsFragments(opts, separator);
    ToMapLastWins(ps, j);
  }

  /** The fragment of an entry whose key has no `=` parses back to the key and the normalized value. */
  lemma FragmentParses(k: string, v: string)
    requires '=' !in k
    ensures ParseFragment(Fragment(k, v), "=") == Some((k, Normalize(v)))
  {
    FragmentNormalized(k, v);
    if v == "" {
      CharAbsent(k, '=');
      ParseFragmentFlag(k, "=");
    } else {
      CharAbsentBefore(k, '=', Normalize(v));
      ParseFragmentFirstSeparator(k, "=", Normalize(v));
    }
  }

  /** The parsed form of what the encoder writes for a value: its normalization. */
  function NormalizeAll(m: MountOpts): (r: MountOpts)
    ensures r.Keys == m.Keys
  {
    map k | k in m :: Normalize(m[k])
  }

  /** The keys and values the codec can carry: keys non-empty without `,` or `=`, values without `,`. */
  predicate Encodable(m: MountOpts)
  {
    forall k :: k in m ==> k != "" && ',' !in k && '=' !in k && ',' !in m[k]
  }

  /**
   * Round trip: parsing the encoding of `m` with separator `=` gives `m`
   * with every 16-bit integer value in canonical decimal.
   */
  lemma RoundTrip(m: MountOpts)
    requires Encodable(m)
    ensures ParseOptions(EncodeSpec(m), "=") == Some(NormalizeAll(m))
  {
    if m == map[] {
      EncodeEmpty();
      assert NormalizeAll(m) == map[];
    } else {
      EncodingSplits(m);
      EncodingPairs(m);
      ToMapOfEntries(Pairs(SortBag(FragmentBag(m)), "=").value, NormalizeAll(m));
    }
  }

  /** Pairs that are all entries of `w`, covering every key of `w`, build exactly `w`. */
  lemma ToMapOfEntries<K, V>(ps: seq<(K, V)>, w: map<K, V>)
    requires forall i :: 0 <= i < |ps| ==> ps[i] in w.Items
    requires forall k :: k in w ==> exists i :: 0 <= i < |ps| && ps[i].0 == k
    ensures ToMap(ps) == w
  {
    var r := ToMap(ps);
    forall k | k in w ensures k in r {
      ToMapKeys(ps, k);
    }
    forall k | k in r ensures k in w && r[k] == w[k] {
      ToMapValue(ps, k);
      var j :| 0 <= j < |ps| && ps[j].0 == k && r[k] == ps[j].1;
      assert ps[j] in w.Items;
      assert ps[j] == (k, r[k]);
    }
  }

  /** Splitting a non-empty encoding on "," gives back its sorted fragments. */
  lemma EncodingSplits(m: MountOpts)
    requires Encodable(m) && m != map[]
    ensures EncodeSpec(m) != ""
    ensures Split(EncodeSpec(m), ',') == SortBag(FragmentBag(m))
  {
    var l := SortBag(FragmentBag(m));
    EncodeFragments(m);
    forall i | 0 <= i < |l|
      ensures l[i] != "" && ',' !in l[i]
    {
      PieceShape(m, l, i);
    }
    JoinNonEmpty(l, ",");
    SplitJoin(l, ',');
  }

  lemma PieceShape(m: MountOpts, l: seq<string>, i: int)
    requires Encodable(m) && 0 <= i < |l|
    requires forall x :: x in l <==> x in FragmentMap(m).Values
    ensures l[i] != "" && ',' !in l[i]
  {
    assert l[i] in FragmentMap(m).Values;
    var k :| k in m && FragmentMap(m)[k] == l[i];
    FragmentShape(k, m[k]);
  }

  /**
   * Each fragment of the encoding parses to an entry of `m` with its value
   * normalized, and each key of `m` is parsed from some fragment.
   */
  lemma EncodingPairs(m: MountOpts)
    requires Encodable(m)
    ensures Pairs(SortBag(FragmentBag(m)), "=").Some?
    ensures var ps := Pairs(SortBag(FragmentBag(m)), "=").value;
      && (forall i :: 0 <= i < |ps| ==> ps[i] in NormalizeAll(m).Items)
      && (forall k :: k in m ==> exists i :: 0 <= i < |ps| && ps[i].0 == k)
  {
    var l := SortBag(FragmentBag(m));
    EncodeFragments(m);
    var ps := Pairs(l, "=").value;
    forall i | 0 <= i < |ps|
      ensures ps[i] in NormalizeAll(m).Items
    {
      PairIsEntry(m, l, ps, i);
    }
    forall k | k in m
      ensures exists i :: 0 <= i < |ps| && ps[i].0 == k
    {
      EntryIsPair(m, l, ps, k);
    }
  }

  lemma PairIsEntry(m: MountOpts, l: seq<string>, ps: seq<(string, string)>, i: int)
    requires Encodable(m)
    requires forall x :: x in l <==> x in FragmentMap(m).Values
    requires Pairs(l, "=") == Some(ps) && 0 <= i < |ps|
    ensures ps[i] in NormalizeAll(m).Items
  {
    PairsFragments(l, "=");
    assert l[i] in FragmentMap(m).Values;
    var k :| k in m && FragmentMap(m)[k] == l[i];
    EntryParses(m, k);
  }

  lemma EntryIsPair(m: MountOpts, l: seq<string>, ps: seq<(string, string)>, k: string)
    requires Encodable(m) && k in m
    requires forall x :: x in l <==> x in FragmentMap(m).Values
    requires Pairs(l, "=") == Some(ps)
    ensures exists i :: 0 <= i < |ps| && ps[i].0 == k
  {
    PairsFragments(l, "=");
    assert FragmentMap(m)[k] in FragmentMap(m).Values;
    var i :| 0 <= i < |l| && l[i] == FragmentMap(m)[k];
    EntryParses(m, k);
    assert ps[i].0 == k;
  }

  /** The fragment of an entry parses back to that entry with its value normalized. */
  lemma EntryParses(m: MountOpts, k: string)
    requires Encodable(m) && k in m
    ensures ParseFragment(FragmentMap(m)[k], "=") == Some((k, NormalizeAll(m)[k]))
    ensures (k, NormalizeAll(m)[k]) in NormalizeAll(m).Items
  {
    FragmentParses(k, m[k]);
  }

  lemma FragmentShape(k: string, v: string)
    requires k != "" && ',' !in k && ',' !in v
    ensures Fragment(k, v) != "" && ',' !in Fragment(k, v)
  {
    assert Fragment(k, v)[0] == k[0];
    NoCommaInFragment(k, v);
  }

  lemma NoCommaInFragment(k: string, v: string)
    requires ',' !in k && ',' !in v
    ensures ',' !in Fragment(k, v)
  {
    if v != "" {
      var n := Normalize(v);
      assert ',' !in n by {
        if ParseInt16(v).Some? {
          var d := FormatInt(ParseInt16(v).value);
          assert forall i :: 0 <= i < |d| ==> d[i] != ',';
        }
      }
      assert k + "=" + n == k + ['='] + n;
    }
  }

  /** For values already in canonical form the round trip gives back `m` itself. */
  lemma RoundTripCanonical(m: MountOpts)
    requires Encodable(m)
    requires forall k :: k in m ==> Canonical(m[k])
    ensures ParseOptions(EncodeSpec(m), "=") == Some(m)
  {
    RoundTrip(m);
    NormalizeAllCanonical(m);
  }

  lemma NormalizeAllCanonical(m: MountOpts)
    requires forall k :: k in m ==> Canonical(m[k])
    ensures NormalizeAll(m) == m
  {
    forall k | k in m ensures NormalizeAll(m)[k] == m[k] {
      assert Canonical(m[k]);
    }
  }

  /**
   * Two options: each fragment is split at its first `=`, so a value may
   * itself hold `=`; when both keys are equal the second value wins.
   */
  lemma ParseTwoOptions(k1: string, v1: string, k2: string, v2: string)
    requires '=' !in k1 && ',' !in k1 && ',' !in v1
    requires '=' !in k2 && ',' !in k2 && ',' !in v2
    ensures ParseOptions(k1 + "=" + v1 + "," + k2 + "=" + v2, "=") == Some(map[k1 := v1][k2 := v2])
  {
    OptionFragment(k1, v1);
    OptionFragment(k2, v2);
    TwoFragments(k1 + "=" + v1, k2 + "=" + v2, (k1, v1), (k2, v2));
    assert (k1 + "=" + v1) + "," + (k2 + "=" + v2) == k1 + "=" + v1 + "," + k2 + "=" + v2;
  }

  /** An option followed by a flag: the flag maps to the empty value. */
  lemma ParseOptionAndFlag(k1: string, v1: string, k2: string)
    requires '=' !in k1 && ',' !in k1 && ',' !in v1
    requires '=' !in k2 && ',' !in k2
    ensures ParseOptions(k1 + "=" + v1 + "," + k2, "=") == Some(map[k1 := v1][k2 := ""])
  {
    OptionFragment(k1, v1);
    CharAbsent(k2, '=');
    ParseFragmentFlag(k2, "=");
    TwoFragments(k1 + "=" + v1, k2, (k1, v1), (k2, ""));
  }

  /** A written-out `key=value` fragment is non-empty, holds no `,` and parses to its entry. */
  lemma OptionFragment(k: string, v: string)
    requires '=' !in k && ',' !in k && ',' !in v
    ensures k + "=" + v != "" && ',' !in k + "=" + v
    ensures ParseFragment(k + "=" + v, "=") == Some((k, v))
  {
    CharAbsentBefore(k, '=', v);
    ParseFragmentFirstSeparator(k, "=", v);
  }

  lemma TwoFragments(a: string, b: string, pa: (string, string), pb: (string, string))
    requires a != "" && ',' !in a && ',' !in b
    requires ParseFragment(a, "=") == Some(pa) && ParseFragment(b, "=") == Some(pb)
    ensures ParseOptions(a + "," + b, "=") == Some(map[pa.0 := pa.1][pb.0 := pb.1])
  {
    SplitJoin([a, b], ',');
    assert Join([a, b], ",") == a + "," + b;
    PairsSnoc([], a, "=");
    PairsSnoc([a], b, "=");
    ToMapSnoc([pa], pb);
    ToMapSnoc([], pa);
  }

  /** With an empty separator a fragment splits after its first character. */
  lemma ParseEmptySeparator(c: char, v: string)
    requires c != ',' && ',' !in v
    ensures ParseOptions([c] + v, "") == Some(map[[c] := v])
  {
    var s := [c] + v;
    SplitNoSeparator(s, ',');
    if v == "" {
      assert s == [c];
      assert SplitN2(s, "") == [[c]];
    } else {
      assert s[..1] == [c] && s[1..] == v;
      assert SplitN2(s, "") == [[c], v];
    }
    assert ParseFragment(s, "") == Some(([c], v));
    PairsSnoc([], s, "");
    assert [] + [s] == [s];
    ToMapSnoc([], ([c], v));
  }

  /** With an empty separator an empty fragment makes Go index past the end of the slice. */
  lemma ParseEmptySeparatorPanics(x: string, y: string)
    requires ',' !in x && ',' !in y
    ensures ParseOptions(x + ",," + y, "") == None
  {
    SplitJoin([x, "", y], ',');
    assert Join(["", y], ",") == "," + y;
    assert Join([x, "", y], ",") == x + "," + ("," + y);
    assert x + "," + ("," + y) == x + ",," + y;
    assert ParseFragment([x, "", y][1], "").None?;
    PairsFragments([x, "", y], "");
  }
}
