/** The packer's records (`Entry`, `Archive`), the order `std::sort` puts a
    pack's entries in, and the order `std::map<std::string, …>` visits its
    keys in. */
module Core {
  import opened Bytes

  /** One file of a pack: the path it was read from, the pack it goes to,
      its checksum as text, its position in the pack and its size. */
  datatype Entry = Entry(
    originalName: string,
    packName: string,
    hash: string,
    index: u32,
    originalSize: u32)

  /** A named pack and its entries; declared alongside `Entry`, the packer
      itself keeps packs in a map from name to entries instead. */
  datatype Archive = Archive(archiveName: string, entries: seq<Entry>)

  /** `Entry::operator<` */
  predicate Less(a: Entry, b: Entry) {
    a.index < b.index
  }

  /** `Entry::operator>` */
  predicate Greater(a: Entry, b: Entry) {
    a.index > b.index
  }

  /** Neither entry comes before the other. */
  predicate Equivalent(a: Entry, b: Entry) {
    !Less(a, b) && !Less(b, a)
  }

  /** `<` looks at the index alone, and `>` is `<` turned round. */
  lemma ComparatorsByIndex(a: Entry, b: Entry)
    ensures Less(a, b) <==> a.index < b.index
    ensures Greater(a, b) <==> a.index > b.index
    ensures Less(a, b) <==> Greater(b, a)
    ensures Equivalent(a, b) <==> a.index == b.index
  {
  }

  /** `<` is a strict weak order, as `std::sort` requires. */
  lemma LessIsStrictWeakOrder(a: Entry, b: Entry, c: Entry)
    ensures !Less(a, a)
    ensures Less(a, b) && Less(b, c) ==> Less(a, c)
    ensures Equivalent(a, b) && Equivalent(b, c) ==> Equivalent(a, c)
  {
  }

  /** No entry comes after a later one. */
  predicate SortedByIndex(s: seq<Entry>) {
    forall i, j :: 0 <= i < j < |s| ==> s[i].index <= s[j].index
  }

  /** The k-th entry has index k. */
  predicate ConsecutiveIndices(g: seq<Entry>) {
    forall k :: 0 <= k < |g| ==> g[k].index == k
  }

  /** Sorting a group whose indices are 0..n-1 has one outcome: the entry
      with index k lands at position k, whatever the sort does with
      equivalent entries. */
  lemma {:induction false} SortedPermutationOfConsecutive(s: seq<Entry>, g: seq<Entry>)
    requires SortedByIndex(s) && multiset(s) == multiset(g)
    requires ConsecutiveIndices(g)
    ensures s == g
    decreases |g|
  {
    assert |s| == |multiset(s)| == |multiset(g)| == |g|;
    if |g| > 0 {
      var n := |g|;
      SortedEndsWithLast(s, g);
      assert s == s[..n - 1] + [g[n - 1]];
      assert g == g[..n - 1] + [g[n - 1]];
      MultisetDropLast(s[..n - 1], g[..n - 1], g[n - 1]);
      SortedPermutationOfConsecutive(s[..n - 1], g[..n - 1]);
    }
  }

  /** The entry with the largest index of a consecutive group ends any
      sorting of it. */
  lemma SortedEndsWithLast(s: seq<Entry>, g: seq<Entry>)
    requires SortedByIndex(s) && multiset(s) == multiset(g)
    requires ConsecutiveIndices(g) && |s| == |g| > 0
    ensures s[|s| - 1] == g[|g| - 1]
  {
    var n := |g|;
    assert g[n - 1] in multiset(s);
    var i :| 0 <= i < n && s[i] == g[n - 1];
    assert s[n - 1] in multiset(g);
    var j :| 0 <= j < n && g[j] == s[n - 1];
    assert n - 1 == s[i].index <= s[n - 1].index == j;
  }

  lemma MultisetDropLast(s: seq<Entry>, g: seq<Entry>, x: Entry)
    requires multiset(s + [x]) == multiset(g + [x])
    ensures multiset(s) == multiset(g)
  {
    assert multiset(s + [x]) == multiset(s) + multiset{x};
    assert multiset(g + [x]) == multiset(g) + multiset{x};
    forall y
      ensures multiset(s)[y] == multiset(g)[y]
    {
      assert multiset(s + [x])[y] == multiset(g + [x])[y];
    }
  }

  // ---------------------------------------------------------------------
  // Packs

  /** The entries that go to pack `p`, in the order given. */
  function Group(es: seq<Entry>, p: string): (g: seq<Entry>)
    ensures |g| <= |es|
    ensures forall k :: 0 <= k < |g| ==> g[k].packName == p
  {
    if es == [] then []
    else
      var last := es[|es| - 1];
      assert es == es[..|es| - 1] + [last];
      Group(es[..|es| - 1], p) + (if last.packName == p then [last] else [])
  }

  /** The names of the packs some entry goes to. */
  function PackNames(es: seq<Entry>): (names: set<string>)
    ensures forall k :: 0 <= k < |es| ==> es[k].packName in names
  {
    if es == [] then {} else PackNames(es[..|es| - 1]) + {es[|es| - 1].packName}
  }

  lemma GroupAppend(es: seq<Entry>, e: Entry, p: string)
    ensures Group(es + [e], p) == Group(es, p) + (if e.packName == p then [e] else [])
    ensures PackNames(es + [e]) == PackNames(es) + {e.packName}
  {
    assert (es + [e])[..|es|] == es;
  }

  /** A pack name has a non-empty group exactly when some entry names it. */
  lemma {:induction false} GroupNonEmpty(es: seq<Entry>, p: string)
    ensures Group(es, p) != [] <==> p in PackNames(es)
  {
    if es != [] {
      var init := es[..|es| - 1];
      GroupNonEmpty(init, p);
      assert es == init + [es[|es| - 1]];
      GroupAppend(init, es[|es| - 1], p);
    }
  }

  /** Grouping loses no entry: every entry naming `p`, as often as it
      occurs, and nothing else is in the group of `p`. */
  lemma {:induction false} GroupMultiset(es: seq<Entry>, p: string)
    ensures forall e :: multiset(Group(es, p))[e] == if e.packName == p then multiset(es)[e] else 0
  {
    if es != [] {
      var init, last := es[..|es| - 1], es[|es| - 1];
      GroupMultiset(init, p);
      assert es == init + [last];
      GroupAppend(init, last, p);
      forall e
        ensures multiset(Group(es, p))[e] == if e.packName == p then multiset(es)[e] else 0
      {
        assert multiset(es)[e] == multiset(init)[e] + multiset([last])[e];
        var tail := if last.packName == p then [last] else [];
        assert multiset(Group(es, p))[e] == multiset(Group(init, p))[e] + multiset(tail)[e];
      }
    }
  }

  // ---------------------------------------------------------------------
  // std::string ordering, the key order of std::map<std::string, …>

  /** `a < b` for `std::string`: lexicographic on character codes, a proper
      prefix first. */
  predicate StrLess(a: string, b: string) {
    if a == [] then b != []
    else if b == [] then false
    else if a[0] != b[0] then a[0] < b[0]
    else StrLess(a[1..], b[1..])
  }

  /** `<` on strings is a strict total order. */
  lemma {:induction false} StrLessIsStrictTotalOrder(a: string, b: string, c: string)
    ensures !StrLess(a, a)
    ensures a != b ==> StrLess(a, b) || StrLess(b, a)
    ensures StrLess(a, b) && StrLess(b, c) ==> StrLess(a, c)
    decreases |a|
  {
    if a != [] && b != [] && c != [] {
      StrLessIsStrictTotalOrder(a[1..], b[1..], c[1..]);
      if a[0] == b[0] && a[1..] == b[1..] {
        assert a == [a[0]] + a[1..] && b == [b[0]] + b[1..];
      }
    } else if a != [] && b != [] {
      StrLessIsStrictTotalOrder(a[1..], b[1..], b[1..]);
      if a[0] == b[0] && a[1..] == b[1..] {
        assert a == [a[0]] + a[1..] && b == [b[0]] + b[1..];
      }
    } else if a != [] {
      StrLessIsStrictTotalOrder(a[1..], a[1..], a[1..]);
    }
  }

  /** `m` is the key `std::map` visits first among `keys`. */
  predicate IsFirstKey(m: string, keys: set<string>) {
    m in keys && forall x :: x in keys ==> !StrLess(x, m)
  }

  /** Every non-empty set of strings has a first element in that order. */
  lemma {:induction false} FirstKey(keys: set<string>) returns (m: string)
    requires keys != {}
    ensures IsFirstKey(m, keys)
    decreases |keys|
  {
    var y :| y in keys;
    StrLessIsStrictTotalOrder(y, y, y);
    if keys == {y} {
      return y;
    }
    var rest := FirstKey(keys - {y});
    if StrLess(y, rest) {
      forall x | x in keys
        ensures !StrLess(x, y)
      {
        StrLessIsStrictTotalOrder(x, y, rest);
      }
      m := y;
    } else {
      m := rest;
    }
  }
}
