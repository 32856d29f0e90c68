/** Scan results and the insertion-ordered, path-keyed set that collects them. */
module ScanResults {
  import opened Base
  import opened Paths
  import opened Regex

  /** One matched entry: its absolute path, the filename groups, and the content
      groups when content matching applied and succeeded. Identity is the path alone. */
  datatype Result = Result(path: Path, groups: Groups, contentGroups: Option<Groups>)

  /** The ordered result set: entries in insertion order plus the set of paths already present. */
  datatype ResultSet = ResultSet(items: seq<Result>, seen: set<Path>)

  predicate DistinctPaths(rs: seq<Result>) {
    forall i, j :: 0 <= i < j < |rs| ==> rs[i].path != rs[j].path
  }

  function PathSet(rs: seq<Result>): set<Path> {
    set r | r in rs :: r.path
  }

  /** `seen` tracks exactly the paths of `items`, and no path is present twice. */
  predicate Valid(s: ResultSet) {
    s.seen == PathSet(s.items) && DistinctPaths(s.items)
  }

  function Empty(): (s: ResultSet)
    ensures Valid(s) && s.items == []
  {
    ResultSet([], {})
  }

  /** Inserts `r` unless an entry with the same path is already present, in which case
      the earlier entry is kept and the set is unchanged. */
  function Add(s: ResultSet, r: Result): (s': ResultSet)
    requires Valid(s)
    ensures Valid(s')
    ensures PathSet(s'.items) == PathSet(s.items) + {r.path}
    ensures r.path in PathSet(s.items) ==> s' == s
    ensures r.path !in PathSet(s.items) ==> s'.items == s.items + [r]
  {
    if r.path in s.seen then s
    else ResultSet(s.items + [r], s.seen + {r.path})
  }

  /** Inserts the entries of `xs` one after the other. */
  function AddAll(s: ResultSet, xs: seq<Result>): (s': ResultSet)
    requires Valid(s)
    ensures Valid(s')
    ensures |s.items| <= |s'.items| && s'.items[..|s.items|] == s.items
    decreases |xs|
  {
    if |xs| == 0 then s
    else
      var s1 := Add(s, xs[0]);
      var s' := AddAll(s1, xs[1..]);
      assert s'.items[..|s.items|] == s'.items[..|s1.items|][..|s.items|];
      s'
  }

  /** The paths present after inserting `xs` are those present before and those of `xs`. */
  lemma {:induction false} AddAllPaths(s: ResultSet, xs: seq<Result>)
    requires Valid(s)
    ensures PathSet(AddAll(s, xs).items) == PathSet(s.items) + PathSet(xs)
    decreases |xs|
  {
    if |xs| > 0 {
      var s1 := Add(s, xs[0]);
      calc {
        PathSet(AddAll(s, xs).items);
        PathSet(AddAll(s1, xs[1..]).items);
        { AddAllPaths(s1, xs[1..]); }
        PathSet(s1.items) + PathSet(xs[1..]);
        PathSet(s.items) + {xs[0].path} + PathSet(xs[1..]);
        { assert xs == [xs[0]] + xs[1..];
          PathSetCons(xs[0], xs[1..]); }
        PathSet(s.items) + PathSet(xs);
      }
    }
  }

  /** The entries of `xs` whose paths are outside `drop`, in order. */
  function Without(xs: seq<Result>, drop: set<Path>): (ys: seq<Result>)
    ensures |ys| <= |xs|
  {
    if |xs| == 0 then []
    else if xs[0].path in drop then Without(xs[1..], drop)
    else [xs[0]] + Without(xs[1..], drop)
  }

  /** Reference deduplication: keep an entry, drop every later entry with its path, repeat. */
  function Dedup(xs: seq<Result>): (ys: seq<Result>)
    ensures |ys| <= |xs|
    decreases |xs|
  {
    if |xs| == 0 then []
    else [xs[0]] + Dedup(Without(xs[1..], {xs[0].path}))
  }

  /** Removal keeps exactly the entries whose paths are not dropped. */
  lemma {:induction false} WithoutMembers(xs: seq<Result>, drop: set<Path>)
    ensures forall y :: y in Without(xs, drop) <==> y in xs && y.path !in drop
    decreases |xs|
  {
    if |xs| > 0 {
      WithoutMembers(xs[1..], drop);
      assert xs == [xs[0]] + xs[1..];
    }
  }

  /** Deduplication only keeps entries of its input. */
  lemma {:induction false} DedupMembers(xs: seq<Result>)
    ensures forall y :: y in Dedup(xs) ==> y in xs
    decreases |xs|
  {
    if |xs| > 0 {
      var rest := Without(xs[1..], {xs[0].path});
      DedupMembers(rest);
      WithoutMembers(xs[1..], {xs[0].path});
      assert xs == [xs[0]] + xs[1..];
    }
  }

  /** Deduplication keeps every path and leaves no path twice. */
  lemma {:induction false} DedupDistinct(xs: seq<Result>)
    ensures DistinctPaths(Dedup(xs))
    ensures PathSet(Dedup(xs)) == PathSet(xs)
    decreases |xs|
  {
    if |xs| > 0 {
      var rest := Without(xs[1..], {xs[0].path});
      DedupDistinct(rest);
      PathSetWithout(xs[1..], {xs[0].path});
      PathSetCons(xs[0], Dedup(rest));
      PathSetCons(xs[0], xs[1..]);
      assert xs == [xs[0]] + xs[1..];
      var ys := Dedup(xs);
      assert ys == [xs[0]] + Dedup(rest);
      DedupMembers(rest);
      WithoutMembers(xs[1..], {xs[0].path});
      forall j | 0 < j < |ys| ensures ys[j].path != xs[0].path {
        assert ys[j] in Dedup(rest);
      }
    }
  }

  lemma PathSetCons(x: Result, xs: seq<Result>)
    ensures PathSet([x] + xs) == {x.path} + PathSet(xs)
  {
    assert [x] + xs == [x] + xs;
    forall p | p in PathSet(xs) ensures p in PathSet([x] + xs) {
      var r :| r in xs && r.path == p;
      assert r in [x] + xs;
    }
  }

  lemma PathSetWithout(xs: seq<Result>, drop: set<Path>)
    ensures PathSet(Without(xs, drop)) == PathSet(xs) - drop
  {
    WithoutMembers(xs, drop);
    forall p | p in PathSet(xs) - drop ensures p in PathSet(Without(xs, drop)) {
      var r :| r in xs && r.path == p;
      assert r in Without(xs, drop);
    }
  }

  /** Entry `i` of `xs` is the first one with its path. */
  predicate FirstWithPath(xs: seq<Result>, i: int)
    requires 0 <= i < |xs|
  {
    forall j :: 0 <= j < i ==> xs[j].path != xs[i].path
  }

  lemma {:induction false} WithoutTwice(xs: seq<Result>, a: set<Path>, b: set<Path>)
    ensures Without(Without(xs, a), b) == Without(xs, a + b)
    decreases |xs|
  {
    if |xs| > 0 {
      WithoutTwice(xs[1..], a, b);
    }
  }

  lemma {:induction false} WithoutNothing(xs: seq<Result>)
    ensures Without(xs, {}) == xs
    decreases |xs|
  {
    if |xs| > 0 {
      WithoutNothing(xs[1..]);
      assert [xs[0]] + xs[1..] == xs;
    }
  }

  /** Inserting a sequence appends the first-wins deduplication of its entries whose
      paths were not present yet. */
  lemma {:induction false} AddAllIsDedup(s: ResultSet, xs: seq<Result>)
    requires Valid(s)
    ensures AddAll(s, xs).items == s.items + Dedup(Without(xs, s.seen))
    decreases |xs|
  {
    if |xs| == 0 {
    } else if xs[0].path in s.seen {
      AddAllIsDedup(s, xs[1..]);
    } else {
      var s1 := Add(s, xs[0]);
      AddAllIsDedup(s1, xs[1..]);
      WithoutTwice(xs[1..], s.seen, {xs[0].path});
      assert s1.seen == s.seen + {xs[0].path};
      assert Without(xs, s.seen) == [xs[0]] + Without(xs[1..], s.seen);
    }
  }

  /** Collecting a sequence into an empty set keeps, in order, the first entry per path. */
  lemma CollectIsDedup(xs: seq<Result>)
    ensures AddAll(Empty(), xs).items == Dedup(xs)
  {
    AddAllIsDedup(Empty(), xs);
    WithoutNothing(xs);
  }

  /** Inserting a concatenation is inserting its parts in turn. */
  lemma {:induction false} AddAllConcat(s: ResultSet, xs: seq<Result>, ys: seq<Result>)
    requires Valid(s)
    ensures AddAll(s, xs + ys) == AddAll(AddAll(s, xs), ys)
    decreases |xs|
  {
    if |xs| > 0 {
      assert (xs + ys)[1..] == xs[1..] + ys;
      AddAllConcat(Add(s, xs[0]), xs[1..], ys);
    } else {
      assert xs + ys == ys;
    }
  }

  /** First wins: an entry that no earlier entry shares a path with is kept. */
  lemma {:induction false} DedupKeepsFirst(xs: seq<Result>, i: int)
    requires 0 <= i < |xs|
    requires FirstWithPath(xs, i)
    ensures xs[i] in Dedup(xs)
    decreases |xs|
  {
    if i > 0 {
      var rest := Without(xs[1..], {xs[0].path});
      var k := WithoutIndex(xs[1..], {xs[0].path}, i - 1);
      StillFirst(xs, i, k);
      DedupKeepsFirst(rest, k);
      assert Dedup(xs) == [xs[0]] + Dedup(rest);
    }
  }

  lemma StillFirst(xs: seq<Result>, i: int, k: int)
    requires 0 < i < |xs| && FirstWithPath(xs, i)
    requires 0 <= k < |Without(xs[1..], {xs[0].path})|
    requires Without(xs[1..], {xs[0].path})[k] == xs[i]
    requires forall j :: 0 <= j < k ==> Without(xs[1..], {xs[0].path})[j] in xs[1..][..i - 1]
    ensures FirstWithPath(Without(xs[1..], {xs[0].path}), k)
  {
    var rest := Without(xs[1..], {xs[0].path});
    forall j | 0 <= j < k ensures rest[j].path != rest[k].path {
      var m :| 0 <= m < i - 1 && xs[1..][..i - 1][m] == rest[j];
      assert rest[j] == xs[m + 1];
    }
  }

  /** Where entry `i` of `xs` lands when entries with dropped paths are removed:
      the entries before it in the result all come from before `i`. */
  lemma {:induction false} WithoutIndex(xs: seq<Result>, drop: set<Path>, i: int) returns (k: int)
    requires 0 <= i < |xs| && xs[i].path !in drop
    ensures 0 <= k < |Without(xs, drop)| && Without(xs, drop)[k] == xs[i]
    ensures forall j :: 0 <= j < k ==> Without(xs, drop)[j] in xs[..i]
    decreases |xs|
  {
    if i == 0 {
      k := 0;
    } else {
      var w := Without(xs[1..], drop);
      var k' := WithoutIndex(xs[1..], drop, i - 1);
      assert xs[1..][..i - 1] == xs[1..i];
      if xs[0].path in drop {
        k := k';
        assert Without(xs, drop) == w;
        forall j | 0 <= j < k ensures w[j] in xs[..i] {
          EarlierIsEarlier(xs, i, w[j]);
        }
      } else {
        k := k' + 1;
        assert Without(xs, drop) == [xs[0]] + w;
        forall j | 0 <= j < k ensures ([xs[0]] + w)[j] in xs[..i] {
          if j > 0 {
            assert ([xs[0]] + w)[j] == w[j - 1];
            EarlierIsEarlier(xs, i, w[j - 1]);
          }
        }
      }
    }
  }

  /** An entry of `xs[1..i]` is an entry of `xs[..i]`. */
  lemma EarlierIsEarlier(xs: seq<Result>, i: int, y: Result)
    requires 0 < i <= |xs|
    ensures y in xs[1..i] ==> y in xs[..i]
  {
    if y in xs[1..i] {
      var m :| 0 <= m < i - 1 && xs[1..i][m] == y;
      assert xs[..i][m + 1] == y;
    }
  }
}
