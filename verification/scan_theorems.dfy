/** What a scan returns, stated against a reference that does not prune:
    the full pre-order listing of the tree, filtered and deduplicated. */
module ScanTheorems {
  import opened Base
  import opened Paths
  import opened Regex
  import opened FileTree
  import opened ScanResults
  import opened Scanner

  /** An entry is reported when its path matches and no proper ancestor's path
      (the root's empty path included) matches. */
  predicate Reportable(cfg: Config, p: Path) {
    Matches(cfg, p) && forall k :: 0 <= k < |p| ==> !Matches(cfg, p[..k])
  }

  /** The results of the reportable entries of `es`, in order. */
  function Select(cfg: Config, es: seq<Entry>): (rs: seq<Result>)
    ensures |rs| <= |es|
  {
    if |es| == 0 then []
    else (if Reportable(cfg, es[0].rel) then [Record(cfg, es[0])] else []) + Select(cfg, es[1..])
  }

  /** The reference answer of a scan: reportable entries in pre-order, first per path kept. */
  function Expected(cfg: Config, root: Node): seq<Result> {
    Dedup(Select(cfg, Entries(root, [])))
  }

  lemma {:induction false} SelectConcat(cfg: Config, a: seq<Entry>, b: seq<Entry>)
    ensures Select(cfg, a + b) == Select(cfg, a) + Select(cfg, b)
    decreases |a|
  {
    if |a| > 0 {
      assert (a + b)[1..] == a[1..] + b;
      SelectConcat(cfg, a[1..], b);
    } else {
      assert a + b == b;
    }
  }

  /** Nothing strictly below a matching path is reportable. */
  lemma {:induction false} SelectBelowMatch(cfg: Config, es: seq<Entry>, rel: Path)
    requires Matches(cfg, rel)
    requires forall k :: 0 <= k < |es| ==> StrictlyBelow(es[k].rel, rel)
    ensures Select(cfg, es) == []
    decreases |es|
  {
    if |es| > 0 {
      assert es[0].rel[..|rel|] == rel;
      assert !Reportable(cfg, es[0].rel);
      SelectBelowMatch(cfg, es[1..], rel);
    }
  }

  /** The result an entry contributes on its own: its record when it matches. */
  function Own(cfg: Config, n: Node, rel: Path): seq<Result> {
    if Matches(cfg, rel) then [Record(cfg, Entry(rel, n))] else []
  }

  /** Testing one entry inserts what it contributes on its own. */
  lemma TestIsAddAll(cfg: Config, n: Node, rel: Path, acc: ResultSet)
    requires Valid(acc)
    ensures AddResultIfMatch(cfg, n, rel, acc).1 == AddAll(acc, Own(cfg, n, rel))
  {
    if Matches(cfg, rel) {
      var x := Record(cfg, Entry(rel, n));
      assert [x][1..] == [];
      assert AddAll(acc, [x]) == AddAll(Add(acc, x), []);
    }
  }

  /** Below non-matching ancestors, the first entry of a subtree is reportable exactly when it matches. */
  lemma SelectHead(cfg: Config, n: Node, rel: Path)
    requires forall k :: 0 <= k < |rel| ==> !Matches(cfg, rel[..k])
    ensures Select(cfg, Entries(n, rel)) == Own(cfg, n, rel) + Select(cfg, Entries(n, rel)[1..])
  {
    var es := Entries(n, rel);
    assert Select(cfg, [es[0]]) == Own(cfg, n, rel);
    assert es == [es[0]] + es[1..];
    SelectConcat(cfg, [es[0]], es[1..]);
  }

  /** Walking a subtree whose ancestors do not match inserts the reference listing of that subtree. */
  lemma {:induction false} WalkIsReference(cfg: Config, n: Node, rel: Path, acc: ResultSet)
    requires Valid(acc)
    requires forall k :: 0 <= k < |rel| ==> !Matches(cfg, rel[..k])
    ensures Walk(cfg, n, rel, acc) == AddAll(acc, Select(cfg, Entries(n, rel)))
    decreases n
  {
    var es := Entries(n, rel);
    var own := Own(cfg, n, rel);
    SelectHead(cfg, n, rel);
    AddAllConcat(acc, own, Select(cfg, es[1..]));
    TestIsAddAll(cfg, n, rel, acc);
    match n
    case File(_, _, _) =>
      assert es[1..] == [];
    case Dir(_, children) =>
      assert es[1..] == ChildEntries(children, rel);
      if Matches(cfg, rel) {
        SelectBelowMatch(cfg, es[1..], rel);
      } else {
        forall k | 0 <= k <= |rel| ensures !Matches(cfg, rel[..k]) {
          if k == |rel| {
            assert rel[..k] == rel;
          }
        }
        WalkChildrenIsReference(cfg, children, rel, acc);
      }
  }

  /** Walking the children of a directory that neither matches nor has a matching
      ancestor inserts the reference listing of all their subtrees. */
  lemma {:induction false} WalkChildrenIsReference(cfg: Config, cs: seq<Node>, rel: Path, acc: ResultSet)
    requires Valid(acc)
    requires forall k :: 0 <= k <= |rel| ==> !Matches(cfg, rel[..k])
    ensures WalkChildren(cfg, cs, rel, acc) == AddAll(acc, Select(cfg, ChildEntries(cs, rel)))
    decreases cs
  {
    if |cs| > 0 {
      var child := rel + [cs[0].name];
      forall k | 0 <= k < |child| ensures !Matches(cfg, child[..k]) {
        assert child[..k] == rel[..k];
      }
      WalkIsReference(cfg, cs[0], child, acc);
      var acc' := Walk(cfg, cs[0], child, acc);
      WalkChildrenIsReference(cfg, cs[1..], rel, acc');
      SelectConcat(cfg, Entries(cs[0], child), ChildEntries(cs[1..], rel));
      AddAllConcat(acc, Select(cfg, Entries(cs[0], child)), Select(cfg, ChildEntries(cs[1..], rel)));
    }
  }

  /** A scan returns the reportable entries of the tree in pre-order, keeping the
      first result for each path: pruning and the walk order together give exactly this. */
  lemma ScanIsPrunedPreOrder(cfg: Config, root: Node)
    ensures Scan(cfg, root) == Expected(cfg, root)
  {
    WalkIsReference(cfg, root, [], Empty());
    CollectIsDedup(Select(cfg, Entries(root, [])));
  }

  lemma {:induction false} SelectSound(cfg: Config, es: seq<Entry>, r: Result)
    requires r in Select(cfg, es)
    ensures exists e :: e in es && Reportable(cfg, e.rel) && r == Record(cfg, e)
    decreases |es|
  {
    if !Reportable(cfg, es[0].rel) || r != Record(cfg, es[0]) {
      SelectSound(cfg, es[1..], r);
      var e :| e in es[1..] && Reportable(cfg, e.rel) && r == Record(cfg, e);
      assert e in es;
    }
  }

  lemma {:induction false} SelectComplete(cfg: Config, es: seq<Entry>, e: Entry)
    requires e in es && Reportable(cfg, e.rel)
    ensures Record(cfg, e) in Select(cfg, es)
    decreases |es|
  {
    if es[0] != e {
      SelectComplete(cfg, es[1..], e);
    }
  }

  /** Every result comes from an entry of the tree whose path matches while no
      ancestor's path does; its path, filename groups and content groups are those
      of that entry. */
  lemma ScanSound(cfg: Config, root: Node, r: Result)
    requires r in Scan(cfg, root)
    ensures exists e :: e in Entries(root, []) && Reportable(cfg, e.rel) && r == Record(cfg, e)
  {
    ScanIsPrunedPreOrder(cfg, root);
    DedupMembers(Select(cfg, Entries(root, [])));
    SelectSound(cfg, Entries(root, []), r);
  }

  /** Every entry whose path matches while no ancestor's path does is recorded. */
  lemma ScanComplete(cfg: Config, root: Node, e: Entry)
    requires e in Entries(root, []) && Reportable(cfg, e.rel)
    ensures cfg.base + e.rel in PathSet(Scan(cfg, root))
  {
    ScanIsPrunedPreOrder(cfg, root);
    SelectComplete(cfg, Entries(root, []), e);
    DedupDistinct(Select(cfg, Entries(root, [])));
  }

  /** The path a result was recorded under determines the relative path of its entry. */
  lemma BaseCancels(base: Path, p: Path, q: Path)
    requires base + p == base + q
    ensures p == q
  {
    assert p == (base + p)[|base|..];
    assert q == (base + q)[|base|..];
  }

  /** Pruning: once a path matches, nothing strictly below it is recorded, whatever it would match. */
  lemma ScanPrunes(cfg: Config, root: Node, d: Path, q: Path)
    requires Matches(cfg, d) && StrictlyBelow(q, d)
    ensures forall r :: r in Scan(cfg, root) ==> r.path != cfg.base + q
  {
    assert q[..|d|] == d;
    assert !Reportable(cfg, q);
    forall r | r in Scan(cfg, root) ensures r.path != cfg.base + q {
      ScanSound(cfg, root, r);
      var e :| e in Entries(root, []) && Reportable(cfg, e.rel) && r == Record(cfg, e);
      if r.path == cfg.base + q {
        BaseCancels(cfg.base, e.rel, q);
      }
    }
  }

  /** An entry whose path does not match, directory or file, is never recorded. */
  lemma ScanSkipsNonMatching(cfg: Config, root: Node, q: Path)
    requires !Matches(cfg, q)
    ensures forall r :: r in Scan(cfg, root) ==> r.path != cfg.base + q
  {
    forall r | r in Scan(cfg, root) ensures r.path != cfg.base + q {
      ScanSound(cfg, root, r);
      var e :| e in Entries(root, []) && Reportable(cfg, e.rel) && r == Record(cfg, e);
      if r.path == cfg.base + q {
        BaseCancels(cfg.base, e.rel, q);
      }
    }
  }

  /** When the filter already matches the empty relative path of the root, the root
      is the one result. */
  lemma ScanRootMatch(cfg: Config, root: Node)
    requires Matches(cfg, [])
    ensures Scan(cfg, root) == [Record(cfg, Entry([], root))]
  {
    ScanIsPrunedPreOrder(cfg, root);
    var es := Entries(root, []);
    assert es == [es[0]] + es[1..];
    SelectConcat(cfg, [es[0]], es[1..]);
    SelectBelowMatch(cfg, es[1..], []);
    assert Select(cfg, es) == [Record(cfg, Entry([], root))];
  }

  /** The results with their content groups erased. */
  function EraseContent(rs: seq<Result>): (r: seq<Result>)
    ensures |r| == |rs|
    ensures forall i :: 0 <= i < |rs| ==>
      r[i].path == rs[i].path && r[i].groups == rs[i].groups && r[i].contentGroups == None
  {
    if |rs| == 0 then [] else [rs[0].(contentGroups := None)] + EraseContent(rs[1..])
  }

  lemma {:induction false} SelectIgnoresContent(cfg: Config, es: seq<Entry>)
    ensures Select(cfg.(contentFilter := None), es) == EraseContent(Select(cfg, es))
    decreases |es|
  {
    if |es| > 0 {
      SelectIgnoresContent(cfg, es[1..]);
      var head := if Reportable(cfg, es[0].rel) then [Record(cfg, es[0])] else [];
      assert EraseContent(head + Select(cfg, es[1..])) == EraseContent(head) + EraseContent(Select(cfg, es[1..])) by {
        EraseContentConcat(head, Select(cfg, es[1..]));
      }
    }
  }

  lemma {:induction false} EraseContentConcat(a: seq<Result>, b: seq<Result>)
    ensures EraseContent(a + b) == EraseContent(a) + EraseContent(b)
    decreases |a|
  {
    if |a| > 0 {
      var head := [a[0].(contentGroups := None)];
      assert (a + b)[0] == a[0];
      assert (a + b)[1..] == a[1..] + b;
      EraseContentConcat(a[1..], b);
      assert EraseContent(a + b) == head + (EraseContent(a[1..]) + EraseContent(b));
      assert EraseContent(a) == head + EraseContent(a[1..]);
    } else {
      assert a + b == b;
    }
  }

  lemma {:induction false} WithoutErased(xs: seq<Result>, drop: set<Path>)
    ensures Without(EraseContent(xs), drop) == EraseContent(Without(xs, drop))
    decreases |xs|
  {
    if |xs| > 0 {
      WithoutErased(xs[1..], drop);
      assert EraseContent(xs)[1..] == EraseContent(xs[1..]);
      if xs[0].path !in drop {
        EraseContentConcat([xs[0]], Without(xs[1..], drop));
      }
    }
  }

  lemma {:induction false} DedupErased(xs: seq<Result>)
    ensures Dedup(EraseContent(xs)) == EraseContent(Dedup(xs))
    decreases |xs|
  {
    if |xs| > 0 {
      var rest := Without(xs[1..], {xs[0].path});
      assert EraseContent(xs)[1..] == EraseContent(xs[1..]);
      WithoutErased(xs[1..], {xs[0].path});
      DedupErased(rest);
      EraseContentConcat([xs[0]], Dedup(rest));
    }
  }

  /** Content matching only adds groups: with the content groups erased, a scan with
      a content filter returns exactly what the scan without one returns. */
  lemma ContentNeverFilters(cfg: Config, root: Node)
    ensures EraseContent(Scan(cfg, root)) == Scan(cfg.(contentFilter := None), root)
  {
    ScanIsPrunedPreOrder(cfg, root);
    ScanIsPrunedPreOrder(cfg.(contentFilter := None), root);
    SelectIgnoresContent(cfg, Entries(root, []));
    DedupErased(Select(cfg, Entries(root, [])));
  }

  /** Without a content filter no result carries content groups. */
  lemma NoContentFilterNoContentGroups(cfg: Config, root: Node)
    requires cfg.contentFilter.None?
    ensures forall r :: r in Scan(cfg, root) ==> r.contentGroups.None?
  {
    forall r | r in Scan(cfg, root) ensures r.contentGroups.None? {
      ScanSound(cfg, root, r);
    }
  }
}
