/** The regex tree scanner: a pre-order walk that records matching entries and
    prunes the subtree of every matching directory. */
module Scanner {
  import opened Base
  import opened Paths
  import opened Regex
  import opened FileTree
  import opened ScanResults

  /** Files of this many bytes or more are never read for content matching (16 MiB). */
  const ContentRegexSizeLimit: nat := 16 * 1024 * 1024

  /** What one scan is configured with: the absolute path of the root, the filter
      run on relative paths, and the optional filter run on file contents. */
  datatype Config = Config(base: Path, filter: Pattern, contentFilter: Option<Pattern>)

  /** The filter finds a match somewhere in the text of the relative path `rel`:
      exactly the entries for which a groups array is produced. */
  predicate Matches(cfg: Config, rel: Path)
    ensures Matches(cfg, rel) <==> Search(cfg.filter, Join(rel)).Some?
  {
    cfg.filter.find(Join(rel)).Some?
  }

  /** Content groups of an entry: present only when a content filter is configured,
      the entry is a file below the size limit, and the content filter finds a match
      in its text. */
  function ContentGroups(cfg: Config, n: Node): (r: Option<Groups>)
    ensures r.Some? <==>
      && cfg.contentFilter.Some?
      && n.File?
      && n.size < ContentRegexSizeLimit
      && cfg.contentFilter.value.find(n.content).Some?
    ensures r.Some? ==> Some(r.value) == Search(cfg.contentFilter.value, n.content)
  {
    match cfg.contentFilter
    case None => None
    case Some(content) =>
      if n.Dir? || n.size >= ContentRegexSizeLimit then None
      else Search(content, n.content)
  }

  /** The result recorded for a matching entry: its absolute path, one filename group
      per capture group of the filter (group 0 included), and content groups only for
      a file small enough whose text the content filter finds a match in. */
  function Record(cfg: Config, e: Entry): (r: Result)
    requires Matches(cfg, e.rel)
    ensures r.path == cfg.base + e.rel
    ensures |r.groups| == cfg.filter.groupCount + 1
    ensures forall i :: 0 <= i < |r.groups| ==> r.groups[i] == cfg.filter.find(Join(e.rel)).value.group(i)
    ensures r.contentGroups.Some? <==>
      && cfg.contentFilter.Some?
      && e.node.File?
      && e.node.size < ContentRegexSizeLimit
      && cfg.contentFilter.value.find(e.node.content).Some?
    ensures r.contentGroups.Some? ==>
      && |r.contentGroups.value| == cfg.contentFilter.value.groupCount + 1
      && forall i :: 0 <= i < |r.contentGroups.value| ==>
           r.contentGroups.value[i] == cfg.contentFilter.value.find(e.node.content).value.group(i)
  {
    Result(cfg.base + e.rel, Search(cfg.filter, Join(e.rel)).value, ContentGroups(cfg, e.node))
  }

  /** Tests the entry `n` at `rel`; on a match, inserts its result. Answers whether it matched. */
  function AddResultIfMatch(cfg: Config, n: Node, rel: Path, acc: ResultSet): (r: (bool, ResultSet))
    requires Valid(acc)
    ensures Valid(r.1)
    ensures r.0 <==> Matches(cfg, rel)
    ensures r.0 ==> PathSet(r.1.items) == PathSet(acc.items) + {cfg.base + rel}
    ensures r.0 && cfg.base + rel !in PathSet(acc.items) ==> r.1.items == acc.items + [Record(cfg, Entry(rel, n))]
    ensures !r.0 || cfg.base + rel in PathSet(acc.items) ==> r.1 == acc
  {
    if Matches(cfg, rel) then (true, Add(acc, Record(cfg, Entry(rel, n))))
    else (false, acc)
  }

  /** Visits the subtree `n` found at `rel`: a directory is matched before its children
      and, when it matches, its children are skipped; a file is matched on its own. */
  function Walk(cfg: Config, n: Node, rel: Path, acc: ResultSet): (r: ResultSet)
    requires Valid(acc)
    ensures Valid(r)
    ensures |acc.items| <= |r.items| && r.items[..|acc.items|] == acc.items
    decreases n
  {
    var (matched, acc') := AddResultIfMatch(cfg, n, rel, acc);
    match n
    case File(_, _, _) => acc'
    case Dir(_, children) => if matched then acc' else WalkChildren(cfg, children, rel, acc')
  }

  /** Visits the children `cs` of the directory at `rel`, in order. */
  function WalkChildren(cfg: Config, cs: seq<Node>, rel: Path, acc: ResultSet): (r: ResultSet)
    requires Valid(acc)
    ensures Valid(r)
    ensures |acc.items| <= |r.items| && r.items[..|acc.items|] == acc.items
    decreases cs
  {
    if |cs| == 0 then acc
    else
      var acc' := Walk(cfg, cs[0], rel + [cs[0].name], acc);
      WalkChildren(cfg, cs[1..], rel, acc')
  }

  /** Scans the tree `root`; the root itself is visited first, with the empty relative path. */
  function Scan(cfg: Config, root: Node): (rs: seq<Result>)
    ensures DistinctPaths(rs)
  {
    Walk(cfg, root, [], Empty()).items
  }
}
