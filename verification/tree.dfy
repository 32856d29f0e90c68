/** The directory tree being scanned, and its entries in walk order. */
module FileTree {
  import opened Paths

  /** A filesystem entry. A file carries its size in bytes and its text as decoded
      from its bytes; a directory carries its children in the order the directory
      stream lists them. */
  datatype Node =
    | File(name: Name, size: nat, content: string)
    | Dir(name: Name, children: seq<Node>)

  /** An entry of the tree together with its path relative to the scan root. */
  datatype Entry = Entry(rel: Path, node: Node)

  /** `rel` is a proper prefix of `p`: `p` lies strictly below `rel`. */
  predicate StrictlyBelow(p: Path, rel: Path) {
    |rel| < |p| && p[..|rel|] == rel
  }

  /** Every entry of the subtree `n` found at `rel`, in depth-first pre-order
      (a directory before its children, children in listed order). */
  function Entries(n: Node, rel: Path): (es: seq<Entry>)
    ensures |es| > 0 && es[0] == Entry(rel, n)
    ensures forall k :: 0 < k < |es| ==> StrictlyBelow(es[k].rel, rel)
    decreases n
  {
    match n
    case File(_, _, _) => [Entry(rel, n)]
    case Dir(_, children) => [Entry(rel, n)] + ChildEntries(children, rel)
  }

  /** The entries of the subtrees `cs`, children of the directory at `rel`, one after the other. */
  function ChildEntries(cs: seq<Node>, rel: Path): (es: seq<Entry>)
    ensures forall k :: 0 <= k < |es| ==> StrictlyBelow(es[k].rel, rel)
    decreases cs
  {
    if |cs| == 0 then []
    else
      var here := Entries(cs[0], rel + [cs[0].name]);
      assert forall k :: 0 <= k < |here| ==> StrictlyBelow(here[k].rel, rel) by {
        forall k | 0 <= k < |here| ensures StrictlyBelow(here[k].rel, rel) {
          if k > 0 {
            assert here[k].rel[..|rel| + 1] == rel + [cs[0].name];
            assert here[k].rel[..|rel|] == (rel + [cs[0].name])[..|rel|];
          }
        }
      }
      here + ChildEntries(cs[1..], rel)
  }
}
