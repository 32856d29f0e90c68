/** The regular-expression engine, abstracted to what the scanner asks of it. */
module Regex {
  import opened Base

  /** Capture groups of one match, in index order: group 0 is the whole match,
      None marks a group that did not take part in the match. */
  type Groups = seq<Option<string>>

  /** A matcher positioned on a successful `find`: `group(i)` is what capture group i captured. */
  datatype MatchState = MatchState(group: nat -> Option<string>)

  /** A compiled pattern: its number of capture groups and its `find` (search anywhere
      in the text, not whole-text matching), which yields the matcher on success. */
  datatype Pattern = Pattern(groupCount: nat, find: string -> Option<MatchState>)

  /** The groups array of a match: one entry per group 0..groupCount. */
  function GetGroups(p: Pattern, m: MatchState): (r: Groups)
    ensures |r| == p.groupCount + 1
    ensures forall i :: 0 <= i < |r| ==> r[i] == m.group(i)
  {
    seq(p.groupCount + 1, i requires 0 <= i => m.group(i))
  }

  /** Runs `find` on `text`: the groups of the match, or None when the pattern occurs nowhere. */
  function Search(p: Pattern, text: string): (r: Option<Groups>)
    ensures r.Some? <==> p.find(text).Some?
    ensures r.Some? ==> |r.value| == p.groupCount + 1
    ensures r.Some? ==> forall i :: 0 <= i <= p.groupCount ==> r.value[i] == p.find(text).value.group(i)
  {
    match p.find(text)
    case None => None
    case Some(m) => Some(GetGroups(p, m))
  }
}
