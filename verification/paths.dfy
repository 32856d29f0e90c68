/** Filesystem paths as sequences of names, rendered with '/' as the separator. */
module Paths {

  type Name = string

  /** A path is the sequence of its names; the empty path is the root itself. */
  type Path = seq<Name>

  const Separator: char := '/'

  /** A name a directory entry can carry: non-empty and free of the separator. */
  predicate ValidName(n: Name) {
    |n| > 0 && Separator !in n
  }

  predicate ValidPath(p: Path) {
    forall k :: 0 <= k < |p| ==> ValidName(p[k])
  }

  /** The text of a relative path: its names joined by '/', and "" for the empty path. */
  function Join(p: Path): (s: string)
    ensures ValidPath(p) ==> (|s| == 0 <==> p == [])
    ensures ValidPath(p) && |p| > 0 ==> s[0] == p[0][0]
    ensures |p| > 0 ==> |s| >= |p[0]| && s[..|p[0]|] == p[0]
  {
    if |p| == 0 then ""
    else if |p| == 1 then p[0]
    else p[0] + [Separator] + Join(p[1..])
  }

  /** The names of a path text, splitting at '/' and dropping empty names
      (so "a//b/" and "a/b" name the same path). */
  function Components(s: string): (p: Path)
    ensures ValidPath(p)
  {
    ComponentsFrom(s, "")
  }

  /** Splits `s`, where `pending` holds the characters of a name already begun. */
  function ComponentsFrom(s: string, pending: string): (p: Path)
    requires Separator !in pending
    ensures ValidPath(p)
    decreases |s|
  {
    if |s| == 0 then Flush(pending)
    else if s[0] == Separator then Flush(pending) + ComponentsFrom(s[1..], "")
    else ComponentsFrom(s[1..], pending + [s[0]])
  }

  function Flush(pending: string): (p: Path)
    requires Separator !in pending
    ensures ValidPath(p)
  {
    if pending == "" then [] else [pending]
  }

  predicate IsAbsolute(s: string) {
    |s| > 0 && s[0] == Separator
  }

  /** `dir.resolve(s)`: an absolute `s` stands for itself, a relative one is appended to `dir`. */
  function Resolve(dir: Path, s: string): (p: Path)
    ensures !IsAbsolute(s) ==> |p| >= |dir| && p[..|dir|] == dir
    ensures !IsAbsolute(s) && ValidPath(dir) ==> ValidPath(p)
    ensures IsAbsolute(s) ==> ValidPath(p)
  {
    if IsAbsolute(s) then Components(s) else dir + Components(s)
  }

  /** Reading a name with no separator in it only extends the pending name. */
  lemma {:induction false} ComponentsOfName(n: Name, rest: string, pending: string)
    requires Separator !in n && Separator !in pending
    ensures ComponentsFrom(n + rest, pending) == ComponentsFrom(rest, pending + n)
    decreases |n|
  {
    if |n| > 0 {
      assert (n + rest)[1..] == n[1..] + rest;
      assert pending + [n[0]] + n[1..] == pending + n;
      ComponentsOfName(n[1..], rest, pending + [n[0]]);
    } else {
      assert n + rest == rest;
      assert pending + n == pending;
    }
  }

  /** Splitting the text of a path of valid names gives the path back. */
  lemma {:induction false} ComponentsOfJoin(p: Path)
    requires ValidPath(p)
    ensures Components(Join(p)) == p
    decreases |p|
  {
    if |p| == 1 {
      ComponentsOfName(p[0], "", "");
      assert p[0] + "" == p[0];
      assert "" + p[0] == p[0];
    } else if |p| > 1 {
      var tail := [Separator] + Join(p[1..]);
      assert Join(p) == p[0] + tail;
      ComponentsOfName(p[0], tail, "");
      assert "" + p[0] == p[0];
      assert tail[1..] == Join(p[1..]);
      ComponentsOfJoin(p[1..]);
      assert [p[0]] + p[1..] == p;
    }
  }

  /** Resolving the text of a relative path of valid names appends exactly those names;
      the empty text of the root's empty path resolves to the directory itself. */
  lemma ResolveJoin(dir: Path, p: Path)
    requires ValidPath(p)
    ensures Resolve(dir, Join(p)) == dir + p
  {
    ComponentsOfJoin(p);
  }
}
