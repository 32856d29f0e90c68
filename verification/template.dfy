/** The destination template: `{i}` tokens replaced by capture groups, then resolved
    against the destination directory. */
module Template {
  import opened Base
  import opened Paths
  import opened Regex
  import opened ScanResults

  predicate IsDigit(c: char) {
    '0' <= c <= '9'
  }

  function DigitChar(d: nat): (c: char)
    requires d < 10
    ensures IsDigit(c)
  {
    ('0' as int + d) as char
  }

  function DigitValue(c: char): (d: nat)
    requires IsDigit(c)
    ensures d < 10
  {
    c as int - '0' as int
  }

  /** The decimal text of `n`, as Java renders an int when concatenated to a string. */
  function Decimal(n: nat): (s: string)
    ensures |s| > 0
    ensures forall k :: 0 <= k < |s| ==> IsDigit(s[k])
    decreases n
  {
    if n < 10 then [DigitChar(n)] else Decimal(n / 10) + [DigitChar(n % 10)]
  }

  /** The number a non-empty digit string denotes. */
  function DecimalValue(s: string): nat
    requires forall k :: 0 <= k < |s| ==> IsDigit(s[k])
    decreases |s|
  {
    if |s| == 0 then 0 else 10 * DecimalValue(s[..|s| - 1]) + DigitValue(s[|s| - 1])
  }

  /** Reading back the decimal text of `n` gives `n`. */
  lemma {:induction false} DecimalRoundTrip(n: nat)
    ensures DecimalValue(Decimal(n)) == n
    decreases n
  {
    if n >= 10 {
      DecimalRoundTrip(n / 10);
      var s := Decimal(n);
      assert s[..|s| - 1] == Decimal(n / 10);
    }
  }

  /** Distinct indices have distinct decimal texts. */
  lemma DecimalInjective(m: nat, n: nat)
    requires Decimal(m) == Decimal(n)
    ensures m == n
  {
    DecimalRoundTrip(m);
    DecimalRoundTrip(n);
  }

  /** The placeholder `{i}`. */
  function Token(i: nat): (t: string)
    ensures |t| >= 3 && t[0] == '{' && t[|t| - 1] == '}'
    ensures forall k :: 0 < k < |t| - 1 ==> IsDigit(t[k])
  {
    "{" + Decimal(i) + "}"
  }

  /** `tok` occurs in `s` at position `p`. */
  ghost predicate OccursAt(tok: string, s: string, p: int) {
    0 <= p && p + |tok| <= |s| && s[p..p + |tok|] == tok
  }

  ghost predicate Occurs(tok: string, s: string) {
    exists p :: OccursAt(tok, s, p)
  }

  /** A token whose first character does not reappear inside it: two of its
      occurrences can never overlap. Every placeholder is one. */
  predicate Unoverlapping(tok: string) {
    |tok| > 0 && forall k :: 0 < k < |tok| ==> tok[k] != tok[0]
  }

  lemma TokenUnoverlapping(i: nat)
    ensures Unoverlapping(Token(i))
  {
  }

  /** Replaces every occurrence of `tok` in `s` by `rep`, scanning left to right and
      resuming after each replaced occurrence; `rep` is inserted literally. */
  function ReplaceAll(s: string, tok: string, rep: string): (r: string)
    requires |tok| > 0
    ensures rep == tok ==> r == s
    decreases |s|
  {
    if |s| < |tok| then s
    else if s[..|tok|] == tok then rep + ReplaceAll(s[|tok|..], tok, rep)
    else [s[0]] + ReplaceAll(s[1..], tok, rep)
  }

  /** An occurrence in the tail of a text is an occurrence in the text, one place later. */
  lemma OccursInTail(tok: string, s: string, p: int)
    requires |s| > 0
    ensures OccursAt(tok, s[1..], p) ==> OccursAt(tok, s, p + 1)
  {
    if OccursAt(tok, s[1..], p) {
      assert s[p + 1..p + 1 + |tok|] == s[1..][p..p + |tok|];
    }
  }

  /** A text in which the token does not occur is left as it is. */
  lemma {:induction false} ReplaceAbsent(s: string, tok: string, rep: string)
    requires |tok| > 0 && !Occurs(tok, s)
    ensures ReplaceAll(s, tok, rep) == s
    decreases |s|
  {
    if |s| >= |tok| {
      assert !OccursAt(tok, s, 0);
      forall p ensures !OccursAt(tok, s[1..], p) {
        OccursInTail(tok, s, p);
      }
      ReplaceAbsent(s[1..], tok, rep);
      assert [s[0]] + s[1..] == s;
    }
  }

  /** Each occurrence of the token is replaced and the text on either side is processed
      on its own: together with ReplaceAbsent this determines ReplaceAll entirely. */
  lemma {:induction false} ReplaceSplits(a: string, tok: string, b: string, rep: string)
    requires Unoverlapping(tok)
    ensures ReplaceAll(a + tok + b, tok, rep) == ReplaceAll(a, tok, rep) + rep + ReplaceAll(b, tok, rep)
    decreases |a|, 1
  {
    if |a| == 0 {
      var s := a + tok + b;
      assert s == tok + b;
      assert s[..|tok|] == tok && s[|tok|..] == b;
    } else if |a| < |tok| || a[..|tok|] != tok {
      ReplaceSplitsPassing(a, tok, b, rep);
    } else {
      ReplaceSplitsReplacing(a, tok, b, rep);
    }
  }

  lemma {:induction false} ReplaceSplitsPassing(a: string, tok: string, b: string, rep: string)
    requires Unoverlapping(tok) && |a| > 0
    requires |a| < |tok| || a[..|tok|] != tok
    ensures ReplaceAll(a + tok + b, tok, rep) == ReplaceAll(a, tok, rep) + rep + ReplaceAll(b, tok, rep)
    decreases |a|, 0
  {
    ReplaceSplitsStep(a, tok, b, rep);
    ReplaceSplits(a[1..], tok, b, rep);
    var x, y := ReplaceAll(a[1..], tok, rep), ReplaceAll(b, tok, rep);
    assert [a[0]] + (x + rep + y) == ([a[0]] + x) + rep + y;
  }

  lemma {:induction false} ReplaceSplitsReplacing(a: string, tok: string, b: string, rep: string)
    requires Unoverlapping(tok) && |tok| <= |a| && a[..|tok|] == tok
    ensures ReplaceAll(a + tok + b, tok, rep) == ReplaceAll(a, tok, rep) + rep + ReplaceAll(b, tok, rep)
    decreases |a|, 0
  {
    ReplaceSplitsToken(a, tok, b, rep);
    ReplaceSplits(a[|tok|..], tok, b, rep);
    var x, y := ReplaceAll(a[|tok|..], tok, rep), ReplaceAll(b, tok, rep);
    assert rep + (x + rep + y) == (rep + x) + rep + y;
  }

  /** When `a` starts with the token, so does `a + tok + b`: both texts replace it. */
  lemma ReplaceSplitsToken(a: string, tok: string, b: string, rep: string)
    requires 0 < |tok| <= |a| && a[..|tok|] == tok
    ensures ReplaceAll(a + tok + b, tok, rep) == rep + ReplaceAll(a[|tok|..] + tok + b, tok, rep)
    ensures ReplaceAll(a, tok, rep) == rep + ReplaceAll(a[|tok|..], tok, rep)
  {
    var s := a + tok + b;
    assert s[..|tok|] == a[..|tok|];
    assert s[|tok|..] == a[|tok|..] + tok + b;
  }

  /** When `a` does not start with the token, neither does `a + tok + b`: both texts
      pass their first character through. */
  lemma ReplaceSplitsStep(a: string, tok: string, b: string, rep: string)
    requires Unoverlapping(tok) && |a| > 0
    requires |a| < |tok| || a[..|tok|] != tok
    ensures ReplaceAll(a + tok + b, tok, rep) == [a[0]] + ReplaceAll(a[1..] + tok + b, tok, rep)
    ensures ReplaceAll(a, tok, rep) == [a[0]] + ReplaceAll(a[1..], tok, rep)
  {
    var s := a + tok + b;
    assert s[1..] == a[1..] + tok + b;
    assert s[0] == a[0];
    if |a| < |tok| {
      assert s[|a|] == tok[0];
      assert s[..|tok|] != tok by {
        assert s[..|tok|][|a|] == s[|a|];
      }
      ReplaceShort(a, tok, rep);
      ReplaceShort(a[1..], tok, rep);
      assert [a[0]] + a[1..] == a;
    } else {
      assert s[..|tok|] == a[..|tok|];
    }
  }

  lemma ReplaceShort(a: string, tok: string, rep: string)
    requires 0 < |tok| && |a| < |tok|
    ensures ReplaceAll(a, tok, rep) == a
  {
  }

  /** Text that cannot hold the start of the token comes out of ReplaceAll unchanged at the front. */
  lemma {:induction false} ReplaceKeepsPrefix(x: string, tok: string, rep: string, m: int)
    requires |tok| > 0 && 0 <= m <= |x|
    requires forall k :: 0 <= k < m ==> x[k] != tok[0]
    ensures |ReplaceAll(x, tok, rep)| >= m && ReplaceAll(x, tok, rep)[..m] == x[..m]
    decreases |x|
  {
    if m > 0 && |x| >= |tok| {
      assert x[..|tok|] != tok by {
        assert x[..|tok|][0] == x[0];
      }
      ReplaceKeepsPrefix(x[1..], tok, rep, m - 1);
      var r := ReplaceAll(x[1..], tok, rep);
      assert ([x[0]] + r)[..m] == [x[0]] + r[..m - 1];
      assert x[..m] == [x[0]] + x[1..][..m - 1];
    }
  }

  /** A placeholder at the very front of a text rules out another one starting inside it. */
  lemma TokenAtFrontExcludes(s: string, i: nat, j: nat, p: int)
    requires i != j && OccursAt(Token(j), s, 0) && OccursAt(Token(i), s, p)
    ensures p >= |Token(j)|
  {
    var ti, tj := Token(i), Token(j);
    CharsOfOccurrence(tj, s, 0);
    CharsOfOccurrence(ti, s, p);
    if p == 0 && |ti| == |tj| {
      assert Decimal(i) == ti[1..|ti| - 1];
      assert Decimal(j) == tj[1..|tj| - 1];
      DecimalInjective(i, j);
    }
  }

  /** The characters of an occurrence are those of the token. */
  lemma CharsOfOccurrence(tok: string, s: string, p: int)
    requires OccursAt(tok, s, p)
    ensures forall k :: 0 <= k < |tok| ==> s[p + k] == tok[k]
  {
    forall k | 0 <= k < |tok| ensures s[p + k] == tok[k] {
      assert s[p..p + |tok|][k] == s[p + k];
    }
  }

  /** An occurrence after position `n` is an occurrence in the suffix from `n`. */
  lemma OccursInSuffix(tok: string, s: string, p: int, n: int)
    requires OccursAt(tok, s, p) && 0 <= n <= p
    ensures OccursAt(tok, s[n..], p - n)
  {
    assert s[n..][p - n..p - n + |tok|] == s[p..p + |tok|];
  }

  /** An occurrence in `r` is an occurrence in `x + r`, shifted by `|x|`. */
  lemma OccursAfter(tok: string, x: string, r: string, q: int)
    requires OccursAt(tok, r, q)
    ensures OccursAt(tok, x + r, |x| + q)
  {
    assert (x + r)[|x| + q..|x| + q + |tok|] == r[q..q + |tok|];
  }

  /** Replacing placeholder `{j}` never destroys an occurrence of a different placeholder `{i}`. */
  lemma {:induction false} ReplaceKeepsOtherToken(s: string, i: nat, j: nat, rep: string)
    requires i != j && Occurs(Token(i), s)
    ensures Occurs(Token(i), ReplaceAll(s, Token(j), rep))
    decreases |s|, 1
  {
    var tj := Token(j);
    var p :| OccursAt(Token(i), s, p);
    if |s| < |tj| {
      ReplaceShort(s, tj, rep);
    } else if s[..|tj|] == tj {
      KeepsOtherPastToken(s, i, j, rep, p);
    } else if p > 0 {
      KeepsOtherPastChar(s, i, j, rep, p);
    } else {
      KeepsOtherAtFront(s, i, j, rep);
    }
  }

  lemma {:induction false} KeepsOtherPastToken(s: string, i: nat, j: nat, rep: string, p: int)
    requires i != j && OccursAt(Token(i), s, p)
    requires |Token(j)| <= |s| && s[..|Token(j)|] == Token(j)
    ensures Occurs(Token(i), ReplaceAll(s, Token(j), rep))
    decreases |s|, 0
  {
    var tj := Token(j);
    TokenAtFrontExcludes(s, i, j, p);
    var rest := s[|tj|..];
    OccursInSuffix(Token(i), s, p, |tj|);
    ReplaceKeepsOtherToken(rest, i, j, rep);
    var r := ReplaceAll(rest, tj, rep);
    var q :| OccursAt(Token(i), r, q);
    OccursAfter(Token(i), rep, r, q);
  }

  lemma {:induction false} KeepsOtherPastChar(s: string, i: nat, j: nat, rep: string, p: int)
    requires i != j && OccursAt(Token(i), s, p) && p > 0
    requires |Token(j)| <= |s| && s[..|Token(j)|] != Token(j)
    ensures Occurs(Token(i), ReplaceAll(s, Token(j), rep))
    decreases |s|, 0
  {
    var tj := Token(j);
    var rest := s[1..];
    OccursInSuffix(Token(i), s, p, 1);
    ReplaceKeepsOtherToken(rest, i, j, rep);
    var r := ReplaceAll(rest, tj, rep);
    var q :| OccursAt(Token(i), r, q);
    OccursAfter(Token(i), [s[0]], r, q);
  }

  lemma KeepsOtherAtFront(s: string, i: nat, j: nat, rep: string)
    requires i != j && OccursAt(Token(i), s, 0)
    requires |Token(j)| <= |s| && s[..|Token(j)|] != Token(j)
    ensures Occurs(Token(i), ReplaceAll(s, Token(j), rep))
  {
    var ti, tj := Token(i), Token(j);
    var rest := s[1..];
    var m := |ti| - 1;
    CharsOfOccurrence(ti, s, 0);
    assert forall k :: 0 <= k < m ==> rest[k] == ti[k + 1];
    ReplaceKeepsPrefix(rest, tj, rep, m);
    var r := ReplaceAll(rest, tj, rep);
    assert ReplaceAll(s, tj, rep) == [s[0]] + r;
    assert ([s[0]] + r)[..|ti|] == [s[0]] + r[..m];
    assert s[..|ti|] == [s[0]] + rest[..m];
    assert OccursAt(ti, [s[0]] + r, 0);
  }

  /** Text free of the token's first character passes through ReplaceAll untouched. */
  lemma {:induction false} ReplacePassesPrefix(a: string, x: string, tok: string, rep: string)
    requires |tok| > 0 && tok[0] !in a
    ensures ReplaceAll(a + x, tok, rep) == a + ReplaceAll(x, tok, rep)
    decreases |a|
  {
    if |a| > 0 {
      var s := a + x;
      assert s[0] == a[0];
      assert s[1..] == a[1..] + x;
      if |s| >= |tok| {
        assert s[..|tok|] != tok by { assert s[..|tok|][0] == a[0]; }
      }
      ReplacePassesPrefix(a[1..], x, tok, rep);
      assert [a[0]] + (a[1..] + ReplaceAll(x, tok, rep)) == a + ReplaceAll(x, tok, rep);
    } else {
      assert a + x == x;
    }
  }

  /** A text that starts with placeholder `{i}` does not start with a different one. */
  lemma OtherTokenNotAtFront(s: string, i: nat, j: nat)
    requires i != j && OccursAt(Token(i), s, 0) && |Token(j)| <= |s|
    ensures s[..|Token(j)|] != Token(j)
  {
    if s[..|Token(j)|] == Token(j) {
      TokenAtFrontExcludes(s, i, j, 0);
    }
  }

  /** A text that does not start with the token, and whose later characters cannot begin
      one, passes through ReplaceAll untouched ahead of whatever follows it. */
  lemma ReplaceSkipsFront(t: string, b: string, tok: string, rep: string)
    requires |tok| > 0 && |t| > 0 && tok[0] !in t[1..]
    requires |t + b| >= |tok| ==> (t + b)[..|tok|] != tok
    ensures ReplaceAll(t + b, tok, rep) == t + ReplaceAll(b, tok, rep)
  {
    var s := t + b;
    if |s| < |tok| {
      ReplaceShort(b, tok, rep);
    } else {
      var x := ReplaceAll(b, tok, rep);
      calc {
        ReplaceAll(s, tok, rep);
        [s[0]] + ReplaceAll(s[1..], tok, rep);
        { TailOfConcat(t, b);
          ReplacePassesPrefix(t[1..], b, tok, rep); }
        [t[0]] + (t[1..] + x);
        { assert t == [t[0]] + t[1..]; }
        t + x;
      }
    }
  }

  lemma TailOfConcat(t: string, b: string)
    requires |t| > 0
    ensures (t + b)[1..] == t[1..] + b
  {
  }

  /** Replacing `{j}` leaves a different placeholder `{i}` at the front of the text intact. */
  lemma ReplaceSkipsOtherToken(i: nat, j: nat, b: string, rep: string)
    requires i != j
    ensures ReplaceAll(Token(i) + b, Token(j), rep) == Token(i) + ReplaceAll(b, Token(j), rep)
  {
    var ti, tj := Token(i), Token(j);
    var s := ti + b;
    assert s[..|ti|] == ti;
    if |s| >= |tj| {
      OtherTokenNotAtFront(s, i, j);
    }
    assert forall k :: 0 <= k < |ti[1..]| ==> ti[1..][k] == ti[k + 1];
    ReplaceSkipsFront(ti, b, tj, rep);
  }

  /** Text without any '{' holds no placeholder and is left as it is. */
  lemma ReplaceWithoutBrace(a: string, i: nat, rep: string)
    requires '{' !in a
    ensures ReplaceAll(a, Token(i), rep) == a
  {
    ReplacePassesPrefix(a, "", Token(i), rep);
    assert a + "" == a;
  }

  /** Replacing `{i}` in a text where it is the only brace-opened token. */
  lemma ReplaceLoneToken(a: string, i: nat, b: string, rep: string)
    requires '{' !in a && '{' !in b
    ensures ReplaceAll(a + Token(i) + b, Token(i), rep) == a + rep + b
  {
    ReplaceSplits(a, Token(i), b, rep);
    ReplaceWithoutBrace(a, i, rep);
    ReplaceWithoutBrace(b, i, rep);
  }

  /** Replacing `{j}` passes over a text whose first brace opens another placeholder `{i}`. */
  lemma ReplacePastOtherToken(a: string, i: nat, b: string, j: nat, rep: string)
    requires '{' !in a && i != j
    ensures ReplaceAll(a + Token(i) + b, Token(j), rep) == a + Token(i) + ReplaceAll(b, Token(j), rep)
  {
    var ti, tj := Token(i), Token(j);
    calc {
      ReplaceAll(a + ti + b, tj, rep);
      { assert a + ti + b == a + (ti + b); }
      ReplaceAll(a + (ti + b), tj, rep);
      { ReplacePassesPrefix(a, ti + b, tj, rep); }
      a + ReplaceAll(ti + b, tj, rep);
      { ReplaceSkipsOtherToken(i, j, b, rep); }
      a + (ti + ReplaceAll(b, tj, rep));
      a + ti + ReplaceAll(b, tj, rep);
    }
  }

  /** Substitutes `groups[k]` for the placeholder `{offset + k}`, for k in increasing
      order; an absent group is skipped and its placeholder left in place. */
  function Substitute(s: string, groups: Groups, offset: nat): (r: string)
    ensures '{' !in s ==> r == s
    ensures (forall k :: 0 <= k < |groups| ==> groups[k].None?) ==> r == s
    decreases |groups|
  {
    if |groups| == 0 then s
    else
      var s' := if groups[0].Some? then ReplaceAll(s, Token(offset), groups[0].value) else s;
      assert '{' !in s ==> s' == s by {
        if '{' !in s && groups[0].Some? {
          ReplaceWithoutBrace(s, offset, groups[0].value);
        }
      }
      Substitute(s', groups[1..], offset + 1)
  }

  /** Filename groups first, from index 0; then, when present, content groups, whose
      indices continue after the last filename group. */
  function SubstituteGroups(template: string, r: Result): (s: string)
    ensures '{' !in template ==> s == template
  {
    var named := Substitute(template, r.groups, 0);
    match r.contentGroups
    case None => named
    case Some(content) => Substitute(named, content, |r.groups|)
  }

  /** The destination of a result: the substituted template resolved against the
      destination directory. */
  function MapToDestination(template: string, destination: Path, r: Result): (p: Path)
    ensures !IsAbsolute(SubstituteGroups(template, r)) ==>
      |p| >= |destination| && p[..|destination|] == destination
    ensures !IsAbsolute(SubstituteGroups(template, r)) ==>
      p[|destination|..] == Components(SubstituteGroups(template, r))
  {
    Resolve(destination, SubstituteGroups(template, r))
  }
}
