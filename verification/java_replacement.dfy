/** The destination mapping as the code writes it: each placeholder is rewritten with
    `String.replaceAll`, so the group text is read as a replacement string in which
    `\` escapes the next character and `$` introduces a group reference. */
module JavaReplacement {
  import opened Base
  import opened Paths
  import opened Regex
  import opened ScanResults
  import opened Template
  import opened TemplateTheorems

  /** The exceptions `replaceAll` throws on a replacement string the placeholder
      pattern (which has no capture group) cannot expand. */
  datatype ReplacementError =
    | EscapeAtEnd            // a trailing '\' with nothing to escape
    | GroupIndexMissing      // a trailing '$'
    | NamedGroupReference    // "${": the pattern has no named group
    | IllegalGroupReference  // '$' followed by something other than a digit or '{'
    | NoGroup(index: nat)    // "$1" to "$9": only group 0 exists

  /** Drops the leading '0's: after "$0" they extend the reference to group 00...0, still group 0. */
  function SkipZeros(s: string): (r: string)
    ensures |r| <= |s|
    ensures |r| == 0 || r[0] != '0'
    ensures r == s[|s| - |r|..]
    decreases |s|
  {
    if |s| > 0 && s[0] == '0' then SkipZeros(s[1..]) else s
  }

  /** What one occurrence of the placeholder is replaced with, given the replacement
      string `rep` and the placeholder text `matched` (the whole match, group 0). */
  function Expand(rep: string, matched: string): (r: Outcome<string, ReplacementError>)
    ensures r.Failure? ==> !Plain(rep)
    decreases |rep|
  {
    if |rep| == 0 then Success("")
    else if rep[0] == '\\' then
      if |rep| == 1 then Failure(EscapeAtEnd)
      else
        var rest :- Expand(rep[2..], matched);
        Success([rep[1]] + rest)
    else if rep[0] == '$' then
      if |rep| == 1 then Failure(GroupIndexMissing)
      else if rep[1] == '{' then Failure(NamedGroupReference)
      else if !IsDigit(rep[1]) then Failure(IllegalGroupReference)
      else if rep[1] != '0' then Failure(NoGroup(DigitValue(rep[1])))
      else
        var rest :- Expand(SkipZeros(rep[2..]), matched);
        Success(matched + rest)
    else
      var rest :- Expand(rep[1..], matched);
      Success([rep[0]] + rest)
  }

  /** A replacement string is plain when it holds neither '$' nor '\'. */
  predicate Plain(rep: string) {
    '$' !in rep && '\\' !in rep
  }

  /** A plain replacement string expands to itself. */
  lemma {:induction false} ExpandPlain(rep: string, matched: string)
    requires Plain(rep)
    ensures Expand(rep, matched) == Success(rep)
    decreases |rep|
  {
    if |rep| > 0 {
      ExpandPlain(rep[1..], matched);
      assert [rep[0]] + rep[1..] == rep;
    }
  }

  /** A plain start of a replacement string is copied in front of the expansion of
      the rest, and cannot fail. */
  lemma {:induction false} ExpandPlainPrefix(a: string, rest: string, matched: string)
    requires Plain(a)
    ensures Expand(rest, matched).Success? ==>
      Expand(a + rest, matched) == Success(a + Expand(rest, matched).value)
    ensures Expand(rest, matched).Failure? ==>
      Expand(a + rest, matched) == Failure(Expand(rest, matched).error)
    decreases |a|
  {
    if |a| > 0 {
      assert a == [a[0]] + a[1..];
      ExpandPlainPrefix(a[1..], rest, matched);
      assert a + rest == [a[0]] + (a[1..] + rest);
      ExpandPlainChar(a[0], a[1..] + rest, matched);
      if Expand(rest, matched).Success? {
        assert [a[0]] + (a[1..] + Expand(rest, matched).value) == a + Expand(rest, matched).value;
      }
    } else {
      assert a + rest == rest;
      if Expand(rest, matched).Success? {
        assert a + Expand(rest, matched).value == Expand(rest, matched).value;
      }
    }
  }

  /** A character other than '$' and '\' is copied in front of the expansion of the rest. */
  lemma ExpandPlainChar(c: char, x: string, matched: string)
    requires c != '$' && c != '\\'
    ensures Expand(x, matched).Success? ==>
      Expand([c] + x, matched) == Success([c] + Expand(x, matched).value)
    ensures Expand(x, matched).Failure? ==>
      Expand([c] + x, matched) == Failure(Expand(x, matched).error)
  {
    var s := [c] + x;
    assert s[0] == c && s[1..] == x;
  }

  /** `s.replaceAll(token pattern, rep)`: every occurrence, left to right, is replaced by
      the expansion of `rep`; `rep` is only expanded where the token occurs. */
  function JavaReplaceAll(s: string, tok: string, rep: string): (r: Outcome<string, ReplacementError>)
    requires |tok| > 0
    ensures tok[0] !in s ==> r == Success(s)
    decreases |s|
  {
    if |s| < |tok| then Success(s)
    else if s[..|tok|] == tok then
      var e :- Expand(rep, tok);
      var rest :- JavaReplaceAll(s[|tok|..], tok, rep);
      Success(e + rest)
    else
      assert s == [s[0]] + s[1..];
      var rest :- JavaReplaceAll(s[1..], tok, rep);
      Success([s[0]] + rest)
  }

  /** When the replacement string expands without error, `replaceAll` is the literal
      replacement by its expansion. */
  lemma {:induction false} JavaReplaceAllIsLiteral(s: string, tok: string, rep: string, e: string)
    requires |tok| > 0 && Expand(rep, tok) == Success(e)
    ensures JavaReplaceAll(s, tok, rep) == Success(ReplaceAll(s, tok, e))
    decreases |s|
  {
    if |s| >= |tok| {
      if s[..|tok|] == tok {
        JavaReplaceAllIsLiteral(s[|tok|..], tok, rep, e);
      } else {
        JavaReplaceAllIsLiteral(s[1..], tok, rep, e);
      }
    }
  }

  /** The substitution loops as written: a failing `replaceAll` aborts the mapping. */
  function JavaSubstitute(s: string, groups: Groups, offset: nat): (r: Outcome<string, ReplacementError>)
    ensures r.Failure? ==> !PlainGroups(groups)
    ensures '{' !in s ==> r == Success(s)
    decreases |groups|
  {
    if |groups| == 0 then Success(s)
    else
      var first := if groups[0].Some? then JavaReplaceAll(s, Token(offset), groups[0].value) else Success(s);
      assert first.Failure? ==> !Plain(groups[0].value) by {
        if first.Failure? {
          JavaReplaceAllFails(s, Token(offset), groups[0].value);
        }
      }
      var s' :- first;
      var rest := JavaSubstitute(s', groups[1..], offset + 1);
      assert rest.Failure? ==> !PlainGroups(groups) by {
        if rest.Failure? {
          var k :| 0 <= k < |groups[1..]| && groups[1..][k].Some? && !Plain(groups[1..][k].value);
          assert groups[k + 1] == groups[1..][k];
        }
      }
      rest
  }

  /** The only error `replaceAll` raises is the one expanding the replacement string raises. */
  lemma {:induction false} JavaReplaceAllFails(s: string, tok: string, rep: string)
    requires |tok| > 0 && JavaReplaceAll(s, tok, rep).Failure?
    ensures JavaReplaceAll(s, tok, rep) == Expand(rep, tok)
    decreases |s|
  {
    if s[..|tok|] == tok {
      if Expand(rep, tok).Success? {
        JavaReplaceAllFails(s[|tok|..], tok, rep);
      }
    } else {
      JavaReplaceAllFails(s[1..], tok, rep);
    }
  }

  /** `mapResultToDestination` as written. */
  function JavaMapToDestination(template: string, destination: Path, r: Result): (p: Outcome<Path, ReplacementError>)
    ensures p.Failure? ==> !PlainGroups(r.groups) || (r.contentGroups.Some? && !PlainGroups(r.contentGroups.value))
    ensures '{' !in template ==> p == Success(Resolve(destination, template))
  {
    var named :- JavaSubstitute(template, r.groups, 0);
    var all :- match r.contentGroups
      case None => Success(named)
      case Some(content) => JavaSubstitute(named, content, |r.groups|);
    Success(Resolve(destination, all))
  }

  /** Every present group text is plain. */
  predicate PlainGroups(groups: Groups) {
    forall k :: 0 <= k < |groups| && groups[k].Some? ==> Plain(groups[k].value)
  }

  lemma {:induction false} JavaSubstituteOnPlain(s: string, groups: Groups, offset: nat)
    requires PlainGroups(groups)
    ensures JavaSubstitute(s, groups, offset) == Success(Substitute(s, groups, offset))
    decreases |groups|
  {
    if |groups| > 0 {
      if groups[0].Some? {
        ExpandPlain(groups[0].value, Token(offset));
        JavaReplaceAllIsLiteral(s, Token(offset), groups[0].value, groups[0].value);
      }
      var s' := if groups[0].Some? then ReplaceAll(s, Token(offset), groups[0].value) else s;
      assert PlainGroups(groups[1..]) by {
        forall k | 0 <= k < |groups[1..]| && groups[1..][k].Some? ensures Plain(groups[1..][k].value) {
          assert groups[1..][k] == groups[k + 1];
        }
      }
      JavaSubstituteOnPlain(s', groups[1..], offset + 1);
    }
  }

  /** As long as no group text holds '$' or '\', the mapping as written computes the
      literal substitution of the model. */
  lemma AsWrittenAgreesOnPlainGroups(template: string, destination: Path, r: Result)
    requires PlainGroups(AllGroups(r))
    ensures JavaMapToDestination(template, destination, r) == Success(MapToDestination(template, destination, r))
  {
    assert PlainGroups(r.groups) by {
      forall k | 0 <= k < |r.groups| && r.groups[k].Some? ensures Plain(r.groups[k].value) {
        assert AllGroups(r)[k] == r.groups[k];
      }
    }
    JavaSubstituteOnPlain(template, r.groups, 0);
    if r.contentGroups.Some? {
      var content := r.contentGroups.value;
      assert PlainGroups(content) by {
        forall k | 0 <= k < |content| && content[k].Some? ensures Plain(content[k].value) {
          assert AllGroups(r)[|r.groups| + k] == content[k];
        }
      }
      JavaSubstituteOnPlain(Substitute(template, r.groups, 0), content, |r.groups|);
    }
  }

  /** A reference "$1" to "$9" after plain text fails whatever follows it: the
      placeholder pattern has group 0 only. */
  lemma ReferenceAfterPlain(a: string, d: char, tail: string, matched: string)
    requires Plain(a) && '1' <= d <= '9'
    ensures Expand(a + (['$', d] + tail), matched) == Failure(NoGroup(DigitValue(d)))
  {
    var rep := ['$', d] + tail;
    assert rep[0] == '$' && rep[1] == d;
    ExpandPlainPrefix(a, rep, matched);
  }

  /** Identities between string literals, each kept in a lemma of its own: asserted
      inline, the literal texts unfold inside the larger proofs and make them too costly. */
  lemma DollarText()
    ensures "cost" + (['$', '1'] + ".txt") == "cost$1.txt"
  {
  }

  lemma DollarTemplate()
    ensures Token(0) == "{0}" && Token(1) == "{1}"
  {
  }

  /** Replacing "{0}" in "{1}" finds no occurrence, so the group text is never expanded. */
  lemma PassZeroSkipsOne(g: string)
    ensures JavaReplaceAll("{1}", Token(0), g) == Success("{1}")
  {
    DollarTemplate();
    var s := "{1}";
    assert s[..3][1] == '1' && "{0}"[1] == '0';
    assert JavaReplaceAll(s[1..], "{0}", g) == Success(s[1..]);
    assert [s[0]] + s[1..] == s;
  }

  /** Replacing "{1}" in "{1}" expands the group text and fails. */
  lemma DollarPassOne()
    ensures JavaReplaceAll("{1}", Token(1), "cost$1.txt") == Failure(NoGroup(1))
  {
    DollarTemplate();
    ReferenceAfterPlain("cost", '1', ".txt", "{1}");
    DollarText();
    assert "{1}"[..3] == "{1}";
  }

  lemma DollarLiteral(path: Path)
    ensures SubstituteGroups("{1}", Result(path, [Some("cost$1.txt"), Some("cost$1.txt")], None)) == "cost$1.txt"
  {
    var g := "cost$1.txt";
    var gs: Groups := [Some(g), Some(g)];
    LiteralPassZeroSkipsOne(g);
    LoneOneToken(g);
    assert Substitute("{1}", gs, 0) == Substitute("{1}", gs[1..], 1);
    assert Substitute("{1}", gs[1..], 1) == Substitute(g, [], 2);
  }

  /** The literal replacement of "{0}" leaves "{1}" as it is. */
  lemma LiteralPassZeroSkipsOne(g: string)
    ensures ReplaceAll("{1}", Token(0), g) == "{1}"
  {
    DollarTemplate();
    assert "{1}" == "" + Token(1) + "";
    ReplacePastOtherToken("", 1, "", 0, g);
    ReplaceWithoutBrace("", 0, g);
  }

  /** The literal replacement of "{1}" in "{1}" is the replacement text. */
  lemma LoneOneToken(g: string)
    ensures ReplaceAll("{1}", Token(1), g) == g
  {
    DollarTemplate();
    assert "{1}" == "" + Token(1) + "";
    ReplaceLoneToken("", 1, "", g);
    assert "" + g + "" == g;
  }

  /** A file named "cost$1.txt" directly under the root, matched whole by "(.+)" (which,
      unlike "(.*)", does not match the root's empty path first; see
      `Scenarios.DollarFileIsRecorded`), and mapped with "{1}": the code throws,
      because "$1" in the group text is read as a reference to a group the
      placeholder pattern does not have; the literal mapping gives "cost$1.txt". */
  lemma DollarInGroupTextThrows(destination: Path, path: Path)
    ensures JavaMapToDestination("{1}", destination, Result(path, [Some("cost$1.txt"), Some("cost$1.txt")], None))
      == Failure(NoGroup(1))
    ensures MapToDestination("{1}", destination, Result(path, [Some("cost$1.txt"), Some("cost$1.txt")], None))
      == destination + ["cost$1.txt"]
  {
    var g := "cost$1.txt";
    var gs: Groups := [Some(g), Some(g)];
    PassZeroSkipsOne(g);
    DollarPassOne();
    assert JavaSubstitute("{1}", gs, 0) == JavaSubstitute("{1}", gs[1..], 1);
    assert JavaSubstitute("{1}", gs[1..], 1) == Failure(NoGroup(1));
    DollarLiteral(path);
    assert ValidPath([g]) && Join([g]) == g;
    ResolveJoin(destination, [g]);
  }

  /** The backslash escapes the character after it. */
  lemma BackslashEscapes(matched: string)
    ensures Expand("a\\b", matched) == Success("ab")
  {
    var esc := "\\b";
    assert esc[0] == '\\' && esc[1] == 'b' && esc[2..] == "";
    assert Expand(esc[2..], matched) == Success("");
    assert [esc[1]] + "" == "b";
    assert Expand(esc, matched) == Success("b");
    ExpandPlainPrefix("a", esc, matched);
    assert "a" + esc == "a\\b";
    assert "a" + "b" == "ab";
  }

  /** A file "x" that a filter without capture groups matches whole (its only filename
      group is group 0, "x") and whose content a content filter without capture groups
      matches as "a\b", mapped with "{1}", the placeholder of content group 0: the
      code writes "ab", because the backslash escapes the 'b' and is lost; the
      literal mapping keeps "a\b". */
  lemma BackslashInGroupTextIsDropped(destination: Path, path: Path)
    ensures JavaMapToDestination("{1}", destination, Result(path, [Some("x")], Some([Some("a\\b")])))
      == Success(destination + ["ab"])
    ensures MapToDestination("{1}", destination, Result(path, [Some("x")], Some([Some("a\\b")])))
      == destination + ["a\\b"]
  {
    var g := "a\\b";
    var gs: Groups := [Some("x")];
    var cs: Groups := [Some(g)];
    PassZeroSkipsOne("x");
    assert JavaSubstitute("{1}", gs, 0) == JavaSubstitute("{1}", [], 1);
    BackslashEscapes(Token(1));
    JavaReplaceAllIsLiteral("{1}", Token(1), g, "ab");
    LoneOneToken("ab");
    assert JavaSubstitute("{1}", cs, 1) == JavaSubstitute("ab", [], 2);
    LiteralPassZeroSkipsOne("x");
    assert Substitute("{1}", gs, 0) == Substitute("{1}", [], 1);
    LoneOneToken(g);
    assert Substitute("{1}", cs, 1) == Substitute(g, [], 2);
    assert ValidPath(["ab"]) && Join(["ab"]) == "ab";
    assert ValidPath([g]) && Join([g]) == g;
    ResolveJoin(destination, ["ab"]);
    ResolveJoin(destination, [g]);
  }
}
