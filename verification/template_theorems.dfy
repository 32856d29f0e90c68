/** Properties of destination-template substitution. */
module TemplateTheorems {
  import opened Regex
  import opened ScanResults
  import opened Template

  /** All groups of a result in placeholder order: filename groups, then content groups. */
  function AllGroups(r: Result): (g: Groups)
    ensures |g| >= |r.groups| && g[..|r.groups|] == r.groups
  {
    r.groups + (if r.contentGroups.Some? then r.contentGroups.value else [])
  }

  /** Placeholder `{i}` has a present group to be replaced with. */
  predicate Substituted(r: Result, i: nat) {
    i < |AllGroups(r)| && AllGroups(r)[i].Some?
  }

  /** Substituting a concatenation of group lists is substituting each list in turn,
      the second list's indices continuing after the first's. */
  lemma {:induction false} SubstituteConcat(s: string, g1: Groups, g2: Groups, offset: nat)
    ensures Substitute(s, g1 + g2, offset) == Substitute(Substitute(s, g1, offset), g2, offset + |g1|)
    decreases |g1|
  {
    if |g1| > 0 {
      assert (g1 + g2)[0] == g1[0];
      assert (g1 + g2)[1..] == g1[1..] + g2;
      var s' := if g1[0].Some? then ReplaceAll(s, Token(offset), g1[0].value) else s;
      SubstituteConcat(s', g1[1..], g2, offset + 1);
    } else {
      assert g1 + g2 == g2;
    }
  }

  /** The two loops of the mapping, filename groups then content groups offset by the
      filename group count, are one ascending pass over all groups. */
  lemma TwoPassesAreOnePass(template: string, r: Result)
    ensures SubstituteGroups(template, r) == Substitute(template, AllGroups(r), 0)
  {
    if r.contentGroups.Some? {
      SubstituteConcat(template, r.groups, r.contentGroups.value, 0);
    } else {
      assert AllGroups(r) == r.groups;
    }
  }

  /** A placeholder none of the substituted groups targets survives every pass. */
  lemma {:induction false} SubstituteKeepsToken(s: string, groups: Groups, offset: nat, i: nat)
    requires Occurs(Token(i), s)
    requires forall k :: 0 <= k < |groups| && groups[k].Some? ==> offset + k != i
    ensures Occurs(Token(i), Substitute(s, groups, offset))
    decreases |groups|
  {
    if |groups| > 0 {
      if groups[0].Some? {
        ReplaceKeepsOtherToken(s, i, offset, groups[0].value);
      }
      var s' := if groups[0].Some? then ReplaceAll(s, Token(offset), groups[0].value) else s;
      SubstituteKeepsToken(s', groups[1..], offset + 1, i);
    }
  }

  /** A placeholder whose group is absent, or whose index lies beyond every group,
      stays in the substituted text. */
  lemma AbsentGroupTokenSurvives(template: string, r: Result, i: nat)
    requires Occurs(Token(i), template) && !Substituted(r, i)
    ensures Occurs(Token(i), SubstituteGroups(template, r))
  {
    TwoPassesAreOnePass(template, r);
    SubstituteKeepsToken(template, AllGroups(r), 0, i);
  }

  /** Passes whose placeholders do not occur leave the text as it is. */
  lemma {:induction false} SubstituteWithoutTokens(s: string, groups: Groups, offset: nat)
    requires forall k :: 0 <= k < |groups| && groups[k].Some? ==> !Occurs(Token(offset + k), s)
    ensures Substitute(s, groups, offset) == s
    decreases |groups|
  {
    if |groups| > 0 {
      if groups[0].Some? {
        ReplaceAbsent(s, Token(offset), groups[0].value);
      }
      forall k | 0 <= k < |groups[1..]| && groups[1..][k].Some?
        ensures !Occurs(Token(offset + 1 + k), s)
      {
        assert groups[1..][k] == groups[k + 1];
      }
      SubstituteWithoutTokens(s, groups[1..], offset + 1);
    }
  }

  /** A template holding no placeholder of a present group comes out unchanged. */
  lemma TemplateWithoutTokensUnchanged(template: string, r: Result)
    requires forall i: nat :: Substituted(r, i) ==> !Occurs(Token(i), template)
    ensures SubstituteGroups(template, r) == template
  {
    TwoPassesAreOnePass(template, r);
    SubstituteWithoutTokens(template, AllGroups(r), 0);
  }
}
