/** Concrete scenarios: typical configurations of the plugin, computed on the model.
    The regular expressions are given by their answers on the texts the scan asks about.

    Each scenario is proved in small steps: a "Shape" lemma splits the template around
    its placeholders, one "Pass" lemma per group does one replacement, and a "Text"
    lemma joins the pieces back into the expected literal; the "Path" and "Join" lemmas
    give the text of a literal path. These identities between
    string literals are lemmas of their own on purpose: asserted inside the larger
    proofs, the literal texts are unfolded character by character there and make
    those proofs too costly for the verifier. */
module Scenarios {
  import opened Base
  import opened Paths
  import opened Regex
  import opened FileTree
  import opened ScanResults
  import opened Scanner
  import opened Template

  /** Filename groups of "report_(\d+)\.log$" found in "a/report_2024.log". */
  function ReportGroups(): Groups {
    [Some("report_2024.log"), Some("2024")]
  }

  /** Content groups of "status: (\w+)" found in "status: WARN". */
  function StatusGroups(): Groups {
    [Some("status: WARN"), Some("WARN")]
  }

  lemma WorkedTemplateShape()
    ensures "out/{1}/{0}" == "out/" + Token(1) + ("/" + Token(0) + "")
  {
    assert Token(0) == "{0}" && Token(1) == "{1}";
  }

  lemma WorkedFirstPass()
    ensures ReplaceAll("out/" + Token(1) + ("/" + Token(0) + ""), Token(0), "report_2024.log")
      == "out/" + Token(1) + ("/" + "report_2024.log" + "")
  {
    ReplacePastOtherToken("out/", 1, "/" + Token(0) + "", 0, "report_2024.log");
    ReplaceLoneToken("/", 0, "", "report_2024.log");
  }

  lemma WorkedSecondPass()
    ensures ReplaceAll("out/" + Token(1) + ("/" + "report_2024.log" + ""), Token(1), "2024")
      == "out/" + "2024" + ("/" + "report_2024.log" + "")
  {
    ReplaceLoneToken("out/", 1, "/" + "report_2024.log" + "", "2024");
  }

  lemma WorkedText()
    ensures "out/" + "2024" + ("/" + "report_2024.log" + "") == "out/2024/report_2024.log"
  {
  }

  lemma WorkedSubstitution(path: Path)
    ensures SubstituteGroups("out/{1}/{0}", Result(path, ReportGroups(), None)) == "out/2024/report_2024.log"
  {
    WorkedTemplateShape();
    WorkedFirstPass();
    WorkedSecondPass();
    WorkedText();
    var gs := ReportGroups();
    var s1 := ReplaceAll("out/{1}/{0}", Token(0), "report_2024.log");
    assert Substitute("out/{1}/{0}", gs, 0) == Substitute(s1, gs[1..], 1);
    var s2 := ReplaceAll(s1, Token(1), "2024");
    assert Substitute(s1, gs[1..], 1) == Substitute(s2, [], 2);
  }

  /** "out/{1}/{0}" with groups ["report_2024.log", "2024"] maps to out/2024/report_2024.log
      under the destination directory. */
  lemma WorkedExample(destination: Path, path: Path)
    ensures SubstituteGroups("out/{1}/{0}", Result(path, ReportGroups(), None)) == "out/2024/report_2024.log"
    ensures MapToDestination("out/{1}/{0}", destination, Result(path, ReportGroups(), None))
      == destination + ["out", "2024", "report_2024.log"]
  {
    WorkedSubstitution(path);
    WorkedPathValid();
    JoinWorked();
    ResolveJoin(destination, ["out", "2024", "report_2024.log"]);
  }

  lemma WorkedPathValid()
    ensures ValidPath(["out", "2024", "report_2024.log"])
  {
  }

  lemma JoinWorked()
    ensures Join(["out", "2024", "report_2024.log"]) == "out/2024/report_2024.log"
  {
    var p := ["out", "2024", "report_2024.log"];
    assert p[1..] == ["2024", "report_2024.log"] && p[1..][1..] == ["report_2024.log"];
    assert Join(p[1..][1..]) == "report_2024.log";
    assert Join(p[1..]) == "2024" + "/" + "report_2024.log";
    assert Join(p) == "out" + "/" + ("2024" + "/" + "report_2024.log");
    WorkedPathText();
  }

  lemma WorkedPathText()
    ensures "out" + "/" + ("2024" + "/" + "report_2024.log") == "out/2024/report_2024.log"
  {
  }

  lemma OffsetTemplateShape()
    ensures "{2}/{1}" == "" + Token(2) + ("/" + Token(1) + "")
  {
    assert Token(1) == "{1}" && Token(2) == "{2}";
  }

  lemma OffsetPassZero()
    ensures ReplaceAll("" + Token(2) + ("/" + Token(1) + ""), Token(0), "report_2024.log")
      == "" + Token(2) + ("/" + Token(1) + "")
  {
    ReplacePastOtherToken("", 2, "/" + Token(1) + "", 0, "report_2024.log");
    ReplacePastOtherToken("/", 1, "", 0, "report_2024.log");
    ReplaceWithoutBrace("", 0, "report_2024.log");
  }

  lemma OffsetPassOne()
    ensures ReplaceAll("" + Token(2) + ("/" + Token(1) + ""), Token(1), "2024") == "" + Token(2) + ("/" + "2024" + "")
  {
    ReplacePastOtherToken("", 2, "/" + Token(1) + "", 1, "2024");
    ReplaceLoneToken("/", 1, "", "2024");
  }

  lemma OffsetPassTwo()
    ensures ReplaceAll("" + Token(2) + ("/" + "2024" + ""), Token(2), "WARN") == "" + "WARN" + ("/" + "2024" + "")
  {
    ReplaceLoneToken("", 2, "/" + "2024" + "", "WARN");
  }

  lemma OffsetText()
    ensures "" + "WARN" + ("/" + "2024" + "") == "WARN/2024"
  {
  }

  /** With two filename groups, content group 0 answers placeholder {2}:
      "{2}/{1}" with content groups ["WARN"] gives "WARN/2024". */
  lemma ContentGroupOffset(path: Path)
    ensures SubstituteGroups("{2}/{1}", Result(path, ReportGroups(), Some([Some("WARN")]))) == "WARN/2024"
  {
    OffsetTemplateShape();
    OffsetPassZero();
    OffsetPassOne();
    OffsetPassTwo();
    OffsetText();
    var gs := ReportGroups();
    var s1 := ReplaceAll("{2}/{1}", Token(1), "2024");
    assert Substitute("{2}/{1}", gs, 0) == Substitute("{2}/{1}", gs[1..], 1);
    assert Substitute("{2}/{1}", gs[1..], 1) == Substitute(s1, [], 2);
    assert Substitute(s1, [Some("WARN")], 2) == Substitute(ReplaceAll(s1, Token(2), "WARN"), [], 3);
  }

  /** Passes run in order on the text so far: group 0's text "{1}" is itself rewritten
      by the pass for group 1. */
  lemma LaterPassRewritesInsertedText(path: Path)
    ensures SubstituteGroups("{0}", Result(path, [Some("{1}"), Some("x")], None)) == "x"
  {
    var t0, t1 := Token(0), Token(1);
    assert t0 == "{0}" && t1 == "{1}";
    assert "{0}" == "" + t0 + "";
    ReplaceLoneToken("", 0, "", "{1}");
    assert "{1}" == "" + t1 + "";
    ReplaceLoneToken("", 1, "", "x");
    var gs: Groups := [Some("{1}"), Some("x")];
    assert Substitute("{0}", gs, 0) == Substitute("{1}", gs[1..], 1);
    assert Substitute("{1}", gs[1..], 1) == Substitute("x", [], 2);
  }

  /** An optional group that did not participate leaves its placeholder in the text. */
  lemma AbsentGroupPassesThrough(path: Path)
    ensures SubstituteGroups("out/{1}", Result(path, [Some("a"), None], None)) == "out/{1}"
  {
    var t0, t1 := Token(0), Token(1);
    assert t0 == "{0}" && t1 == "{1}";
    assert "out/{1}" == "out/" + t1 + "";
    ReplacePastOtherToken("out/", 1, "", 0, "a");
    ReplaceWithoutBrace("", 0, "a");
    var gs: Groups := [Some("a"), None];
    assert Substitute("out/{1}", gs, 0) == Substitute("out/{1}", gs[1..], 1);
  }

  function ReportMatch(): MatchState {
    MatchState(i => if i == 0 then Some("report_2024.log") else if i == 1 then Some("2024") else None)
  }

  function StatusMatch(): MatchState {
    MatchState(i => if i == 0 then Some("status: WARN") else if i == 1 then Some("WARN") else None)
  }

  /** "report_(\d+)\.log$" on relative path texts: of "", "a", "a/report_2024.log" and
      "a/notes.txt" it finds only the third. */
  function ReportFilter(text: string): Option<MatchState> {
    if text == "a/report_2024.log" then Some(ReportMatch()) else None
  }

  /** "status: (\w+)" on file contents. */
  function StatusFilter(text: string): Option<MatchState> {
    if text == "status: WARN" then Some(StatusMatch()) else None
  }

  function ScenarioConfig(): Config {
    Config(["proj"], Pattern(1, ReportFilter), Some(Pattern(1, StatusFilter)))
  }

  function Report(): Node {
    File("report_2024.log", 12, "status: WARN")
  }

  function Notes(): Node {
    File("notes.txt", 5, "hello")
  }

  /** proj/a/report_2024.log containing "status: WARN", and proj/a/notes.txt. */
  function ScenarioTree(): Node {
    Dir("proj", [Dir("a", [Report(), Notes()])])
  }

  function ReportResult(): Result {
    Result(["proj", "a", "report_2024.log"], ReportGroups(), Some(StatusGroups()))
  }

  lemma ReportPathText()
    ensures Join(["a", "report_2024.log"]) == "a/report_2024.log"
  {
    var p := ["a", "report_2024.log"];
    assert p[1..] == ["report_2024.log"];
    assert Join(p) == "a" + "/" + "report_2024.log";
  }

  lemma ReportContent()
    ensures ContentGroups(ScenarioConfig(), Report()) == Some(StatusGroups())
  {
    var content := Pattern(1, StatusFilter);
    assert content.find("status: WARN") == Some(StatusMatch());
    var g := GetGroups(content, StatusMatch());
    assert g[0] == Some("status: WARN") && g[1] == Some("WARN");
    assert g == StatusGroups();
  }

  lemma ReportRecorded()
    ensures Matches(ScenarioConfig(), ["a", "report_2024.log"])
    ensures Record(ScenarioConfig(), Entry(["a", "report_2024.log"], Report())) == ReportResult()
  {
    var cfg := ScenarioConfig();
    ReportPathText();
    ReportContent();
    var r := Record(cfg, Entry(["a", "report_2024.log"], Report()));
    var g := GetGroups(cfg.filter, ReportMatch());
    assert g[0] == Some("report_2024.log") && g[1] == Some("2024");
    assert r.groups == ReportGroups();
  }

  /** A directory at the root that does not match is walked as its only child. */
  lemma WalkThroughRoot(cfg: Config, name: Name, c: Node)
    requires !Matches(cfg, [])
    ensures Walk(cfg, Dir(name, [c]), [], Empty()) == Walk(cfg, c, [c.name], Empty())
  {
    var acc := Walk(cfg, c, [c.name], Empty());
    calc {
      Walk(cfg, Dir(name, [c]), [], Empty());
      WalkChildren(cfg, [c], [], Empty());
      { assert [] + [c.name] == [c.name];
        assert [c][1..] == []; }
      WalkChildren(cfg, [], [], acc);
      acc;
    }
  }

  /** A non-matching directory holding a matching file followed by a non-matching one
      yields the first file's record alone. */
  lemma WalkTwoFiles(cfg: Config, name: Name, f: Node, g: Node, rel: Path)
    requires f.File? && g.File?
    requires !Matches(cfg, rel) && Matches(cfg, rel + [f.name]) && !Matches(cfg, rel + [g.name])
    ensures Walk(cfg, Dir(name, [f, g]), rel, Empty()).items == [Record(cfg, Entry(rel + [f.name], f))]
  {
    var acc := Walk(cfg, f, rel + [f.name], Empty());
    assert acc.items == [] + [Record(cfg, Entry(rel + [f.name], f))];
    assert [f, g][1..] == [g] && [g][1..] == [];
    assert WalkChildren(cfg, [f, g], rel, Empty()) == WalkChildren(cfg, [g], rel, acc);
  }

  lemma ScenarioMatches()
    ensures !Matches(ScenarioConfig(), []) && !Matches(ScenarioConfig(), ["a"])
    ensures !Matches(ScenarioConfig(), ["a"] + [Notes().name])
  {
    assert Join([]) == "";
    assert Join(["a"]) == "a";
    var p := ["a"] + [Notes().name];
    assert p == ["a", "notes.txt"] && p[1..] == ["notes.txt"];
    assert Join(p) == "a" + "/" + "notes.txt";
  }

  /** The end-to-end scenario: one result, for a/report_2024.log, with its filename and
      content groups; notes.txt yields nothing. */
  lemma EndToEndScan()
    ensures Scan(ScenarioConfig(), ScenarioTree()) == [ReportResult()]
  {
    var cfg := ScenarioConfig();
    var a := Dir("a", [Report(), Notes()]);
    ScenarioMatches();
    ReportRecorded();
    assert ["a"] + [Report().name] == ["a", "report_2024.log"];
    WalkThroughRoot(cfg, "proj", a);
    WalkTwoFiles(cfg, "a", Report(), Notes(), ["a"]);
  }

  /** "(.+)" on a one-line text: group 0 and group 1 are the whole text; it finds nothing
      in the empty text. */
  function WholeNameFilter(text: string): Option<MatchState> {
    if |text| > 0 then Some(MatchState(i => if i <= 1 then Some(text) else None)) else None
  }

  function DollarConfig(base: Path): Config {
    Config(base, Pattern(1, WholeNameFilter), None)
  }

  /** Unlike "(.*)", "(.+)" does not match the root's empty relative path, so a file
      "cost$1.txt" directly under the root is recorded with groups
      ["cost$1.txt", "cost$1.txt"]: the input on which the mapping as written throws. */
  lemma DollarFileIsRecorded(base: Path, name: Name, size: nat, content: string)
    ensures Scan(DollarConfig(base), Dir(name, [File("cost$1.txt", size, content)]))
      == [Result(base + ["cost$1.txt"], [Some("cost$1.txt"), Some("cost$1.txt")], None)]
  {
    var cfg := DollarConfig(base);
    var f := File("cost$1.txt", size, content);
    assert Join([]) == "";
    WalkThroughRoot(cfg, name, f);
    assert Join([f.name]) == "cost$1.txt";
    var r := Record(cfg, Entry([f.name], f));
    assert r.groups == [Some("cost$1.txt"), Some("cost$1.txt")];
    assert Walk(cfg, f, [f.name], Empty()).items == [] + [r];
  }

  lemma LogTemplateShape()
    ensures "{1}-{2}.log" == "" + Token(1) + ("-" + Token(2) + ".log")
  {
    assert Token(1) == "{1}" && Token(2) == "{2}";
  }

  lemma LogPassZero()
    ensures ReplaceAll("" + Token(1) + ("-" + Token(2) + ".log"), Token(0), "report_2024.log")
      == "" + Token(1) + ("-" + Token(2) + ".log")
  {
    ReplacePastOtherToken("", 1, "-" + Token(2) + ".log", 0, "report_2024.log");
    ReplacePastOtherToken("-", 2, ".log", 0, "report_2024.log");
    ReplaceWithoutBrace(".log", 0, "report_2024.log");
  }

  lemma LogPassOne()
    ensures ReplaceAll("" + Token(1) + ("-" + Token(2) + ".log"), Token(1), "2024")
      == "" + "2024" + ("-" + Token(2) + ".log")
  {
    TokenUnoverlapping(1);
    ReplaceSplits("", Token(1), "-" + Token(2) + ".log", "2024");
    ReplaceWithoutBrace("", 1, "2024");
    ReplacePastOtherToken("-", 2, ".log", 1, "2024");
    ReplaceWithoutBrace(".log", 1, "2024");
  }

  lemma LogMiddleShape()
    ensures "" + "2024" + ("-" + Token(2) + ".log") == "2024-" + Token(2) + ".log"
  {
  }

  lemma LogPassTwo()
    ensures ReplaceAll("2024-" + Token(2) + ".log", Token(2), "status: WARN") == "2024-" + "status: WARN" + ".log"
  {
    ReplaceLoneToken("2024-", 2, ".log", "status: WARN");
  }

  lemma LogText()
    ensures "2024-" + "status: WARN" + ".log" == "2024-status: WARN.log"
    ensures '{' !in "2024-status: WARN.log"
  {
  }

  lemma LogNamed()
    ensures Substitute("{1}-{2}.log", ReportGroups(), 0) == "2024-" + Token(2) + ".log"
  {
    LogTemplateShape();
    LogPassZero();
    LogPassOne();
    LogMiddleShape();
    var gs := ReportGroups();
    var template := "{1}-{2}.log";
    assert Substitute(template, gs, 0) == Substitute(template, gs[1..], 1);
    assert Substitute(template, gs[1..], 1) == Substitute(ReplaceAll(template, Token(1), "2024"), [], 2);
  }

  lemma LogContent()
    ensures Substitute("2024-" + Token(2) + ".log", StatusGroups(), 2) == "2024-status: WARN.log"
  {
    LogPassTwo();
    LogText();
    var s2 := "2024-status: WARN.log";
    ReplaceWithoutBrace(s2, 3, "WARN");
    var cs := StatusGroups();
    assert Substitute("2024-" + Token(2) + ".log", cs, 2) == Substitute(s2, cs[1..], 3);
    assert Substitute(s2, cs[1..], 3) == Substitute(s2, [], 4);
  }

  lemma LogSubstitution()
    ensures SubstituteGroups("{1}-{2}.log", ReportResult()) == "2024-status: WARN.log"
  {
    LogNamed();
    LogContent();
  }

  lemma JoinLogName()
    ensures ValidPath(["2024-status: WARN.log"]) && Join(["2024-status: WARN.log"]) == "2024-status: WARN.log"
  {
  }

  /** Mapping that result with "{1}-{2}.log": placeholder {2} is content group 0, the
      whole content match, so the name is "2024-status: WARN.log". */
  lemma EndToEndDestination(destination: Path)
    ensures MapToDestination("{1}-{2}.log", destination, ReportResult()) == destination + ["2024-status: WARN.log"]
  {
    LogSubstitution();
    JoinLogName();
    ResolveJoin(destination, ["2024-status: WARN.log"]);
  }
}
