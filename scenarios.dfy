/**
 Two end-to-end scenarios of the scan, worked out on the specification
 functions the scan is proved against.
 */
module Scenarios {
  import opened Files
  import Matcher
  import Discovery
  import opened Counting
  import opened Scan

  /** The line `import "left-pad"` contains `left-pad` but not `axios`. */
  lemma ScenarioLineMatches(text: string)
    requires text == "import \"left-pad\""
    ensures Matcher.Contains(text, "left-pad")
    ensures !Matcher.Contains(text, "axios")
  {
    assert text[8..16] == "left-pad";
    Matcher.ContainsIffOccurs(text, "left-pad");
    assert Matcher.OccursAt(text, "left-pad", 8);
    assert 'x' !in text;
    if Matcher.Contains(text, "axios") {
      Matcher.ContainsKeepsCharacters(text, "axios", 'x');
    }
  }

  /** The root directory itself has no source extension. */
  lemma RootDropped(root: string)
    requires root == "project"
    ensures !Discovery.Selected(root, [])
  {
    assert Discovery.FullPath(root, []) == root;
    assert !Discovery.EndsWith(root, ".js") && !Discovery.EndsWith(root, ".jsx");
    assert !Discovery.EndsWith(root, ".ts") && !Discovery.EndsWith(root, ".tsx");
  }

  /** `package.json` has no source extension. */
  lemma ManifestDropped(root: string, names: seq<string>)
    requires root == "project" && names == ["package.json"]
    ensures !Discovery.Selected(root, names)
  {
    var p := Discovery.FullPath(root, names);
    Discovery.FullPathShape(root, names);
    assert p[|p| - 12..] == "package.json";
    assert p[|p| - 1] == 'n';
  }

  /** A `.js` file right beneath the root is kept. */
  lemma ScriptKept(root: string, names: seq<string>, name: string)
    requires root == "project" && names == [name] && (name == "a.js" || name == "b.js")
    ensures Discovery.Selected(root, names)
  {
    var p := Discovery.FullPath(root, names);
    Discovery.FullPathShape(root, names);
    assert p[|p| - 4..] == name;
    assert p[|p| - 3..] == name[1..] == ".js";
    assert p[|p| - 2] == 'j';
  }

  /** The walk of the two-file scenario keeps exactly the two `.js` files:
      the root directory and the manifest `package.json` are dropped. */
  lemma ScenarioCandidates(root: string, e0: WalkEntry, e1: WalkEntry, e2: WalkEntry, e3: WalkEntry)
    requires root == "project"
    requires e0.names == [] && e1.names == ["package.json"]
    requires e2.names == ["a.js"] && e3.names == ["b.js"]
    ensures Discovery.Candidates(root, [e0, e1, e2, e3]) == [e2, e3]
  {
    RootDropped(root);
    ManifestDropped(root, e1.names);
    ScriptKept(root, e2.names, "a.js");
    ScriptKept(root, e3.names, "b.js");
    Discovery.CandidatesCons(root, e3, []);
    Discovery.CandidatesCons(root, e2, [e3]);
    Discovery.CandidatesCons(root, e1, [e2, e3]);
    Discovery.CandidatesCons(root, e0, [e1, e2, e3]);
    assert [e0, e1, e2, e3] == [e0] + [e1, e2, e3];
    assert [e1, e2, e3] == [e1] + [e2, e3];
    assert [e2, e3] == [e2] + [e3];
    assert [e3] == [e3] + [];
  }

  /** The walk of the two-file scenario, whatever the manifest holds. */
  predicate TwoFileWalk(walk: seq<WalkEntry>, json: string, text: string)
  {
    walk == [WalkEntry([], ReadFailed), WalkEntry(["package.json"], Read(json)),
             WalkEntry(["a.js"], Read(text)), WalkEntry(["b.js"], Read(""))]
  }

  /** The files the two-file scenario scans, in walk order. */
  lemma ScenarioFiles(walk: seq<WalkEntry>, json: string, text: string)
    requires TwoFileWalk(walk, json, text)
    ensures Outcomes(Discovery.Candidates("project", walk)) == [Read(text), Read("")]
  {
    ScenarioCandidates("project", walk[0], walk[1], walk[2], walk[3]);
    var files := Outcomes([walk[2], walk[3]]);
    assert files[0] == walk[2].outcome && files[1] == walk[3].outcome;
  }

  /** A file that uses one name and not another, then a file that uses
      neither: counts 1 and 0. */
  lemma ScenarioCounts(text: string, empty: string, used: string, unused: string)
    requires '\n' !in used && Matcher.Contains(text, used) && !Matcher.Contains(text, unused)
    requires !Matcher.Contains(empty, used) && !Matcher.Contains(empty, unused)
    ensures UsesCount([Read(text), Read(empty)], used) == 1
    ensures UsesCount([Read(text), Read(empty)], unused) == 0
  {
    var files := [Read(text), Read(empty)];
    assert files == [Read(text)] + [Read(empty)];
    assert [Read(text)] == [] + [Read(text)];
    UsesCountSnoc([Read(text)], Read(empty), used);
    UsesCountSnoc([Read(text)], Read(empty), unused);
    UsesCountSnoc([], Read(text), used);
    UsesCountSnoc([], Read(text), unused);
  }

  /** The two-file walk, for any first file that uses `left-pad` and not
      `axios`. */
  lemma TwoFileCounts(walk: seq<WalkEntry>, json: string, text: string)
    requires Matcher.Contains(text, "left-pad") && !Matcher.Contains(text, "axios")
    requires TwoFileWalk(walk, json, text)
    ensures Outcomes(Discovery.Candidates("project", walk)) == [Read(text), Read("")]
    ensures UsesCount(Outcomes(Discovery.Candidates("project", walk)), "left-pad") == 1
    ensures UsesCount(Outcomes(Discovery.Candidates("project", walk)), "axios") == 0
  {
    ScenarioFiles(walk, json, text);
    ScenarioCounts(text, "", "left-pad", "axios");
  }

  /** A manifest declaring `left-pad` and `axios`, and a project whose two
      `.js` files hold the line `import "left-pad"` and nothing at all. The
      walk also yields the root directory and `package.json`, which the
      filters drop. The counts the scan ends with (`Run` ends with
      `Expected` of the candidates' outcomes) are 1 for `left-pad` and 0 for
      `axios`, which is therefore reported unused. */
  lemma TwoFileScenario(manifest: map<string, string>, walk: seq<WalkEntry>, json: string, text: string)
    requires manifest == map["left-pad" := "^1.3.0", "axios" := "^1.6.0"]
    requires text == "import \"left-pad\""
    requires TwoFileWalk(walk, json, text)
    ensures Outcomes(Discovery.Candidates("project", walk)) == [Read(text), Read("")]
    ensures Expected(manifest.Keys, Outcomes(Discovery.Candidates("project", walk)))
            == map["left-pad" := 1, "axios" := 0]
  {
    ScenarioLineMatches(text);
    TwoFileCounts(walk, json, text);
    ExpectedScenario(manifest.Keys, Outcomes(Discovery.Candidates("project", walk)));
  }

  /** The expected counts over a dependency set of `left-pad` and `axios`,
      read off the two counts. */
  lemma ExpectedScenario(deps: set<string>, files: seq<ReadOutcome>)
    requires deps == {"left-pad", "axios"}
    requires UsesCount(files, "left-pad") == 1 && UsesCount(files, "axios") == 0
    ensures Expected(deps, files) == map["left-pad" := 1, "axios" := 0]
  {
    var expected := Expected(deps, files);
    var wanted := map["left-pad" := 1, "axios" := 0];
    assert expected.Keys == wanted.Keys;
    forall d | d in expected ensures expected[d] == wanted[d] {
    }
  }

  /** The same manifest, with the only import inside `dist/bundle.js`: the
      excluded directory contributes no candidate, so left-pad stays at 0. */
  lemma ExcludedDirectoryScenario()
    ensures var walk := [WalkEntry(["dist"], ReadFailed),
                         WalkEntry(["dist", "bundle.js"], Read("import \"left-pad\""))];
            var candidates := Discovery.Candidates("project", walk);
            && candidates == []
            && UsesCount(Outcomes(candidates), "left-pad") == 0
  {
    var walk := [WalkEntry(["dist"], ReadFailed),
                 WalkEntry(["dist", "bundle.js"], Read("import \"left-pad\""))];
    assert walk[1..][1..] == [];
    assert Outcomes([]) == [];
  }
}
