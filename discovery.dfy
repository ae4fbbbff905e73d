/**
 The candidate-file filter applied to every entry of the recursive walk below
 the project root, and the filtered list the scan consumes.
 */
module Discovery {
  import opened Files

  /** `PathBuf::push` of one file name: a '/' goes between the two unless the
      base is empty or already ends in '/'. */
  function Push(base: string, name: string): string
  {
    if |base| == 0 || base[|base| - 1] == '/' then base + name else base + "/" + name
  }

  /** The string of the walk entry reached from `root` through `names`; the
      root itself when `names` is empty. */
  function FullPath(root: string, names: seq<string>): (r: string)
  {
    if names == [] then root
    else Push(FullPath(root, names[..|names| - 1]), names[|names| - 1])
  }

  /** Pushing a name keeps the base as a prefix and puts the name last. */
  lemma PushShape(base: string, name: string)
    ensures EndsWith(Push(base, name), name)
    ensures |base| <= |Push(base, name)| && Push(base, name)[..|base|] == base
  {
    var r := Push(base, name);
    if |base| == 0 || base[|base| - 1] == '/' {
      assert r == base + name;
    } else {
      assert r == base + "/" + name;
    }
  }

  /** The path string starts with the root and ends with the entry's own
      file name. */
  lemma {:induction false} FullPathShape(root: string, names: seq<string>)
    ensures |root| <= |FullPath(root, names)| && FullPath(root, names)[..|root|] == root
    ensures names != [] ==> EndsWith(FullPath(root, names), names[|names| - 1])
    decreases |names|
  {
    if names != [] {
      var parent := FullPath(root, names[..|names| - 1]);
      FullPathShape(root, names[..|names| - 1]);
      var p := Push(parent, names[|names| - 1]);
      PushShape(parent, names[|names| - 1]);
      assert p[..|root|] == parent[..|root|];
    }
  }

  predicate EndsWith(s: string, suffix: string)
  {
    |suffix| <= |s| && s[|s| - |suffix|..] == suffix
  }

  /** The pattern `(\.jsx?|\.tsx?)$`. */
  predicate HasSourceExtension(s: string)
  {
    EndsWith(s, ".js") || EndsWith(s, ".jsx") || EndsWith(s, ".ts") || EndsWith(s, ".tsx")
  }

  /** The pattern `(\.d.ts)$`: its middle '.' is not escaped, so it stands
      for any character except '\n'. */
  predicate MatchesDeclarationPattern(s: string)
  {
    && |s| >= 5
    && s[|s| - 5] == '.'
    && s[|s| - 4] == 'd'
    && s[|s| - 3] != '\n'
    && s[|s| - 2] == 't'
    && s[|s| - 1] == 's'
  }

  /** The directories directly beneath the root whose subtrees are skipped. */
  const ExcludedDirs: seq<string> := ["node_modules", "dist", ".next"]

  /** `Path::starts_with(root/dir)` for an entry below the root: whole
      components are compared, so `dist` and `dist/x.js` are below `dist`
      but `distro/x.js` is not. */
  predicate Below(names: seq<string>, dir: string)
  {
    |names| > 0 && names[0] == dir
  }

  predicate Excluded(names: seq<string>): (r: bool)
    ensures r <==> |names| > 0 && names[0] in ExcludedDirs
  {
    Below(names, "node_modules") || Below(names, "dist") || Below(names, ".next")
  }

  /** The five filters, in the source's order. Nothing asks for a regular
      file, so a directory whose name ends in a source extension is kept. */
  predicate Selected(root: string, names: seq<string>)
  {
    && !Excluded(names)
    && HasSourceExtension(FullPath(root, names))
    && !MatchesDeclarationPattern(FullPath(root, names))
  }

  /** The walk entries that survive the filters, in walk order. */
  function Candidates(root: string, walk: seq<WalkEntry>): (r: seq<WalkEntry>)
    ensures |r| <= |walk|
  {
    if walk == [] then []
    else
      var rest := Candidates(root, walk[1..]);
      if Selected(root, walk[0].names) then [walk[0]] + rest else rest
  }

  /** The filter takes the walk one entry at a time. */
  lemma CandidatesCons(root: string, e: WalkEntry, rest: seq<WalkEntry>)
    ensures Candidates(root, [e] + rest) == (if Selected(root, e.names) then [e] else []) + Candidates(root, rest)
  {
    assert ([e] + rest)[1..] == rest;
  }

  /** Filtering keeps every selected entry as often as the walk yields it
      and drops every other entry. */
  lemma {:induction false} CandidatesMultiset(root: string, walk: seq<WalkEntry>, e: WalkEntry)
    ensures multiset(Candidates(root, walk))[e] == if Selected(root, e.names) then multiset(walk)[e] else 0
  {
    if walk != [] {
      var rest := Candidates(root, walk[1..]);
      CandidatesMultiset(root, walk[1..], e);
      assert walk == [walk[0]] + walk[1..];
      assert multiset(walk)[e] == multiset([walk[0]])[e] + multiset(walk[1..])[e];
      if Selected(root, walk[0].names) {
        assert Candidates(root, walk) == [walk[0]] + rest;
        assert multiset([walk[0]] + rest)[e] == multiset([walk[0]])[e] + multiset(rest)[e];
      } else {
        assert Candidates(root, walk) == rest;
        assert walk[0] == e ==> !Selected(root, e.names);
      }
    }
  }

  /** Every candidate comes from the walk and passes the filters. */
  lemma CandidatesSelected(root: string, walk: seq<WalkEntry>)
    ensures forall e :: e in Candidates(root, walk) ==> Selected(root, e.names) && e in walk
  {
    forall e | e in Candidates(root, walk) ensures Selected(root, e.names) && e in walk {
      CandidatesMultiset(root, walk, e);
    }
  }

  /** An entry equal to or below an excluded directory never becomes a
      candidate, whatever it contains. */
  lemma ExcludedNeverCandidate(root: string, walk: seq<WalkEntry>, e: WalkEntry)
    requires |e.names| > 0 && e.names[0] in ExcludedDirs
    ensures e !in Candidates(root, walk)
  {
    CandidatesMultiset(root, walk, e);
  }

  /** Once the extension filter has run, the wildcard in `(\.d.ts)$` cannot
      be observed: a kept string ending in `ts` has a '.' before it, so the
      pattern then matches exactly the literal suffix `.d.ts`. */
  lemma DeclarationPatternOnSourcePaths(p: string)
    requires HasSourceExtension(p)
    ensures MatchesDeclarationPattern(p) <==> EndsWith(p, ".d.ts")
  {
    if EndsWith(p, ".ts") {
      assert p[|p| - 3..] == ".ts";
      assert p[|p| - 3] == '.' && p[|p| - 2] == 't' && p[|p| - 1] == 's';
    } else if EndsWith(p, ".js") {
      assert p[|p| - 3..] == ".js";
      assert p[|p| - 2] == 'j';
    } else {
      assert p[|p| - 1] == 'x';
    }
    if EndsWith(p, ".d.ts") {
      assert p[|p| - 5..] == ".d.ts";
      assert p[|p| - 5] == '.' && p[|p| - 4] == 'd';
    }
    if MatchesDeclarationPattern(p) {
      assert p[|p| - 5..] == [p[|p| - 5], p[|p| - 4], p[|p| - 3], p[|p| - 2], p[|p| - 1]];
    }
  }

  /** The selection, with the wildcard replaced by a literal '.'. */
  lemma SelectionRejectsLiteralDts(root: string, names: seq<string>)
    ensures Selected(root, names) <==>
      var p := FullPath(root, names);
      !Excluded(names) && HasSourceExtension(p) && !EndsWith(p, ".d.ts")
  {
    var p := FullPath(root, names);
    if HasSourceExtension(p) {
      DeclarationPatternOnSourcePaths(p);
    }
  }

  /** On its own the declaration pattern also matches `x.dxts`, but not a
      newline in the wildcard's place. */
  lemma DeclarationPatternWildcard()
    ensures MatchesDeclarationPattern("a.dxts")
    ensures !MatchesDeclarationPattern("a.d\nts")
    ensures !HasSourceExtension("a.dxts")
  {
  }

  /** The walk's file names are never empty and never hold a '/'. */
  predicate WellFormedNames(names: seq<string>)
  {
    forall k :: 0 <= k < |names| ==> |names[k]| > 0 && '/' !in names[k]
  }

  /** The root-relative path string: the names joined with '/'. */
  function RelativePath(names: seq<string>): string
  {
    if names == [] then ""
    else if |names| == 1 then names[0]
    else names[0] + "/" + RelativePath(names[1..])
  }

  /** The component-wise exclusion, read on the root-relative path string:
      an entry is below `dir` exactly when its relative path is `dir` or
      begins with `dir/`. */
  lemma BelowAsString(names: seq<string>, dir: string)
    requires WellFormedNames(names)
    requires |dir| > 0 && '/' !in dir
    ensures Below(names, dir) <==>
      var rel := RelativePath(names);
      rel == dir || (|dir| < |rel| && rel[..|dir| + 1] == dir + "/")
  {
    var rel := RelativePath(names);
    if |names| == 1 {
      assert rel == names[0];
      assert |dir| < |rel| ==> rel[|dir|] in names[0] && rel[|dir|] != '/';
    } else if |names| > 1 {
      var head := names[0];
      var tail := "/" + RelativePath(names[1..]);
      assert rel == head + tail;
      assert rel[|head|] == '/';
      assert forall k :: 0 <= k < |head| ==> rel[k] == head[k];
      if |dir| < |rel| && rel[..|dir| + 1] == dir + "/" {
        assert rel[|dir|] == '/';
        assert head == rel[..|dir|] == dir;
      }
      if head == dir {
        assert rel[..|dir| + 1] == dir + "/";
      }
    }
  }
}
