/**
 The dependency registry and the scan coordinator: the counters are seeded
 with every manifest dependency at 0, every candidate file is read once, and
 a file that was read adds at most 1 to each counter and one progress unit
 per dependency. The source spreads files over worker threads and serializes
 each file's pass over the counters with a lock; here the files are taken one
 at a time.
 */
module Scan {
  import opened Files
  import Matcher
  import Discovery
  import opened Counting

  /** The count map behind the lock and the progress-bar position. */
  class Registry {
    var counts: map<string, nat>
    var progress: nat

    /** Seeds one counter at 0 for every dependency key of the manifest; the
        version strings are ignored. */
    constructor (manifest: map<string, string>)
      ensures counts.Keys == manifest.Keys
      ensures forall d :: d in counts ==> counts[d] == 0
      ensures progress == 0
    {
      var seeded: map<string, nat> := map[];
      var todo := manifest.Keys;
      while todo != {}
        invariant seeded.Keys + todo == manifest.Keys
        invariant seeded.Keys !! todo
        invariant forall d :: d in seeded ==> seeded[d] == 0
        decreases todo
      {
        var d :| d in todo;
        seeded := seeded[d := 0];
        todo := todo - {d};
      }
      counts := seeded;
      progress := 0;
    }

    /** The per-file body of the scan: a failed read leaves everything as it
        was; otherwise every counter, in whatever order the map yields them,
        gains 1 if some line of the file contains its name, and the progress
        rises by one for each counter visited. */
    method ScanFile(f: ReadOutcome)
      modifies this
      ensures counts == AddFile(old(counts), f)
      ensures progress == old(progress) + (if f.Read? then |old(counts)| else 0)
    {
      if f.ReadFailed? {
        return;
      }
      var lines := Matcher.Split(f.contents);
      var todo := counts.Keys;
      while todo != {}
        invariant counts.Keys == old(counts).Keys
        invariant todo <= counts.Keys
        invariant forall d :: d in counts && d !in todo ==> counts[d] == old(counts)[d] + Hit(f, d)
        invariant forall d :: d in todo ==> counts[d] == old(counts)[d]
        invariant progress + |todo| == old(progress) + |old(counts)|
        decreases todo
      {
        var d :| d in todo;
        var matching := Matcher.MatchingLines(lines, d);
        assert Hit(f, d) == if |matching| > 0 then 1 else 0;
        counts := counts[d := counts[d] + if |matching| > 0 then 1 else 0];
        progress := progress + 1;
        todo := todo - {d};
      }
      assert counts == AddFile(old(counts), f);
    }
  }

  /** The read outcomes of a list of walk entries, in the same order. */
  function Outcomes(entries: seq<WalkEntry>): (r: seq<ReadOutcome>)
    ensures |r| == |entries|
    ensures forall e :: e in entries ==> e.outcome in r
  {
    var r := seq(|entries|, k requires 0 <= k < |entries| => entries[k].outcome);
    assert forall e :: e in entries ==> e.outcome in r by {
      forall e | e in entries ensures e.outcome in r {
        var k :| 0 <= k < |entries| && entries[k] == e;
        assert r[k] == e.outcome;
      }
    }
    r
  }

  lemma OutcomesConcat(u: seq<WalkEntry>, v: seq<WalkEntry>)
    ensures Outcomes(u + v) == Outcomes(u) + Outcomes(v)
  {
  }

  /** The progress bound of the scan, read on the candidate entries. */
  lemma ProgressBoundOnEntries(deps: nat, entries: seq<WalkEntry>)
    ensures Progress(deps, Outcomes(entries)) <= |entries| * deps
    ensures Progress(deps, Outcomes(entries)) == |entries| * deps <==>
      deps == 0 || forall e :: e in entries ==> e.outcome.Read?
  {
    var files := Outcomes(entries);
    ProgressBound(deps, files);
    assert (forall k :: 0 <= k < |files| ==> files[k].Read?) <==>
           (forall e :: e in entries ==> e.outcome.Read?) by {
      forall e | e in entries ensures exists k :: 0 <= k < |files| && files[k] == e.outcome {
        var k :| 0 <= k < |entries| && entries[k] == e;
        assert files[k] == e.outcome;
      }
    }
  }

  /** Scans every file once against every dependency: each counter ends at
      the number of files that use it and the progress at one unit per
      (read file, dependency) pair. */
  method ScanFiles(manifest: map<string, string>, files: seq<ReadOutcome>)
    returns (counts: map<string, nat>, progress: nat)
    ensures counts == Expected(manifest.Keys, files)
    ensures progress == Progress(|manifest|, files)
  {
    var registry := new Registry(manifest);
    ExpectedInitially(manifest.Keys, registry.counts);
    for i := 0 to |files|
      invariant registry.counts == Expected(manifest.Keys, files[..i])
      invariant registry.progress == Progress(|manifest|, files[..i])
    {
      ghost var done := files[..i];
      registry.ScanFile(files[i]);
      ExpectedSnoc(manifest.Keys, done, files[i]);
      ProgressSnoc(|manifest|, done, files[i]);
      assert files[..i + 1] == done + [files[i]];
    }
    assert files[..|files|] == files;
    counts, progress := registry.counts, registry.progress;
  }

  /** The scan of the candidate list: the progress total is fixed at
      `files × deps` before scanning; every dependency appears in the result,
      each count is the number of candidates that were read and use it (so
      at most the number of candidates), and the progress ends at most at
      the total, with equality exactly when no candidate failed to read (or
      there is no dependency). */
  method ScanCandidates(manifest: map<string, string>, entries: seq<WalkEntry>)
    returns (counts: map<string, nat>, progress: nat, total: nat)
    ensures counts == Expected(manifest.Keys, Outcomes(entries))
    ensures forall d :: d in counts ==> counts[d] <= |entries|
    ensures total == |entries| * |manifest|
    ensures progress == Progress(|manifest|, Outcomes(entries))
    ensures progress <= total
    ensures progress == total <==> |manifest| == 0 || forall e :: e in entries ==> e.outcome.Read?
  {
    var numFiles := |entries|;
    total := numFiles * |manifest|;
    var files := Outcomes(entries);
    counts, progress := ScanFiles(manifest, files);
    ExpectedBound(manifest.Keys, files);
    ProgressBoundOnEntries(|manifest|, entries);
  }

  /** The whole core: the walk is filtered to its candidates, which are
      then scanned. */
  method Run(root: string, manifest: map<string, string>, walk: seq<WalkEntry>)
    returns (counts: map<string, nat>, progress: nat, total: nat)
    ensures counts == Expected(manifest.Keys, Outcomes(Discovery.Candidates(root, walk)))
    ensures total == |Discovery.Candidates(root, walk)| * |manifest|
    ensures progress == Progress(|manifest|, Outcomes(Discovery.Candidates(root, walk)))
    ensures progress <= total
    ensures progress == total <==>
      |manifest| == 0 || forall e :: e in Discovery.Candidates(root, walk) ==> e.outcome.Read?
  {
    var entries := Discovery.Candidates(root, walk);
    counts, progress, total := ScanCandidates(manifest, entries);
  }

  /** Taking one entry out of a list takes its outcome out of the outcomes. */
  lemma OutcomesRemove(b: seq<WalkEntry>, j: nat)
    requires j < |b|
    ensures multiset(Outcomes(b)) == multiset{b[j].outcome} + multiset(Outcomes(b[..j] + b[j + 1..]))
  {
    var left, right := b[..j], b[j + 1..];
    assert b == left + [b[j]] + right;
    OutcomesConcat(left + [b[j]], right);
    OutcomesConcat(left, [b[j]]);
    OutcomesConcat(left, right);
    assert Outcomes([b[j]]) == [b[j].outcome];
  }

  lemma {:induction false} OutcomesPermutation(a: seq<WalkEntry>, b: seq<WalkEntry>)
    requires multiset(a) == multiset(b)
    ensures multiset(Outcomes(a)) == multiset(Outcomes(b))
    decreases |a|
  {
    if a == [] {
      assert |b| == |multiset(b)| == 0;
    } else {
      var x := a[0];
      assert x in multiset(b);
      var j :| 0 <= j < |b| && b[j] == x;
      var rest := b[..j] + b[j + 1..];
      assert b == b[..j] + [x] + b[j + 1..];
      assert multiset(rest) == multiset(b) - multiset{x};
      assert a == [x] + a[1..];
      assert multiset(a[1..]) == multiset(a) - multiset{x};
      OutcomesPermutation(a[1..], rest);
      OutcomesRemove(b, j);
      OutcomesRemove(a, 0);
      assert a[..0] + a[1..] == a[1..];
    }
  }

  /** The counts, the total and the final progress depend on which entries
      the walk yields, not on their order. */
  lemma WalkOrderIrrelevant(root: string, walk: seq<WalkEntry>, other: seq<WalkEntry>, name: string)
    requires multiset(walk) == multiset(other)
    ensures |Discovery.Candidates(root, walk)| == |Discovery.Candidates(root, other)|
    ensures UsesCount(Outcomes(Discovery.Candidates(root, walk)), name) ==
            UsesCount(Outcomes(Discovery.Candidates(root, other)), name)
    ensures ReadCount(Outcomes(Discovery.Candidates(root, walk))) ==
            ReadCount(Outcomes(Discovery.Candidates(root, other)))
  {
    var a, b := Discovery.Candidates(root, walk), Discovery.Candidates(root, other);
    forall e ensures multiset(a)[e] == multiset(b)[e] {
      Discovery.CandidatesMultiset(root, walk, e);
      Discovery.CandidatesMultiset(root, other, e);
    }
    assert multiset(a) == multiset(b);
    assert |a| == |multiset(a)| == |multiset(b)| == |b|;
    OutcomesPermutation(a, b);
    UsesCountPermutation(Outcomes(a), Outcomes(b), name);
  }
}
