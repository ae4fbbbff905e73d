/**
 What the scan computes, stated on the list of read outcomes: how much one
 file adds to a dependency's counter and to the progress counter, and the
 totals over a file list, with the order-independence and bounds the
 counters obey.
 */
module Counting {
  import opened Files
  import Matcher

  /** One file's addition to the counter of `name`: 1 when the file was read
      and some line contains the name, otherwise 0. */
  function Hit(f: ReadOutcome, name: string): (h: nat)
    ensures h <= 1
    ensures h == 1 <==> f.Read? && '\n' !in name && Matcher.Contains(f.contents, name)
  {
    if f.Read? then
      Matcher.UsesIffContains(f.contents, name);
      if Matcher.Uses(f.contents, name) then 1 else 0
    else 0
  }

  /** The number of files in `files` whose outcome satisfies `p`. */
  function CountIf(files: seq<ReadOutcome>, p: ReadOutcome -> bool): (r: nat)
    ensures r <= |files|
  {
    if files == [] then 0 else (if p(files[0]) then 1 else 0) + CountIf(files[1..], p)
  }

  predicate IsRead(f: ReadOutcome)
  {
    f.Read?
  }

  /** `Hit` as the test `CountIf` takes. Naming the function value once
      lets every lemma pass the very same test that `UsesCount` uses. */
  function UsedBy(name: string): ReadOutcome -> bool
  {
    f => Hit(f, name) == 1
  }

  /** The final counter of `name`: the number of files that use it. */
  function UsesCount(files: seq<ReadOutcome>, name: string): (r: nat)
    ensures r <= |files|
  {
    CountIf(files, UsedBy(name))
  }

  /** The number of files that were read successfully. */
  function ReadCount(files: seq<ReadOutcome>): (r: nat)
    ensures r <= |files|
  {
    CountIf(files, IsRead)
  }

  lemma {:induction false} CountIfAppend(a: seq<ReadOutcome>, b: seq<ReadOutcome>, p: ReadOutcome -> bool)
    ensures CountIf(a + b, p) == CountIf(a, p) + CountIf(b, p)
    decreases |a|
  {
    if a == [] {
      assert a + b == b;
    } else {
      assert (a + b)[1..] == a[1..] + b;
      CountIfAppend(a[1..], b, p);
    }
  }

  /** One more file adds its own weight, which is how the scan loop advances. */
  lemma CountIfSnoc(a: seq<ReadOutcome>, f: ReadOutcome, p: ReadOutcome -> bool)
    ensures CountIf(a + [f], p) == CountIf(a, p) + (if p(f) then 1 else 0)
  {
    CountIfAppend(a, [f], p);
    assert [f][1..] == [];
  }

  /** Taking one file out of a list takes its weight out of the count. */
  lemma CountIfRemove(left: seq<ReadOutcome>, x: ReadOutcome, right: seq<ReadOutcome>, p: ReadOutcome -> bool)
    ensures CountIf(left + [x] + right, p) == (if p(x) then 1 else 0) + CountIf(left + right, p)
  {
    CountIfAppend(left + [x], right, p);
    CountIfSnoc(left, x, p);
    CountIfAppend(left, right, p);
  }

  lemma {:induction false} CountIfPermutation(a: seq<ReadOutcome>, b: seq<ReadOutcome>, p: ReadOutcome -> bool)
    requires multiset(a) == multiset(b)
    ensures CountIf(a, p) == CountIf(b, p)
    decreases |a|
  {
    if a == [] {
      assert |b| == |multiset(b)| == 0;
    } else {
      var x := a[0];
      assert x in multiset(b);
      var j :| 0 <= j < |b| && b[j] == x;
      var rest := b[..j] + b[j + 1..];
      assert b == b[..j] + [x] + b[j + 1..];
      assert multiset(rest) == multiset(b) - multiset{x};
      assert a == [x] + a[1..];
      assert multiset(a[1..]) == multiset(a) - multiset{x};
      CountIfPermutation(a[1..], rest, p);
      CountIfRemove(b[..j], x, b[j + 1..], p);
    }
  }

  lemma {:induction false} CountIfAtMost(a: seq<ReadOutcome>, p: ReadOutcome -> bool, q: ReadOutcome -> bool)
    requires forall k :: 0 <= k < |a| && p(a[k]) ==> q(a[k])
    ensures CountIf(a, p) <= CountIf(a, q) <= |a|
    decreases |a|
  {
    if a != [] {
      assert forall k :: 1 <= k < |a| ==> a[1..][k - 1] == a[k];
      CountIfAtMost(a[1..], p, q);
    }
  }

  lemma {:induction false} CountIfZero(a: seq<ReadOutcome>, p: ReadOutcome -> bool)
    ensures CountIf(a, p) == 0 <==> forall k :: 0 <= k < |a| ==> !p(a[k])
    decreases |a|
  {
    if a != [] {
      assert forall k :: 1 <= k < |a| ==> a[1..][k - 1] == a[k];
      CountIfZero(a[1..], p);
    }
  }

  lemma {:induction false} CountIfAll(a: seq<ReadOutcome>, p: ReadOutcome -> bool)
    ensures CountIf(a, p) == |a| <==> forall k :: 0 <= k < |a| ==> p(a[k])
    decreases |a|
  {
    if a != [] {
      assert forall k :: 1 <= k < |a| ==> a[1..][k - 1] == a[k];
      CountIfAll(a[1..], p);
      CountIfAtMost(a[1..], p, p);
    }
  }

  /** Scanning one more file adds its hit to a dependency's counter. */
  lemma UsesCountSnoc(files: seq<ReadOutcome>, f: ReadOutcome, name: string)
    ensures UsesCount(files + [f], name) == UsesCount(files, name) + Hit(f, name)
  {
    CountIfSnoc(files, f, UsedBy(name));
  }

  /** Scanning one more file adds one unit per dependency when it was read. */
  lemma ProgressSnoc(deps: nat, files: seq<ReadOutcome>, f: ReadOutcome)
    ensures Progress(deps, files + [f]) == Progress(deps, files) + (if f.Read? then deps else 0)
  {
    CountIfSnoc(files, f, IsRead);
    var r := ReadCount(files);
    assert deps * (r + 1) == deps * r + deps;
  }

  /** The count map after one more file: each counter gains that file's
      hit. No key is added or removed, no counter rises by more than 1, and
      a failed read changes nothing. */
  function AddFile(counts: map<string, nat>, f: ReadOutcome): (r: map<string, nat>)
    ensures r.Keys == counts.Keys
    ensures forall d :: d in r ==> counts[d] <= r[d] <= counts[d] + 1
    ensures f.ReadFailed? ==> r == counts
  {
    map d | d in counts :: counts[d] + Hit(f, d)
  }

  /** The count map after scanning `files` from zero: one counter per
      dependency, at the number of files that use it. */
  function Expected(deps: set<string>, files: seq<ReadOutcome>): (r: map<string, nat>)
    ensures r.Keys == deps
  {
    map d | d in deps :: UsesCount(files, d)
  }

  /** Before any file, every counter is 0. */
  lemma ExpectedInitially(deps: set<string>, counts: map<string, nat>)
    requires counts.Keys == deps
    requires forall d :: d in counts ==> counts[d] == 0
    ensures counts == Expected(deps, [])
  {
  }

  /** Scanning files one at a time with AddFile builds Expected. */
  lemma ExpectedSnoc(deps: set<string>, files: seq<ReadOutcome>, f: ReadOutcome)
    ensures AddFile(Expected(deps, files), f) == Expected(deps, files + [f])
  {
    var grown := AddFile(Expected(deps, files), f);
    var expected := Expected(deps, files + [f]);
    forall d | d in deps ensures grown[d] == expected[d] {
      UsesCountSnoc(files, f, d);
    }
    assert grown.Keys == expected.Keys;
  }

  /** Each file adds at most 1 to a counter, however many of its lines match,
      and only a file that was read can add anything: every final count is at
      most the number of files read, hence at most the number of files. */
  lemma UsesCountBound(files: seq<ReadOutcome>, name: string)
    ensures UsesCount(files, name) <= ReadCount(files) <= |files|
  {
    CountIfAtMost(files, UsedBy(name), IsRead);
  }

  /** The bound on every counter of the final map. */
  lemma ExpectedBound(deps: set<string>, files: seq<ReadOutcome>)
    ensures forall d :: d in Expected(deps, files) ==> Expected(deps, files)[d] <= ReadCount(files) <= |files|
  {
    forall d | d in deps ensures UsesCount(files, d) <= ReadCount(files) <= |files| {
      UsesCountBound(files, d);
    }
  }

  /** A dependency ends at 0 exactly when no file that was read has a line
      containing it. */
  lemma UsesCountZero(files: seq<ReadOutcome>, name: string)
    ensures UsesCount(files, name) == 0 <==>
      forall k :: 0 <= k < |files| && files[k].Read? ==> !Matcher.Uses(files[k].contents, name)
  {
    CountIfZero(files, UsedBy(name));
  }

  /** The final counters do not depend on the order of the file list. */
  lemma UsesCountPermutation(files: seq<ReadOutcome>, other: seq<ReadOutcome>, name: string)
    requires multiset(files) == multiset(other)
    ensures UsesCount(files, name) == UsesCount(other, name)
    ensures ReadCount(files) == ReadCount(other)
  {
    CountIfPermutation(files, other, UsedBy(name));
    CountIfPermutation(files, other, IsRead);
  }

  /** The progress counter after the whole list: one unit for every pair of
      a file that was read and a dependency. */
  function Progress(deps: nat, files: seq<ReadOutcome>): (r: nat)
    ensures r <= deps * |files|
  {
    ScaleBelow(deps, ReadCount(files), |files|);
    deps * ReadCount(files)
  }

  /** The progress counter never passes the precomputed total
      `files × deps`, and reaches it exactly when no file was skipped (or
      there is no dependency). */
  lemma ProgressBound(deps: nat, files: seq<ReadOutcome>)
    ensures Progress(deps, files) <= |files| * deps
    ensures Progress(deps, files) == |files| * deps <==>
      deps == 0 || forall k :: 0 <= k < |files| ==> files[k].Read?
  {
    CountIfAtMost(files, IsRead, IsRead);
    CountIfAll(files, IsRead);
    ScaleBelow(deps, ReadCount(files), |files|);
  }

  /** The arithmetic step behind `ProgressBound`: scaling `r <= n` by `d`
      keeps the order, and keeps it strict unless `d` is 0. */
  lemma {:induction false} ScaleBelow(d: nat, r: nat, n: nat)
    requires r <= n
    ensures d * r <= d * n
    ensures d * r == d * n <==> d == 0 || r == n
  {
    if d > 0 {
      ScaleBelow(d - 1, r, n);
      assert d * r == (d - 1) * r + r;
      assert d * n == (d - 1) * n + n;
    }
  }
}
