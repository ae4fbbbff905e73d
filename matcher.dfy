/**
 The usage matcher: a file uses a dependency when at least one of the lines
 obtained by splitting its contents on '\n' contains the dependency name as a
 plain substring.
 */
module Matcher {

  /** Index of the first '\n' in `s`, or |s| when there is none. */
  function FirstNewline(s: string): (i: nat)
    ensures i <= |s|
    ensures i < |s| ==> s[i] == '\n'
    ensures forall k :: 0 <= k < i ==> s[k] != '\n'
  {
    if s == [] || s[0] == '\n' then 0 else 1 + FirstNewline(s[1..])
  }

  /** `str::split('\n')`: the pieces between newlines, one more piece than
      there are newlines (so the empty text yields one empty line). */
  function Split(s: string): (lines: seq<string>)
    ensures |lines| >= 1
    ensures forall k :: 0 <= k < |lines| ==> '\n' !in lines[k]
    decreases |s|
  {
    var i := FirstNewline(s);
    if i == |s| then
      assert forall c :: c in s ==> c != '\n';
      [s]
    else
      assert s == s[..i] + [s[i]] + s[i + 1..];
      assert '\n' !in s[..i];
      [s[..i]] + Split(s[i + 1..])
  }

  /** The inverse of Split: the lines glued back together with '\n'. */
  function JoinLines(lines: seq<string>): string
    requires |lines| >= 1
  {
    if |lines| == 1 then lines[0] else lines[0] + "\n" + JoinLines(lines[1..])
  }

  lemma {:induction false} JoinSplit(s: string)
    ensures JoinLines(Split(s)) == s
    decreases |s|
  {
    var i := FirstNewline(s);
    if i < |s| {
      var rest := s[i + 1..];
      JoinSplit(rest);
      var lines := Split(s);
      assert lines == [s[..i]] + Split(rest);
      assert |lines| > 1 && lines[0] == s[..i] && lines[1..] == Split(rest);
      assert JoinLines(lines) == s[..i] + "\n" + rest;
      assert s == s[..i] + "\n" + rest;
    }
  }

  /** A line without a newline, a newline, then the rest: the line is the
      first piece. */
  lemma SplitCons(head: string, rest: string)
    requires '\n' !in head
    ensures Split(head + "\n" + rest) == [head] + Split(rest)
  {
    var s := head + "\n" + rest;
    assert s[|head|] == '\n';
    assert forall k :: 0 <= k < |head| ==> s[k] == head[k];
    var i := FirstNewline(s);
    assert i == |head|;
    assert s[..i] == head;
    assert s[i + 1..] == rest;
  }

  lemma {:induction false} SplitJoin(lines: seq<string>)
    requires |lines| >= 1
    requires forall k :: 0 <= k < |lines| ==> '\n' !in lines[k]
    ensures Split(JoinLines(lines)) == lines
  {
    if |lines| == 1 {
      assert '\n' !in JoinLines(lines);
    } else {
      SplitJoin(lines[1..]);
      SplitCons(lines[0], JoinLines(lines[1..]));
    }
  }

  /** `p` occurs in `s` starting at offset `i`. */
  ghost predicate OccursAt(s: string, p: string, i: int)
  {
    0 <= i && i + |p| <= |s| && s[i..i + |p|] == p
  }

  /** `str::contains`: `p` occurs somewhere in `s` (the empty pattern occurs
      in every text). */
  function Contains(s: string, p: string): (r: bool)
    ensures r ==> |p| <= |s|
    ensures |p| == 0 ==> r
    decreases |s|
  {
    if |p| > |s| then false
    else if s[..|p|] == p then true
    else Contains(s[1..], p)
  }

  lemma {:induction false} ContainsIffOccurs(s: string, p: string)
    ensures Contains(s, p) <==> exists i :: OccursAt(s, p, i)
    decreases |s|
  {
    if |p| <= |s| && s[..|p|] == p {
      assert OccursAt(s, p, 0);
    } else if |p| <= |s| {
      ContainsIffOccurs(s[1..], p);
      forall i | OccursAt(s[1..], p, i) ensures OccursAt(s, p, i + 1) {
        assert s[i + 1..i + 1 + |p|] == s[1..][i..i + |p|];
      }
      forall i | OccursAt(s, p, i) ensures OccursAt(s[1..], p, i - 1) {
        assert s[1..][i - 1..i - 1 + |p|] == s[i..i + |p|];
      }
    }
  }

  /** An occurrence that spans a newline would put a newline in the pattern,
      so in a text made of two lines the pattern is in one of them. */
  lemma ContainsAcrossNewline(a: string, b: string, p: string)
    requires '\n' !in p
    ensures Contains(a + "\n" + b, p) <==> Contains(a, p) || Contains(b, p)
  {
    var s := a + "\n" + b;
    ContainsIffOccurs(s, p);
    ContainsIffOccurs(a, p);
    ContainsIffOccurs(b, p);
    forall i | OccursAt(s, p, i) ensures OccursAt(a, p, i) || OccursAt(b, p, i - |a| - 1) {
      OccursInJoined(a, b, p, i);
    }
    forall i | OccursAt(a, p, i) ensures OccursAt(s, p, i) {
      OccursInLeft(a, b, p, i);
    }
    forall i | OccursAt(b, p, i) ensures OccursAt(s, p, i + |a| + 1) {
      OccursInRight(a, b, p, i);
    }
  }

  lemma OccursInJoined(a: string, b: string, p: string, i: int)
    requires '\n' !in p && OccursAt(a + "\n" + b, p, i)
    ensures OccursAt(a, p, i) || OccursAt(b, p, i - |a| - 1)
  {
    var s := a + "\n" + b;
    forall k | i <= k < i + |p| ensures s[k] != '\n' {
      assert s[k] == p[k - i];
    }
    assert s[|a|] == '\n';
    if i + |p| <= |a| {
      assert s[i..i + |p|] == a[i..i + |p|];
    } else if i > |a| {
      assert s[i..i + |p|] == b[i - |a| - 1..i - |a| - 1 + |p|];
    }
  }

  lemma OccursInLeft(a: string, b: string, p: string, i: int)
    requires OccursAt(a, p, i)
    ensures OccursAt(a + "\n" + b, p, i)
  {
    var s := a + "\n" + b;
    assert s[i..i + |p|] == a[i..i + |p|];
  }

  lemma OccursInRight(a: string, b: string, p: string, i: int)
    requires OccursAt(b, p, i)
    ensures OccursAt(a + "\n" + b, p, i + |a| + 1)
  {
    var s := a + "\n" + b;
    assert s[i + |a| + 1..i + |a| + 1 + |p|] == b[i..i + |p|];
  }

  /** A character of the pattern is a character of any text containing it. */
  lemma ContainsKeepsCharacters(s: string, p: string, c: char)
    requires Contains(s, p) && c in p
    ensures c in s
  {
    ContainsIffOccurs(s, p);
    var i :| OccursAt(s, p, i);
    var k :| 0 <= k < |p| && p[k] == c;
    assert s[i + k] == s[i..i + |p|][k];
  }

  /** The lines that the source keeps with `filter(|line| line.contains(name))`,
      in their original order. */
  function MatchingLines(lines: seq<string>, name: string): (r: seq<string>)
    ensures |r| <= |lines|
    ensures forall k :: 0 <= k < |r| ==> Contains(r[k], name) && r[k] in lines
    ensures |r| > 0 <==> exists k :: 0 <= k < |lines| && Contains(lines[k], name)
  {
    if lines == [] then []
    else
      var rest := MatchingLines(lines[1..], name);
      assert forall k :: 1 <= k < |lines| ==> lines[k] == lines[1..][k - 1];
      if Contains(lines[0], name) then [lines[0]] + rest else rest
  }

  /** The file counts as using `name`: the filtered line list is not empty. */
  function Uses(contents: string, name: string): (r: bool)
    ensures r <==> exists k :: 0 <= k < |Split(contents)| && Contains(Split(contents)[k], name)
  {
    assert (exists k :: 0 <= k < |Split(contents)| && Contains(Split(contents)[k], name)) <==> |MatchingLines(Split(contents), name)| > 0;
    |MatchingLines(Split(contents), name)| > 0
  }

  /** A name without a newline is used exactly when the whole text contains
      it; a name with a newline is never used, since no line holds a newline. */
  lemma {:induction false} UsesIffContains(contents: string, name: string)
    ensures Uses(contents, name) <==> '\n' !in name && Contains(contents, name)
    decreases |contents|
  {
    var lines := Split(contents);
    var i := FirstNewline(contents);
    if i == |contents| {
      assert lines == [contents];
      if Contains(contents, name) && '\n' in name {
        ContainsKeepsCharacters(contents, name, '\n');
      }
    } else {
      var a, b := contents[..i], contents[i + 1..];
      assert contents == a + "\n" + b;
      assert lines == [a] + Split(b);
      UsesIffContains(b, name);
      assert Uses(contents, name) <==> Contains(a, name) || Uses(b, name) by {
        var other := Split(b);
        assert forall k :: 1 <= k < |lines| ==> lines[k] == other[k - 1];
        if Uses(b, name) {
          var k :| 0 <= k < |other| && Contains(other[k], name);
          assert Contains(lines[k + 1], name);
        }
      }
      if '\n' in name {
        if Contains(a, name) { ContainsKeepsCharacters(a, name, '\n'); }
      } else {
        ContainsAcrossNewline(a, b, name);
      }
    }
  }

  /** However many lines match, a file is one use: a text made of the same
      matching line twice has two matching lines. */
  lemma RepeatedLineMatchesTwice(line: string, name: string)
    requires '\n' !in line && Contains(line, name)
    ensures |MatchingLines(Split(line + "\n" + line), name)| == 2
    ensures Uses(line + "\n" + line, name)
  {
    var lines := [line, line];
    assert JoinLines(lines) == line + "\n" + line;
    SplitJoin(lines);
    assert MatchingLines(lines[1..], name) == [line];
  }

  lemma ManyMatchingLinesOneUse()
    ensures |MatchingLines(Split("import x" + "\n" + "import x"), "x")| == 2
    ensures Uses("import x" + "\n" + "import x", "x")
  {
    var line := "import x";
    assert line[7] == 'x' && line[7..8] == [line[7]];
    assert OccursAt(line, "x", 7);
    ContainsIffOccurs(line, "x");
    RepeatedLineMatchesTwice(line, "x");
  }
}
