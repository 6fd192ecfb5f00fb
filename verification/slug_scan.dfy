/** The search for Vine video links in tweet text: every match of the regular
    expression `vine\.co/v/([A-Za-z0-9]+)` in a line, as Go's FindAllStringSubmatch
    reports them (leftmost first, greedy, not overlapping), and the slug sets the
    scanners build from them. */
module SlugScan {
  import opened Seqs
  import opened Text

  const Marker := "vine.co/v/"

  /** The character class `[A-Za-z0-9]`. */
  predicate IsAlnum(c: char) {
    ('A' <= c <= 'Z') || ('a' <= c <= 'z') || ('0' <= c <= '9')
  }

  /** The pattern can match starting at index `i`: the marker, then at least one
      letter or digit. */
  predicate MatchStarts(line: string, i: int) {
    OccursAt(line, Marker, i) && i + |Marker| < |line| && IsAlnum(line[i + |Marker|])
  }

  /** The end of the run of letters and digits that starts at `j`. */
  function RunEnd(line: string, j: nat): (e: nat)
    requires j <= |line|
    ensures j <= e <= |line|
    ensures forall k :: j <= k < e ==> IsAlnum(line[k])
    ensures e < |line| ==> !IsAlnum(line[e])
    decreases |line| - j
  {
    if j < |line| && IsAlnum(line[j]) then RunEnd(line, j + 1) else j
  }

  /** One match: the marker at `at`, followed by the captured slug. */
  datatype Span = Span(at: nat, slug: string)

  function End(m: Span): nat {
    m.at + |Marker| + |m.slug|
  }

  /** `m` is a match of the pattern in `line` whose capture cannot be extended: the
      marker sits at `m.at`, the slug follows it, is a non-empty run of letters and
      digits, and the line ends or a different character follows it. */
  ghost predicate Matches(line: string, m: Span) {
    && OccursAt(line, Marker, m.at)
    && OccursAt(line, m.slug, m.at + |Marker|)
    && m.slug != []
    && (forall k :: 0 <= k < |m.slug| ==> IsAlnum(m.slug[k]))
    && (End(m) == |line| || (End(m) < |line| && !IsAlnum(line[End(m)])))
  }

  /** `r` lists matches of the pattern in `line`, all at or after `i`, in order and
      disjoint. */
  ghost predicate InOrder(line: string, i: int, r: seq<Span>) {
    && (forall k :: 0 <= k < |r| ==> Matches(line, r[k]) && i <= r[k].at)
    && (forall k :: 0 <= k < |r| - 1 ==> End(r[k]) <= r[k + 1].at)
  }

  /** Where the pattern can start, the match runs to the end of the letters and
      digits after the marker. */
  lemma MatchAt(line: string, i: nat)
    requires MatchStarts(line, i)
    ensures var e := RunEnd(line, i + |Marker|);
            Matches(line, Span(i, line[i + |Marker|..e])) && End(Span(i, line[i + |Marker|..e])) == e
  {
    var e := RunEnd(line, i + |Marker|);
    var m := Span(i, line[i + |Marker|..e]);
    assert OccursAt(line, m.slug, m.at + |Marker|);
  }

  lemma InOrderCons(line: string, i: int, m: Span, rest: seq<Span>)
    requires Matches(line, m) && i <= m.at && InOrder(line, End(m), rest)
    ensures InOrder(line, i, [m] + rest)
  {
    var r := [m] + rest;
    forall k | 0 <= k < |r| ensures Matches(line, r[k]) && i <= r[k].at {
      if k > 0 {
        assert r[k] == rest[k - 1];
      }
    }
    forall k | 0 <= k < |r| - 1 ensures End(r[k]) <= r[k + 1].at {
      assert r[k + 1] == rest[k];
      if k > 0 {
        assert r[k] == rest[k - 1];
      }
    }
  }

  /** All matches at or after index `i`, left to right. Each match is found at the
      leftmost position where the pattern can start, and the search resumes where
      the match ends; so the matches are in order and disjoint, and every position
      where the pattern could start lies inside one of them. */
  function ScanFrom(line: string, i: nat): (r: seq<Span>)
    requires i <= |line|
    ensures InOrder(line, i, r)
    decreases |line| - i
  {
    if i == |line| then []
    else if MatchStarts(line, i) then
      var e := RunEnd(line, i + |Marker|);
      var m := Span(i, line[i + |Marker|..e]);
      var rest := ScanFrom(line, e);
      MatchAt(line, i);
      InOrderCons(line, i, m, rest);
      [m] + rest
    else
      ScanFrom(line, i + 1)
  }

  /** Every position at or after `i` where the pattern could start lies inside one of
      the matches found: none is skipped. */
  lemma {:induction false} ScanFromCovers(line: string, i: nat, j: nat)
    requires i <= j && MatchStarts(line, j)
    ensures exists k :: 0 <= k < |ScanFrom(line, i)| && ScanFrom(line, i)[k].at <= j < End(ScanFrom(line, i)[k])
    decreases |line| - i
  {
    var r := ScanFrom(line, i);
    if MatchStarts(line, i) {
      var e := RunEnd(line, i + |Marker|);
      var m := Span(i, line[i + |Marker|..e]);
      var rest := ScanFrom(line, e);
      assert r == [m] + rest;
      MatchAt(line, i);
      if j < e {
        assert r[0].at <= j < End(r[0]);
      } else {
        ScanFromCovers(line, e, j);
        var k :| 0 <= k < |rest| && rest[k].at <= j < End(rest[k]);
        assert r[k + 1] == rest[k];
      }
    } else {
      assert i < j;
      ScanFromCovers(line, i + 1, j);
    }
  }

  function Spans(line: string): seq<Span> {
    ScanFrom(line, 0)
  }

  /** The captured slugs of a line, in order. */
  function Slugs(line: string): (r: seq<string>)
    ensures |r| == |Spans(line)| && forall k :: 0 <= k < |r| ==> r[k] == Spans(line)[k].slug
  {
    seq(|Spans(line)|, k requires 0 <= k < |Spans(line)| => Spans(line)[k].slug)
  }

  /** A run of letters and digits that cannot be extended ends where RunEnd says. */
  lemma {:induction false} RunEndUnique(line: string, j: nat, e: nat)
    requires j <= e <= |line| && (forall k :: j <= k < e ==> IsAlnum(line[k]))
    requires e == |line| || !IsAlnum(line[e])
    ensures RunEnd(line, j) == e
    decreases e - j
  {
    if j < e {
      RunEndUnique(line, j + 1, e);
    }
  }

  /** Every captured slug is the whole run of letters and digits that follows an
      occurrence of the marker in the line. */
  lemma SlugsAreRuns(line: string, s: string)
    requires s in Slugs(line)
    ensures exists i :: MatchStarts(line, i) && s == line[i + |Marker|..RunEnd(line, i + |Marker|)]
  {
    var k :| 0 <= k < |Slugs(line)| && Slugs(line)[k] == s;
    var m := Spans(line)[k];
    assert Matches(line, m);
    MatchIsRun(line, m);
  }

  /** A match starts where the pattern can start and captures the whole run. */
  lemma MatchIsRun(line: string, m: Span)
    requires Matches(line, m)
    ensures MatchStarts(line, m.at)
    ensures m.slug == line[m.at + |Marker|..RunEnd(line, m.at + |Marker|)]
  {
    var j := m.at + |Marker|;
    var s := m.slug;
    assert line[j..j + |s|] == s;
    forall n | j <= n < End(m) ensures IsAlnum(line[n]) {
      assert line[n] == s[n - j];
    }
    assert line[j] == s[0];
    RunEndUnique(line, j, End(m));
  }

  /** A line yields a slug exactly when the pattern can start somewhere in it. */
  lemma SlugsExist(line: string)
    ensures Slugs(line) != [] <==> exists j :: MatchStarts(line, j)
  {
    if Slugs(line) != [] {
      assert MatchStarts(line, Spans(line)[0].at);
    }
    if exists j :: MatchStarts(line, j) {
      var j :| MatchStarts(line, j);
      ScanFromCovers(line, 0, j);
    }
  }

  /** A slug is a non-empty run of letters and digits, so trimming spaces leaves it
      as it is. */
  lemma SlugIsTrimmed(line: string, s: string)
    requires s in Slugs(line)
    ensures s != "" && TrimSpace(s) == s
  {
    var k :| 0 <= k < |Slugs(line)| && Slugs(line)[k] == s;
    assert Matches(line, Spans(line)[k]);
    assert forall c :: IsAlnum(c) ==> !IsSpace(c);
    TrimOfTrimmed(s, IsSpace);
  }

  /** extractSlugsFromReader, one line: every captured slug joins the set. */
  function AddLine(slugs: set<string>, line: string): (r: set<string>)
    ensures slugs <= r
    ensures forall s :: s in r && s !in slugs ==> s in Slugs(line)
  {
    slugs + Elems(Slugs(line))
  }

  /** collectVineSlugs, one line: each captured slug is trimmed of spaces and kept
      when non-empty. */
  function AddLineTrimmed(slugs: set<string>, line: string): (r: set<string>)
    ensures slugs <= r
  {
    slugs + set s | s in Slugs(line) && TrimSpace(s) != "" :: TrimSpace(s)
  }

  /** The full harvester's trimming and emptiness check never change the outcome. */
  lemma AddLineTrimmedSame(slugs: set<string>, line: string)
    ensures AddLineTrimmed(slugs, line) == AddLine(slugs, line)
  {
    forall s | s in Slugs(line) ensures TrimSpace(s) == s && s != "" {
      SlugIsTrimmed(line, s);
    }
  }

  /** A line in which the pattern cannot start leaves the set as it was. */
  lemma AddLineNoMatch(slugs: set<string>, line: string)
    requires forall j :: !MatchStarts(line, j)
    ensures AddLine(slugs, line) == slugs
  {
    SlugsExist(line);
  }

  /** The slugs of many lines, in order. */
  function AddLines(slugs: set<string>, lines: seq<string>): (r: set<string>)
    ensures slugs <= r
    decreases |lines|
  {
    if lines == [] then slugs else AddLines(AddLine(slugs, lines[0]), lines[1..])
  }

  /** The set a scan ends with holds what it started with and exactly the slugs of
      the lines, whatever order the lines come in. */
  lemma {:induction false} AddLinesSpec(slugs: set<string>, lines: seq<string>)
    ensures forall s :: s in AddLines(slugs, lines) <==>
              s in slugs || exists j :: 0 <= j < |lines| && s in Slugs(lines[j])
    decreases |lines|
  {
    if lines != [] {
      AddLinesSpec(AddLine(slugs, lines[0]), lines[1..]);
      forall s ensures (exists j :: 0 <= j < |lines| && s in Slugs(lines[j])) <==>
                       s in Slugs(lines[0]) || exists j :: 0 <= j < |lines[1..]| && s in Slugs(lines[1..][j])
      {
        if exists j :: 0 <= j < |lines| && s in Slugs(lines[j]) {
          var j :| 0 <= j < |lines| && s in Slugs(lines[j]);
          if j > 0 {
            assert lines[1..][j - 1] == lines[j];
          }
        }
      }
    }
  }

  /** A file the scan visits: one that cannot be opened or read is skipped. */
  datatype Input = Unreadable | Lines(lines: seq<string>)

  /** The slugs of every readable input, added to `slugs`. */
  function ScanInputs(slugs: set<string>, inputs: seq<Input>): (r: set<string>)
    ensures slugs <= r
    decreases |inputs|
  {
    if inputs == [] then slugs
    else
      var next := match inputs[0] case Unreadable => slugs case Lines(ls) => AddLines(slugs, ls);
      ScanInputs(next, inputs[1..])
  }

  /** `s` is captured from some line of `input`. */
  ghost predicate FoundIn(input: Input, s: string) {
    input.Lines? && exists n :: 0 <= n < |input.lines| && s in Slugs(input.lines[n])
  }

  /** A scan of many inputs ends with exactly the slugs of the lines of the readable
      ones. */
  lemma {:induction false} ScanInputsSpec(slugs: set<string>, inputs: seq<Input>)
    ensures forall s :: s in ScanInputs(slugs, inputs) <==>
              s in slugs || exists j :: 0 <= j < |inputs| && FoundIn(inputs[j], s)
    decreases |inputs|
  {
    if inputs != [] {
      var next := match inputs[0] case Unreadable => slugs case Lines(ls) => AddLines(slugs, ls);
      ScanInputsSpec(next, inputs[1..]);
      if inputs[0].Lines? {
        AddLinesSpec(slugs, inputs[0].lines);
      }
      forall s ensures (exists j :: 0 <= j < |inputs| && FoundIn(inputs[j], s)) <==>
                       FoundIn(inputs[0], s) || exists j :: 0 <= j < |inputs[1..]| && FoundIn(inputs[1..][j], s)
      {
        if exists j :: 0 <= j < |inputs| && FoundIn(inputs[j], s) {
          var j :| 0 <= j < |inputs| && FoundIn(inputs[j], s);
          if j > 0 {
            assert inputs[1..][j - 1] == inputs[j];
          }
        }
      }
    }
  }
}
