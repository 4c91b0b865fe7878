/** The coverage accounting of scripts/coverage-diff.ts: which lines of a file are executable and
    covered, how the changed lines are counted, and what the two gates decide.

    Percentages are over the reals: their rounding to doubles is not the point here. */
module Coverage {
  import opened Text
  import opened Sorting

  datatype Mode = StartOnly | Range
  datatype Loc = Loc(start: int, end: int)

  /** The coverage of one file.  An absent statement map or statement count reads as empty; an absent
      branch or function map, or absent counts for it, means that its part is passed over. */
  datatype FileCov = FileCov(statementMap: seq<(string, Loc)>, s: map<string, int>,
                             branchMap: Option<seq<(string, seq<Loc>)>>, b: Option<map<string, seq<int>>>,
                             fnMap: Option<seq<(string, Loc)>>, f: Option<map<string, int>>)

  // ---------- Specification ----------

  /** A piece of code, and whether it was ever entered. */
  datatype Region = Region(loc: Loc, hit: bool)

  predicate Spans(loc: Loc, mode: Mode, line: int) {
    match mode
    case StartOnly => line == loc.start
    case Range => loc.start <= line <= loc.end || loc.end <= line <= loc.start
  }

  function Lines(loc: Loc, mode: Mode): (lines: set<int>)
    ensures forall line :: line in lines <==> Spans(loc, mode, line)
  {
    var lo, hi := if loc.start <= loc.end then loc.start else loc.end,
                  if loc.start <= loc.end then loc.end else loc.start;
    set line: int | lo <= line <= hi && Spans(loc, mode, line)
  }

  function CountOf(counts: map<string, int>, id: string): int { if id in counts then counts[id] else 0 }

  function Plain(entries: seq<(string, Loc)>, counts: map<string, int>): seq<Region> {
    if entries == [] then []
    else
      var last := entries[|entries| - 1];
      Plain(entries[..|entries| - 1], counts) + [Region(last.1, CountOf(counts, last.0) > 0)]
  }

  function Arms(locs: seq<Loc>, counts: seq<int>): seq<Region> {
    if locs == [] then []
    else
      var i := |locs| - 1;
      Arms(locs[..i], counts) + [Region(locs[i], i < |counts| && counts[i] > 0)]
  }

  function CountsOf(counts: map<string, seq<int>>, id: string): seq<int> { if id in counts then counts[id] else [] }

  function Branches(entries: seq<(string, seq<Loc>)>, counts: map<string, seq<int>>): seq<Region> {
    if entries == [] then []
    else
      var last := entries[|entries| - 1];
      Branches(entries[..|entries| - 1], counts) + Arms(last.1, CountsOf(counts, last.0))
  }

  function BranchRegions(cov: FileCov): seq<Region> {
    if cov.branchMap.Some? && cov.b.Some? then Branches(cov.branchMap.value, cov.b.value) else []
  }

  function FnRegions(cov: FileCov): seq<Region> {
    if cov.fnMap.Some? && cov.f.Some? then Plain(cov.fnMap.value, cov.f.value) else []
  }

  function Regions(cov: FileCov): seq<Region> {
    Plain(cov.statementMap, cov.s) + BranchRegions(cov) + FnRegions(cov)
  }

  /** `line` lies in some region; with `hit`, in one that was entered. */
  ghost predicate Covers(regions: seq<Region>, mode: Mode, hit: bool, line: int) {
    exists i :: 0 <= i < |regions| && (hit ==> regions[i].hit) && Spans(regions[i].loc, mode, line)
  }

  function LinesOf(regions: seq<Region>, mode: Mode, hit: bool): (lines: set<int>)
    ensures forall line :: line in lines <==> Covers(regions, mode, hit, line)
  {
    if regions == [] then {}
    else
      var front, last := regions[..|regions| - 1], regions[|regions| - 1];
      assert regions == front + [last];
      CoversEverywhere(front, last, mode, hit);
      LinesOf(front, mode, hit) + if hit && !last.hit then {} else Lines(last.loc, mode)
  }

  // ---------- The same, from the fields of the coverage file ----------

  ghost predicate LiesIn(line: int, loc: Loc, mode: Mode) {
    || (mode == StartOnly && line == loc.start)
    || (mode == Range && (loc.start <= line <= loc.end || loc.end <= line <= loc.start))
  }

  /** A statement, branch arm or function lies on the line. */
  ghost predicate IsExecutableLine(cov: FileCov, mode: Mode, line: int) {
    || (exists i :: 0 <= i < |cov.statementMap| && LiesIn(line, cov.statementMap[i].1, mode))
    || (cov.branchMap.Some? && cov.b.Some?
        && exists i, j :: 0 <= i < |cov.branchMap.value| && 0 <= j < |cov.branchMap.value[i].1|
                          && LiesIn(line, cov.branchMap.value[i].1[j], mode))
    || (cov.fnMap.Some? && cov.f.Some?
        && exists i :: 0 <= i < |cov.fnMap.value| && LiesIn(line, cov.fnMap.value[i].1, mode))
  }

  /** One that was entered at least once lies on the line. */
  ghost predicate IsCoveredLine(cov: FileCov, mode: Mode, line: int) {
    || (exists i :: 0 <= i < |cov.statementMap| && LiesIn(line, cov.statementMap[i].1, mode)
                    && cov.statementMap[i].0 in cov.s && cov.s[cov.statementMap[i].0] > 0)
    || (cov.branchMap.Some? && cov.b.Some?
        && exists i, j :: 0 <= i < |cov.branchMap.value| && 0 <= j < |cov.branchMap.value[i].1|
                          && LiesIn(line, cov.branchMap.value[i].1[j], mode)
                          && cov.branchMap.value[i].0 in cov.b.value
                          && j < |cov.b.value[cov.branchMap.value[i].0]|
                          && cov.b.value[cov.branchMap.value[i].0][j] > 0)
    || (cov.fnMap.Some? && cov.f.Some?
        && exists i :: 0 <= i < |cov.fnMap.value| && LiesIn(line, cov.fnMap.value[i].1, mode)
                       && cov.fnMap.value[i].0 in cov.f.value && cov.f.value[cov.fnMap.value[i].0] > 0)
  }

  lemma {:induction false} PlainAt(entries: seq<(string, Loc)>, counts: map<string, int>)
    ensures |Plain(entries, counts)| == |entries|
    ensures forall i :: 0 <= i < |entries| ==>
      Plain(entries, counts)[i] == Region(entries[i].1, entries[i].0 in counts && counts[entries[i].0] > 0)
  {
    if entries != [] { PlainAt(entries[..|entries| - 1], counts); }
  }

  lemma {:induction false} ArmsAt(locs: seq<Loc>, counts: seq<int>)
    ensures |Arms(locs, counts)| == |locs|
    ensures forall j :: 0 <= j < |locs| ==> Arms(locs, counts)[j] == Region(locs[j], j < |counts| && counts[j] > 0)
  {
    if locs != [] { ArmsAt(locs[..|locs| - 1], counts); }
  }

  lemma PlainCovers(entries: seq<(string, Loc)>, counts: map<string, int>, mode: Mode, hit: bool, line: int)
    ensures Covers(Plain(entries, counts), mode, hit, line)
            <==> exists i :: 0 <= i < |entries| && LiesIn(line, entries[i].1, mode)
                             && (hit ==> entries[i].0 in counts && counts[entries[i].0] > 0)
  {
    PlainAt(entries, counts);
    hide Plain;
    var regions := Plain(entries, counts);
    if Covers(regions, mode, hit, line) {
      var i :| 0 <= i < |regions| && (hit ==> regions[i].hit) && Spans(regions[i].loc, mode, line);
      assert LiesIn(line, entries[i].1, mode);
    }
    if i :| 0 <= i < |entries| && LiesIn(line, entries[i].1, mode)
            && (hit ==> entries[i].0 in counts && counts[entries[i].0] > 0) {
      assert Spans(regions[i].loc, mode, line);
    }
  }

  ghost predicate HasArm(entry: (string, seq<Loc>), counts: map<string, seq<int>>, j: int, mode: Mode, hit: bool,
                         line: int) {
    && 0 <= j < |entry.1| && LiesIn(line, entry.1[j], mode)
    && (hit ==> entry.0 in counts && j < |counts[entry.0]| && counts[entry.0][j] > 0)
  }

  lemma ArmsCover(entry: (string, seq<Loc>), counts: map<string, seq<int>>, mode: Mode, hit: bool, line: int)
    ensures Covers(Arms(entry.1, CountsOf(counts, entry.0)), mode, hit, line)
            <==> exists j :: HasArm(entry, counts, j, mode, hit, line)
  {
    ArmsAt(entry.1, CountsOf(counts, entry.0));
    hide Arms;
    var regions := Arms(entry.1, CountsOf(counts, entry.0));
    if Covers(regions, mode, hit, line) {
      var j :| 0 <= j < |regions| && (hit ==> regions[j].hit) && Spans(regions[j].loc, mode, line);
      assert HasArm(entry, counts, j, mode, hit, line);
    }
    if j :| HasArm(entry, counts, j, mode, hit, line) {
      assert Spans(regions[j].loc, mode, line);
    }
  }

  lemma CoversConcat(a: seq<Region>, b: seq<Region>, mode: Mode, hit: bool, line: int)
    ensures Covers(a + b, mode, hit, line) <==> Covers(a, mode, hit, line) || Covers(b, mode, hit, line)
  {
    var all := a + b;
    if Covers(all, mode, hit, line) {
      var i :| 0 <= i < |all| && (hit ==> all[i].hit) && Spans(all[i].loc, mode, line);
      if i < |a| { assert a[i] == all[i]; } else { assert b[i - |a|] == all[i]; }
    }
    if Covers(a, mode, hit, line) {
      var i :| 0 <= i < |a| && (hit ==> a[i].hit) && Spans(a[i].loc, mode, line);
      assert all[i] == a[i];
    }
    if Covers(b, mode, hit, line) {
      var i :| 0 <= i < |b| && (hit ==> b[i].hit) && Spans(b[i].loc, mode, line);
      assert all[|a| + i] == b[i];
    }
  }

  ghost predicate SomeArm(entries: seq<(string, seq<Loc>)>, counts: map<string, seq<int>>, mode: Mode, hit: bool,
                          line: int) {
    exists i, j :: 0 <= i < |entries| && HasArm(entries[i], counts, j, mode, hit, line)
  }

  lemma SomeArmOfAppend(front: seq<(string, seq<Loc>)>, last: (string, seq<Loc>), counts: map<string, seq<int>>,
                        mode: Mode, hit: bool, line: int)
    ensures SomeArm(front + [last], counts, mode, hit, line)
            <==> SomeArm(front, counts, mode, hit, line) || exists j :: HasArm(last, counts, j, mode, hit, line)
  {
    hide HasArm;
    var entries, n := front + [last], |front|;
    if i, j :| 0 <= i < |entries| && HasArm(entries[i], counts, j, mode, hit, line) {
      if i < n { assert front[i] == entries[i]; }
    }
    if i, j :| 0 <= i < |front| && HasArm(front[i], counts, j, mode, hit, line) {
      assert entries[i] == front[i];
    }
    if j :| HasArm(last, counts, j, mode, hit, line) {
      assert entries[n] == last;
    }
  }

  lemma {:induction false} BranchesCover(entries: seq<(string, seq<Loc>)>, counts: map<string, seq<int>>, mode: Mode,
                                         hit: bool, line: int)
    ensures Covers(Branches(entries, counts), mode, hit, line) <==> SomeArm(entries, counts, mode, hit, line)
  {
    if entries != [] {
      var n := |entries| - 1;
      var front, last := entries[..n], entries[n];
      BranchesCover(front, counts, mode, hit, line);
      ArmsCover(last, counts, mode, hit, line);
      CoversConcat(Branches(front, counts), Arms(last.1, CountsOf(counts, last.0)), mode, hit, line);
      SomeArmOfAppend(front, last, counts, mode, hit, line);
      hide Covers, HasArm, SomeArm, Arms;
      assert entries == front + [last];
    }
  }

  lemma RegionsCover(cov: FileCov, mode: Mode, hit: bool, line: int)
    ensures Covers(Regions(cov), mode, hit, line)
            <==> || Covers(Plain(cov.statementMap, cov.s), mode, hit, line)
                 || Covers(BranchRegions(cov), mode, hit, line) || Covers(FnRegions(cov), mode, hit, line)
  {
    CoversConcat(Plain(cov.statementMap, cov.s) + BranchRegions(cov), FnRegions(cov), mode, hit, line);
    CoversConcat(Plain(cov.statementMap, cov.s), BranchRegions(cov), mode, hit, line);
    hide Covers, Plain, BranchRegions, FnRegions;
  }

  /** The lines of the regions are those that the fields name. */
  lemma RegionsAreTheFields(cov: FileCov, mode: Mode, line: int)
    ensures Covers(Regions(cov), mode, false, line) <==> IsExecutableLine(cov, mode, line)
    ensures Covers(Regions(cov), mode, true, line) <==> IsCoveredLine(cov, mode, line)
  {
    FieldsOf(cov, mode, false, line);
    FieldsOf(cov, mode, true, line);
  }

  lemma FieldsOf(cov: FileCov, mode: Mode, hit: bool, line: int)
    ensures Covers(Regions(cov), mode, hit, line)
            <==> if hit then IsCoveredLine(cov, mode, line) else IsExecutableLine(cov, mode, line)
  {
    RegionsCover(cov, mode, hit, line);
    PlainCovers(cov.statementMap, cov.s, mode, hit, line);
    BranchesOfFields(cov, mode, hit, line);
    if cov.fnMap.Some? && cov.f.Some? {
      PlainCovers(cov.fnMap.value, cov.f.value, mode, hit, line);
    } else {
      NothingCovers(mode, hit, line);
    }
    hide Covers, Regions, Plain, BranchRegions, LiesIn;
  }

  lemma BranchesOfFields(cov: FileCov, mode: Mode, hit: bool, line: int)
    ensures Covers(BranchRegions(cov), mode, hit, line)
            <==> cov.branchMap.Some? && cov.b.Some?
                 && exists i, j :: 0 <= i < |cov.branchMap.value| && 0 <= j < |cov.branchMap.value[i].1|
                                   && LiesIn(line, cov.branchMap.value[i].1[j], mode)
                                   && (hit ==> cov.branchMap.value[i].0 in cov.b.value
                                               && j < |cov.b.value[cov.branchMap.value[i].0]|
                                               && cov.b.value[cov.branchMap.value[i].0][j] > 0)
  {
    if cov.branchMap.Some? && cov.b.Some? {
      var entries, counts := cov.branchMap.value, cov.b.value;
      BranchesCover(entries, counts, mode, hit, line);
      hide Covers, Branches, LiesIn;
      if i, j :| 0 <= i < |entries| && HasArm(entries[i], counts, j, mode, hit, line) {
        assert LiesIn(line, entries[i].1[j], mode);
      }
      if i, j :| 0 <= i < |entries| && 0 <= j < |entries[i].1| && LiesIn(line, entries[i].1[j], mode)
                 && (hit ==> entries[i].0 in counts && j < |counts[entries[i].0]| && counts[entries[i].0][j] > 0) {
        assert HasArm(entries[i], counts, j, mode, hit, line);
      }
    } else {
      NothingCovers(mode, hit, line);
    }
  }

  lemma LinesAreTheFields(cov: FileCov, mode: Mode)
    ensures forall line :: line in LinesOf(Regions(cov), mode, false) <==> IsExecutableLine(cov, mode, line)
    ensures forall line :: line in LinesOf(Regions(cov), mode, true) <==> IsCoveredLine(cov, mode, line)
  {
    hide LinesOf, Regions, Covers, IsExecutableLine, IsCoveredLine;
    forall line
      ensures line in LinesOf(Regions(cov), mode, false) <==> IsExecutableLine(cov, mode, line)
      ensures line in LinesOf(Regions(cov), mode, true) <==> IsCoveredLine(cov, mode, line)
    {
      RegionsAreTheFields(cov, mode, line);
    }
  }

  lemma NothingCovers(mode: Mode, hit: bool, line: int)
    ensures !Covers([], mode, hit, line)
  {
  }

  ghost predicate HoldsLines(executable: set<int>, covered: set<int>, regions: seq<Region>, mode: Mode) {
    forall line ::
      && (line in executable <==> Covers(regions, mode, false, line))
      && (line in covered <==> Covers(regions, mode, true, line))
  }

  lemma CoversMore(regions: seq<Region>, r: Region, mode: Mode, hit: bool, line: int)
    ensures Covers(regions + [r], mode, hit, line)
            <==> Covers(regions, mode, hit, line) || ((hit ==> r.hit) && Spans(r.loc, mode, line))
  {
    var more := regions + [r];
    assert more[|regions|] == r;
    if Covers(regions, mode, hit, line) {
      var i :| 0 <= i < |regions| && (hit ==> regions[i].hit) && Spans(regions[i].loc, mode, line);
      assert more[i] == regions[i];
    }
    if Covers(more, mode, hit, line) {
      var i :| 0 <= i < |more| && (hit ==> more[i].hit) && Spans(more[i].loc, mode, line);
      assert i < |regions| ==> more[i] == regions[i];
    }
  }

  lemma CoversEverywhere(regions: seq<Region>, r: Region, mode: Mode, hit: bool)
    ensures forall line ::
              Covers(regions + [r], mode, hit, line)
              <==> (Covers(regions, mode, hit, line) || ((hit ==> r.hit) && Spans(r.loc, mode, line)))
  {
    forall line
      ensures Covers(regions + [r], mode, hit, line)
              <==> (Covers(regions, mode, hit, line) || ((hit ==> r.hit) && Spans(r.loc, mode, line)))
    {
      CoversMore(regions, r, mode, hit, line);
    }
  }

  lemma HoldsMore(executable: set<int>, covered: set<int>, regions: seq<Region>, r: Region, mode: Mode)
    requires HoldsLines(executable, covered, regions, mode)
    ensures HoldsLines(executable + Lines(r.loc, mode), if r.hit then covered + Lines(r.loc, mode) else covered,
                       regions + [r], mode)
  {
    hide Covers, Spans;
    var more := regions + [r];
    var executable', covered' := executable + Lines(r.loc, mode), if r.hit then covered + Lines(r.loc, mode) else covered;
    forall line
      ensures line in executable' <==> Covers(more, mode, false, line)
      ensures line in covered' <==> Covers(more, mode, true, line)
    {
      CoversMore(regions, r, mode, false, line);
      CoversMore(regions, r, mode, true, line);
    }
  }

  // ---------- Filling the two sets ----------

  /** A `Set` of line numbers, filled in place. */
  class LineSet {
    var lines: set<int>

    constructor ()
      ensures lines == {}
    {
      lines := {};
    }
  }

  method AddRange(target: LineSet, start: int, end: int)
    modifies target
    ensures target.lines == old(target.lines) + Lines(Loc(start, end), Range)
  {
    var from := if start <= end then start else end;
    var to := if start <= end then end else start;
    for i := from to to + 1
      invariant forall line :: line in target.lines <==> line in old(target.lines) || from <= line < i
    {
      target.lines := target.lines + {i};
    }
  }

  method AddLoc(target: LineSet, loc: Loc, mode: Mode)
    modifies target
    ensures target.lines == old(target.lines) + Lines(loc, mode)
  {
    if mode == Range {
      AddRange(target, loc.start, loc.end);
      return;
    }
    target.lines := target.lines + {loc.start};
  }

  /** One entry: its region joins those that the sets hold already. */
  method AddRegion(executable: LineSet, covered: LineSet, loc: Loc, count: int, mode: Mode, ghost before: seq<Region>)
    requires executable != covered && HoldsLines(executable.lines, covered.lines, before, mode)
    modifies executable, covered
    ensures HoldsLines(executable.lines, covered.lines, before + [Region(loc, count > 0)], mode)
  {
    HoldsMore(executable.lines, covered.lines, before, Region(loc, count > 0), mode);
    hide HoldsLines;
    AddLoc(executable, loc, mode);
    if count > 0 { AddLoc(covered, loc, mode); }
  }

  /** Statements, and likewise functions. */
  method ProcessMap(entries: seq<(string, Loc)>, counts: map<string, int>, executable: LineSet, covered: LineSet,
                    mode: Mode, ghost before: seq<Region>)
    requires executable != covered && HoldsLines(executable.lines, covered.lines, before, mode)
    modifies executable, covered
    ensures HoldsLines(executable.lines, covered.lines, before + Plain(entries, counts), mode)
  {
    hide HoldsLines;
    assert before + [] == before;
    for i := 0 to |entries|
      invariant HoldsLines(executable.lines, covered.lines, before + Plain(entries[..i], counts), mode)
    {
      var (id, loc) := entries[i];
      assert entries[..i + 1][..i] == entries[..i];
      ghost var done := Plain(entries[..i], counts);
      AddRegion(executable, covered, loc, CountOf(counts, id), mode, before + done);
      Associate(before, done, [Region(loc, CountOf(counts, id) > 0)]);
    }
    assert entries[..|entries|] == entries;
  }

  method ProcessArms(locs: seq<Loc>, counts: seq<int>, executable: LineSet, covered: LineSet, mode: Mode,
                     ghost before: seq<Region>)
    requires executable != covered && HoldsLines(executable.lines, covered.lines, before, mode)
    modifies executable, covered
    ensures HoldsLines(executable.lines, covered.lines, before + Arms(locs, counts), mode)
  {
    hide HoldsLines;
    assert before + [] == before;
    for i := 0 to |locs|
      invariant HoldsLines(executable.lines, covered.lines, before + Arms(locs[..i], counts), mode)
    {
      assert locs[..i + 1][..i] == locs[..i];
      ghost var done := Arms(locs[..i], counts);
      var count := if i < |counts| then counts[i] else 0;
      AddRegion(executable, covered, locs[i], count, mode, before + done);
      Associate(before, done, [Region(locs[i], count > 0)]);
    }
    assert locs[..|locs|] == locs;
  }

  method ProcessBranchMap(cov: FileCov, executable: LineSet, covered: LineSet, mode: Mode, ghost before: seq<Region>)
    requires executable != covered && HoldsLines(executable.lines, covered.lines, before, mode)
    modifies executable, covered
    ensures HoldsLines(executable.lines, covered.lines, before + BranchRegions(cov), mode)
  {
    hide HoldsLines;
    assert before + [] == before;
    if cov.branchMap.None? || cov.b.None? { return; }
    var entries, counts := cov.branchMap.value, cov.b.value;
    for i := 0 to |entries|
      invariant HoldsLines(executable.lines, covered.lines, before + Branches(entries[..i], counts), mode)
    {
      var (id, locs) := entries[i];
      assert entries[..i + 1][..i] == entries[..i];
      ghost var done := Branches(entries[..i], counts);
      ProcessArms(locs, CountsOf(counts, id), executable, covered, mode, before + done);
      Associate(before, done, Arms(locs, CountsOf(counts, id)));
    }
    assert entries[..|entries|] == entries;
  }

  method ProcessFnMap(cov: FileCov, executable: LineSet, covered: LineSet, mode: Mode, ghost before: seq<Region>)
    requires executable != covered && HoldsLines(executable.lines, covered.lines, before, mode)
    modifies executable, covered
    ensures HoldsLines(executable.lines, covered.lines, before + FnRegions(cov), mode)
  {
    assert before + [] == before;
    if cov.fnMap.None? || cov.f.None? { return; }
    ProcessMap(cov.fnMap.value, cov.f.value, executable, covered, mode, before);
  }

  /** A line is executable exactly if a statement, branch or function lies there, and covered exactly
      if one lies there that was entered; so the covered lines are among the executable ones. */
  method ComputeCoveredLines(cov: FileCov, mode: Mode) returns (executable: set<int>, covered: set<int>)
    ensures executable == LinesOf(Regions(cov), mode, false)
    ensures covered == LinesOf(Regions(cov), mode, true)
    ensures forall line :: line in executable <==> IsExecutableLine(cov, mode, line)
    ensures forall line :: line in covered <==> IsCoveredLine(cov, mode, line)
  {
    LinesAreTheFields(cov, mode);
    hide IsExecutableLine, IsCoveredLine;
    var e := new LineSet();
    var c := new LineSet();
    assert [] + Plain(cov.statementMap, cov.s) == Plain(cov.statementMap, cov.s);
    ProcessMap(cov.statementMap, cov.s, e, c, mode, []);
    ProcessBranchMap(cov, e, c, mode, Plain(cov.statementMap, cov.s));
    ProcessFnMap(cov, e, c, mode, Plain(cov.statementMap, cov.s) + BranchRegions(cov));
    HeldAreAll(e.lines, c.lines, Regions(cov), mode);
    return e.lines, c.lines;
  }

  lemma SameLines(a: set<int>, b: set<int>)
    requires forall line :: line in a <==> line in b
    ensures a == b
  {
    forall x | x in a ensures x in b {
    }
    forall x | x in b ensures x in a {
    }
  }

  lemma HeldAreAll(executable: set<int>, covered: set<int>, regions: seq<Region>, mode: Mode)
    requires HoldsLines(executable, covered, regions, mode)
    ensures executable == LinesOf(regions, mode, false)
    ensures covered == LinesOf(regions, mode, true)
  {
    hide LinesOf, Covers;
    SameLines(executable, LinesOf(regions, mode, false));
    SameLines(covered, LinesOf(regions, mode, true));
  }

  /** In both modes covered lines are executable, and a line is an executable one in the narrow mode
      only if it is one in the wide mode. */
  lemma ModesAreNested(regions: seq<Region>, mode: Mode, hit: bool)
    ensures LinesOf(regions, mode, true) <= LinesOf(regions, mode, false)
    ensures LinesOf(regions, StartOnly, hit) <= LinesOf(regions, Range, hit)
  {
    forall line | line in LinesOf(regions, mode, true) ensures line in LinesOf(regions, mode, false) {
      assert Covers(regions, mode, true, line);
    }
    forall line | line in LinesOf(regions, StartOnly, hit) ensures line in LinesOf(regions, Range, hit) {
      assert Covers(regions, StartOnly, hit, line);
      var i :| 0 <= i < |regions| && (hit ==> regions[i].hit) && Spans(regions[i].loc, StartOnly, line);
      assert Spans(regions[i].loc, Range, line);
    }
  }

  // ---------- Counting the changed lines ----------

  datatype FileStats = FileStats(changedLines: nat, executableChanged: nat, coveredChanged: nat,
                                 uncoveredChanged: nat, uncoveredLines: seq<int>, coverageMissing: bool)

  predicate IntLeq(a: int, b: int) { a <= b }

  /** The uncovered lines are listed once each, in increasing order. */
  ghost predicate ListsExactly(list: seq<int>, lines: set<int>) {
    && (forall i, j :: 0 <= i < j < |list| ==> list[i] < list[j])
    && (forall line :: line in list <==> line in lines)
  }

  /** The lines that count as executable and those that count as covered. */
  ghost predicate Accounts(stats: FileStats, changed: set<int>, executable: set<int>, covered: set<int>) {
    && stats.changedLines == |changed|
    && stats.executableChanged == |changed * executable|
    && stats.coveredChanged == |changed * executable * covered|
    && stats.uncoveredChanged == |changed * executable - covered|
    && ListsExactly(stats.uncoveredLines, changed * executable - covered)
  }

  lemma SortedNumbers(list: seq<int>)
    requires NoRepeats(list)
    ensures ListsExactly(Sort(IntLeq, list), Members(list))
  {
    var r := Sort(IntLeq, list);
    SortSorts(IntLeq, list);
    SortKeepsNoRepeats(IntLeq, list);
    SameMembers(r, list);
    forall i, j | 0 <= i < j < |r| ensures r[i] < r[j] {
      assert IntLeq(r[i], r[j]) && r[i] != r[j];
    }
  }

  lemma OneMore(seen: set<int>, line: int, some: set<int>)
    requires line !in seen
    ensures |(seen + {line}) * some| == |seen * some| + if line in some then 1 else 0
  {
    if line in some {
      assert (seen + {line}) * some == seen * some + {line};
    } else {
      assert (seen + {line}) * some == seen * some;
    }
  }

  /** What `main` knows about one changed file: its coverage, if it has any, and whether the exclusion
      list names it. */
  datatype Known = Known(cov: Option<FileCov>, excluded: bool)

  /** The lines that count as executable: for a file without coverage either none or every changed one. */
  function CountedExecutable(k: Known, treatMissing: bool, mode: Mode, changed: set<int>): set<int> {
    if k.cov.Some? then LinesOf(Regions(k.cov.value), mode, false)
    else if treatMissing && !k.excluded then changed else {}
  }

  function CountedCovered(k: Known, mode: Mode): set<int> {
    if k.cov.Some? then LinesOf(Regions(k.cov.value), mode, true) else {}
  }

  /** A changed line counts as executable, and as covered. */
  ghost predicate CountsAsExecutable(k: Known, treatMissing: bool, mode: Mode, line: int) {
    match k.cov
    case Some(cov) => IsExecutableLine(cov, mode, line)
    case None => treatMissing && !k.excluded
  }

  ghost predicate CountsAsCovered(k: Known, mode: Mode, line: int) {
    match k.cov
    case Some(cov) => IsCoveredLine(cov, mode, line)
    case None => false
  }

  lemma CountedByFields(k: Known, treatMissing: bool, mode: Mode, changed: set<int>)
    ensures forall line :: line in changed ==>
      (line in CountedExecutable(k, treatMissing, mode, changed) <==> CountsAsExecutable(k, treatMissing, mode, line))
    ensures forall line :: line in CountedCovered(k, mode) <==> CountsAsCovered(k, mode, line)
  {
    if k.cov.Some? { LinesAreTheFields(k.cov.value, mode); }
    hide LinesOf, Regions, IsExecutableLine, IsCoveredLine;
  }

  ghost function ExecutableIn(changed: set<int>, k: Known, treatMissing: bool, mode: Mode): set<int> {
    set line | line in changed && CountsAsExecutable(k, treatMissing, mode, line)
  }

  ghost function UncoveredIn(changed: set<int>, k: Known, treatMissing: bool, mode: Mode): set<int> {
    set line | line in changed && CountsAsExecutable(k, treatMissing, mode, line) && !CountsAsCovered(k, mode, line)
  }

  lemma SetsByFields(k: Known, treatMissing: bool, mode: Mode, changed: set<int>)
    ensures changed * CountedExecutable(k, treatMissing, mode, changed) == ExecutableIn(changed, k, treatMissing, mode)
    ensures changed * CountedExecutable(k, treatMissing, mode, changed) - CountedCovered(k, mode)
            == UncoveredIn(changed, k, treatMissing, mode)
  {
    CountedByFields(k, treatMissing, mode, changed);
    hide CountedExecutable, CountedCovered, CountsAsExecutable, CountsAsCovered;
    var executable, covered := CountedExecutable(k, treatMissing, mode, changed), CountedCovered(k, mode);
    forall line ensures line in changed * executable <==> line in ExecutableIn(changed, k, treatMissing, mode) {
    }
    forall line ensures line in changed * executable - covered <==> line in UncoveredIn(changed, k, treatMissing, mode) {
    }
  }

  ghost predicate Counted(stats: FileStats, lines: seq<int>, k: Known, treatMissing: bool, mode: Mode) {
    && Accounts(stats, Members(lines), CountedExecutable(k, treatMissing, mode, Members(lines)), CountedCovered(k, mode))
    && stats.coverageMissing == (k.cov.None? && !k.excluded)
  }

  lemma NothingKnown(lines: seq<int>, treat: bool)
    requires NoRepeats(lines)
    ensures var counted := if treat then lines else [];
            |counted| == |Members(counted)| && |lines| == |Members(lines)|
            && Members(lines) * Members(counted) == Members(lines) * Members(counted) - {} == Members(counted)
            && Members(lines) * Members(counted) * {} == {}
  {
    MembersSize(lines);
  }

  /** The counts of one file are those of the sets of its changed, executable and covered lines. */
  method MeasureFile(lines: seq<int>, k: Known, treatMissing: bool, mode: Mode) returns (stats: FileStats)
    requires NoRepeats(lines)
    ensures Counted(stats, lines, k, treatMissing, mode)
    ensures stats.changedLines == |lines|
    ensures stats.executableChanged == |ExecutableIn(Members(lines), k, treatMissing, mode)|
    ensures stats.uncoveredChanged == |UncoveredIn(Members(lines), k, treatMissing, mode)|
    ensures ListsExactly(stats.uncoveredLines, UncoveredIn(Members(lines), k, treatMissing, mode))
    ensures stats.executableChanged == stats.coveredChanged + stats.uncoveredChanged
    ensures stats.coverageMissing <==> k.cov.None? && !k.excluded
  {
    hide *;
    stats := Measure(lines, k, treatMissing, mode);
    StatsByFields(stats, lines, k, treatMissing, mode);
  }

  lemma StatsByFields(stats: FileStats, lines: seq<int>, k: Known, treatMissing: bool, mode: Mode)
    requires NoRepeats(lines) && Counted(stats, lines, k, treatMissing, mode)
    ensures stats.changedLines == |lines|
    ensures stats.executableChanged == |ExecutableIn(Members(lines), k, treatMissing, mode)|
    ensures stats.uncoveredChanged == |UncoveredIn(Members(lines), k, treatMissing, mode)|
    ensures ListsExactly(stats.uncoveredLines, UncoveredIn(Members(lines), k, treatMissing, mode))
    ensures stats.executableChanged == stats.coveredChanged + stats.uncoveredChanged
    ensures stats.coverageMissing <==> k.cov.None? && !k.excluded
  {
    SetsByFields(k, treatMissing, mode, Members(lines));
    MembersSize(lines);
    FileBalances(stats, lines, k, treatMissing, mode);
    hide ExecutableIn, UncoveredIn, CountedExecutable, CountedCovered, ListsExactly, Members;
  }

  /** The branches of the loop of `main`. */
  method Measure(lines: seq<int>, k: Known, treatMissing: bool, mode: Mode) returns (stats: FileStats)
    requires NoRepeats(lines)
    ensures Counted(stats, lines, k, treatMissing, mode)
  {
    hide *;
    if k.cov.None? {
      var counted := if treatMissing && !k.excluded then lines else [];
      UnknownIsCounted(lines, k, treatMissing, mode);
      return FileStats(|lines|, |counted|, 0, |counted|, Sort(IntLeq, counted), !k.excluded);
    }
    var executable, covered := ComputeCoveredLines(k.cov.value, mode);
    var executableChanged, coveredChanged, uncoveredLines := 0, 0, [];
    NoTally(lines, executable, covered);
    for i := 0 to |lines|
      invariant Tallies(lines[..i], executable, covered, executableChanged, coveredChanged, uncoveredLines)
    {
      var line := lines[i];
      TallyOneMore(lines, i, executable, covered, executableChanged, coveredChanged, uncoveredLines);
      if line !in executable {
        assert uncoveredLines + [] == uncoveredLines;
        continue;
      }
      executableChanged := executableChanged + 1;
      if line in covered {
        coveredChanged := coveredChanged + 1;
        assert uncoveredLines + [] == uncoveredLines;
      } else {
        uncoveredLines := uncoveredLines + [line];
      }
    }
    assert lines[..|lines|] == lines;
    TalliesAreCounted(lines, k, treatMissing, mode, executableChanged, coveredChanged, uncoveredLines);
    return FileStats(|lines|, executableChanged, coveredChanged, |uncoveredLines|,
                     Sort(IntLeq, uncoveredLines), false);
  }

  lemma NoTally(lines: seq<int>, executable: set<int>, covered: set<int>)
    ensures Tallies(lines[..0], executable, covered, 0, 0, [])
  {
    assert Members(lines[..0]) == {} && {} * executable == {} && {} * executable * covered == {};
  }

  lemma UnknownIsCounted(lines: seq<int>, k: Known, treatMissing: bool, mode: Mode)
    requires NoRepeats(lines) && k.cov.None?
    ensures var counted := if treatMissing && !k.excluded then lines else [];
            Counted(FileStats(|lines|, |counted|, 0, |counted|, Sort(IntLeq, counted), !k.excluded),
                    lines, k, treatMissing, mode)
  {
    var counted := if treatMissing && !k.excluded then lines else [];
    NothingKnown(lines, treatMissing && !k.excluded);
    SortedNumbers(counted);
    assert Members(counted) == CountedExecutable(k, treatMissing, mode, Members(lines));
    hide Members, Sort, CountedExecutable, ListsExactly;
  }

  lemma TalliesAreCounted(lines: seq<int>, k: Known, treatMissing: bool, mode: Mode, executableChanged: nat,
                          coveredChanged: nat, uncovered: seq<int>)
    requires NoRepeats(lines) && k.cov.Some?
    requires Tallies(lines, LinesOf(Regions(k.cov.value), mode, false), LinesOf(Regions(k.cov.value), mode, true),
                     executableChanged, coveredChanged, uncovered)
    ensures Counted(FileStats(|lines|, executableChanged, coveredChanged, |uncovered|, Sort(IntLeq, uncovered), false),
                    lines, k, treatMissing, mode)
  {
    hide LinesOf, Regions, Members, Sort, ListsExactly;
    SortedNumbers(uncovered);
    MembersSize(uncovered);
    MembersSize(lines);
  }

  /** The counters after some of the lines. */
  ghost predicate Tallies(lines: seq<int>, executable: set<int>, covered: set<int>, executableChanged: nat,
                          coveredChanged: nat, uncovered: seq<int>) {
    && executableChanged == |Members(lines) * executable|
    && coveredChanged == |Members(lines) * executable * covered|
    && NoRepeats(uncovered) && Members(uncovered) == Members(lines) * executable - covered
  }

  lemma TallyOneMore(lines: seq<int>, i: nat, executable: set<int>, covered: set<int>, executableChanged: nat,
                     coveredChanged: nat, uncovered: seq<int>)
    requires i < |lines| && NoRepeats(lines)
    requires Tallies(lines[..i], executable, covered, executableChanged, coveredChanged, uncovered)
    ensures var line := lines[i];
            Tallies(lines[..i + 1], executable, covered,
                    executableChanged + (if line in executable then 1 else 0),
                    coveredChanged + (if line in executable && line in covered then 1 else 0),
                    uncovered + if line in executable && line !in covered then [line] else [])
  {
    var line, seen := lines[i], Members(lines[..i]);
    assert line !in seen;
    assert Members(lines[..i + 1]) == seen + {line};
    hide Members, NoRepeats;
    OneMore(seen, line, executable);
    OneMore(seen, line, executable * covered);
    Nested(seen, executable, covered);
    Nested(seen + {line}, executable, covered);
    OneMoreUncovered(seen, line, executable, covered, uncovered);
  }

  lemma Nested(a: set<int>, b: set<int>, c: set<int>)
    ensures a * b * c == a * (b * c)
  {
  }

  lemma OneMoreUncovered(seen: set<int>, line: int, executable: set<int>, covered: set<int>, uncovered: seq<int>)
    requires line !in seen && NoRepeats(uncovered) && Members(uncovered) == seen * executable - covered
    ensures var uncovered' := uncovered + if line in executable && line !in covered then [line] else [];
            NoRepeats(uncovered') && Members(uncovered') == (seen + {line}) * executable - covered
  {
    assert line !in Members(uncovered);
    if line in executable && line !in covered {
      assert Members(uncovered + [line]) == Members(uncovered) + {line};
      assert (seen + {line}) * executable - covered == (seen * executable - covered) + {line};
    } else {
      assert uncovered + [] == uncovered;
      assert (seen + {line}) * executable - covered == seen * executable - covered;
    }
  }

  // ---------- Totals and gates ----------

  function TotalExecutable(stats: seq<FileStats>, knownOnly: bool): nat {
    if stats == [] then 0
    else
      var s := stats[|stats| - 1];
      TotalExecutable(stats[..|stats| - 1], knownOnly)
      + if s.executableChanged > 0 && !(knownOnly && s.coverageMissing) then s.executableChanged else 0
  }

  function TotalCovered(stats: seq<FileStats>, knownOnly: bool): nat {
    if stats == [] then 0
    else
      var s := stats[|stats| - 1];
      TotalCovered(stats[..|stats| - 1], knownOnly)
      + if s.executableChanged > 0 && !(knownOnly && s.coverageMissing) then s.coveredChanged else 0
  }

  function TotalUncovered(stats: seq<FileStats>): nat {
    if stats == [] then 0
    else
      var s := stats[|stats| - 1];
      TotalUncovered(stats[..|stats| - 1]) + if s.executableChanged > 0 then s.uncoveredChanged else 0
  }

  function Percent(executable: nat, covered: nat): real {
    if executable == 0 then 100.0 else covered as real / executable as real * 100.0
  }

  const SLACK := 0.000000001

  /** The percentage gate. */
  predicate BelowMinimum(stats: seq<FileStats>, treatMissing: bool, minPct: real) {
    Percent(TotalExecutable(stats, !treatMissing), TotalCovered(stats, !treatMissing)) + SLACK < minPct
  }

  /** The exit code of a run whose arguments and coverage file are in order. */
  function ExitCode(stats: seq<FileStats>, treatMissing: bool, minPct: Option<real>, failOnUncovered: bool): int {
    if minPct.Some? && BelowMinimum(stats, treatMissing, minPct.value) then 1
    else if failOnUncovered && TotalUncovered(stats) > 0 then 1
    else 0
  }

  ghost predicate AllCounted(stats: seq<FileStats>, changed: seq<seq<int>>, known: seq<Known>, treatMissing: bool,
                             mode: Mode) {
    && |stats| == |changed| == |known|
    && forall i :: 0 <= i < |stats| ==> Counted(stats[i], changed[i], known[i], treatMissing, mode)
  }

  /** The loop of `main` over the changed files. */
  method MeasureAll(changed: seq<seq<int>>, known: seq<Known>, treatMissing: bool, mode: Mode)
    returns (stats: seq<FileStats>)
    requires |changed| == |known| && forall i :: 0 <= i < |changed| ==> NoRepeats(changed[i])
    ensures AllCounted(stats, changed, known, treatMissing, mode)
  {
    hide Counted;
    stats := [];
    for i := 0 to |changed|
      invariant AllCounted(stats, changed[..i], known[..i], treatMissing, mode)
    {
      var s := MeasureFile(changed[i], known[i], treatMissing, mode);
      stats := stats + [s];
    }
    assert changed[..|changed|] == changed && known[..|known|] == known;
  }

  lemma Complement(a: set<int>, b: set<int>)
    ensures |a| == |a * b| + |a - b|
  {
    assert a == a * b + (a - b);
  }

  /** In every file, each executable changed line counts once, as covered or as uncovered; a file
      without coverage counts only on request. */
  lemma FileBalances(s: FileStats, lines: seq<int>, k: Known, treatMissing: bool, mode: Mode)
    requires Counted(s, lines, k, treatMissing, mode)
    ensures s.executableChanged == s.coveredChanged + s.uncoveredChanged <= s.changedLines
    ensures s.coverageMissing && !treatMissing ==> s.executableChanged == 0
    ensures s.uncoveredChanged == |s.uncoveredLines|
  {
    var changed, executable := Members(lines), CountedExecutable(k, treatMissing, mode, Members(lines));
    var covered := CountedCovered(k, mode);
    hide CountedExecutable, CountedCovered, LinesOf;
    Complement(changed * executable, covered);
    Complement(changed, executable);
    var listed := s.uncoveredLines;
    assert forall line :: line in Members(listed) <==> line in changed * executable - covered;
    assert Members(listed) == changed * executable - covered;
    MembersSize(listed);
    if s.coverageMissing && !treatMissing { NothingCounts(k, mode, changed); }
  }

  lemma NothingCounts(k: Known, mode: Mode, changed: set<int>)
    requires k.cov.None?
    ensures |changed * CountedExecutable(k, false, mode, changed)| == 0
  {
    assert changed * {} == {};
  }

  ghost predicate Balanced(s: FileStats, treatMissing: bool) {
    && s.executableChanged == s.coveredChanged + s.uncoveredChanged
    && (s.coverageMissing && !treatMissing ==> s.executableChanged == 0)
  }

  lemma {:induction false} TotalsBalance(stats: seq<FileStats>, treatMissing: bool)
    requires forall i :: 0 <= i < |stats| ==> Balanced(stats[i], treatMissing)
    ensures TotalExecutable(stats, !treatMissing)
            == TotalCovered(stats, !treatMissing) + TotalUncovered(stats)
    ensures TotalUncovered(stats) == 0 <==> forall i :: 0 <= i < |stats| ==> stats[i].uncoveredChanged == 0
  {
    if stats != [] {
      var front, s := stats[..|stats| - 1], stats[|stats| - 1];
      TotalsBalance(front, treatMissing);
      assert Balanced(s, treatMissing);
      assert forall i :: 0 <= i < |front| ==> front[i] == stats[i];
      if TotalUncovered(front) == 0 && s.uncoveredChanged == 0 {
        forall i | 0 <= i < |stats| ensures stats[i].uncoveredChanged == 0 {
          if i < |front| { assert front[i].uncoveredChanged == 0; }
        }
      }
    }
  }

  /** The lines of several files, each with the place of its file. */
  ghost function Pairs(files: seq<set<int>>): set<(int, int)> {
    set i, line | 0 <= i < |files| && line in files[i] :: (i, line)
  }

  ghost function Column(i: int, lines: set<int>): set<(int, int)> { set line | line in lines :: (i, line) }

  lemma SomeMember(lines: set<int>)
    ensures |lines| == 0 || exists x :: x in lines
  {
    if forall x :: x !in lines { assert lines == {}; }
  }

  lemma ColumnOfAppend(i: int, lines: set<int>, x: int)
    requires x !in lines
    ensures |Column(i, lines + {x})| == |Column(i, lines)| + 1
  {
    var rest, all := Column(i, lines), Column(i, lines + {x});
    forall p ensures p in all <==> p in rest + {(i, x)} {
    }
    assert all == rest + {(i, x)} && (i, x) !in rest;
  }

  lemma {:induction false} ColumnSize(i: int, lines: set<int>)
    ensures |Column(i, lines)| == |lines|
    decreases |lines|
  {
    SomeMember(lines);
    if |lines| > 0 {
      var x :| x in lines;
      ColumnSize(i, lines - {x});
      ColumnOfAppend(i, lines - {x}, x);
      assert lines - {x} + {x} == lines;
    } else {
      assert lines == {} && Column(i, {}) == {};
    }
  }

  lemma PairsOfAppend(files: seq<set<int>>, lines: set<int>)
    ensures |Pairs(files + [lines])| == |Pairs(files)| + |lines|
  {
    var n, all := |files|, files + [lines];
    var column := Column(n, lines);
    ColumnSize(n, lines);
    forall p ensures p in Pairs(all) <==> p in Pairs(files) || p in column {
      if p in Pairs(all) { assert p.0 < n ==> all[p.0] == files[p.0]; }
      if p in Pairs(files) { assert all[p.0] == files[p.0]; }
      if p in column { assert all[n] == lines; }
    }
    assert Pairs(all) == Pairs(files) + column;
    assert Pairs(files) * column == {};
  }

  /** The totals count every executable, and every uncovered, changed line of every file once. */
  lemma {:induction false} TotalsCountLines(stats: seq<FileStats>, changed: seq<seq<int>>, known: seq<Known>,
                                            treatMissing: bool, mode: Mode, executable: seq<set<int>>,
                                            uncovered: seq<set<int>>)
    requires AllCounted(stats, changed, known, treatMissing, mode) && |executable| == |uncovered| == |stats|
    requires forall i :: 0 <= i < |stats| ==>
      && executable[i] == ExecutableIn(Members(changed[i]), known[i], treatMissing, mode)
      && uncovered[i] == UncoveredIn(Members(changed[i]), known[i], treatMissing, mode)
    ensures TotalExecutable(stats, !treatMissing) == |Pairs(executable)|
    ensures TotalUncovered(stats) == |Pairs(uncovered)|
  {
    hide Counted, ExecutableIn, UncoveredIn, Pairs;
    var n := |stats| - 1;
    if stats == [] {
      NoPairs();
    } else {
      TotalsCountLines(stats[..n], changed[..n], known[..n], treatMissing, mode, executable[..n], uncovered[..n]);
      assert executable == executable[..n] + [executable[n]] && uncovered == uncovered[..n] + [uncovered[n]];
      PairsOfAppend(executable[..n], executable[n]);
      PairsOfAppend(uncovered[..n], uncovered[n]);
      SizesOfFile(stats[n], changed[n], known[n], treatMissing, mode);
    }
  }

  lemma NoPairs()
    ensures Pairs([]) == {}
  {
  }

  lemma SizesOfFile(s: FileStats, lines: seq<int>, k: Known, treatMissing: bool, mode: Mode)
    requires Counted(s, lines, k, treatMissing, mode)
    ensures s.executableChanged == |ExecutableIn(Members(lines), k, treatMissing, mode)|
    ensures s.uncoveredChanged == |UncoveredIn(Members(lines), k, treatMissing, mode)|
    ensures s.uncoveredChanged <= s.executableChanged
    ensures s.coverageMissing && !treatMissing ==> s.executableChanged == 0
  {
    SetsByFields(k, treatMissing, mode, Members(lines));
    FileBalances(s, lines, k, treatMissing, mode);
    hide ExecutableIn, UncoveredIn, CountedExecutable, CountedCovered, ListsExactly, Members;
  }

  /** Every changed line of every file that counts as executable counts as covered. */
  ghost predicate EverythingCovered(changed: seq<seq<int>>, known: seq<Known>, treatMissing: bool, mode: Mode)
    requires |changed| == |known|
  {
    forall i, line :: 0 <= i < |changed| && line in changed[i] && CountsAsExecutable(known[i], treatMissing, mode, line)
      ==> CountsAsCovered(known[i], mode, line)
  }

  /** The gate on uncovered lines lets a change through exactly if every executable changed line is covered. */
  lemma UncoveredGatePassesExactlyWhen(stats: seq<FileStats>, changed: seq<seq<int>>, known: seq<Known>,
                                       treatMissing: bool, mode: Mode)
    requires AllCounted(stats, changed, known, treatMissing, mode)
    ensures ExitCode(stats, treatMissing, None, true) == 0 <==> EverythingCovered(changed, known, treatMissing, mode)
  {
    GateOf(stats, treatMissing, 0.0);
    AllBalance(stats, changed, known, treatMissing, mode);
    TotalsBalance(stats, treatMissing);
    forall i | 0 <= i < |stats|
      ensures stats[i].uncoveredChanged == 0
              <==> forall line :: line in changed[i] && CountsAsExecutable(known[i], treatMissing, mode, line)
                     ==> CountsAsCovered(known[i], mode, line)
    {
      NoneUncovered(stats[i], changed[i], known[i], treatMissing, mode);
    }
    hide ExitCode, TotalUncovered, TotalExecutable, TotalCovered, CountsAsExecutable, CountsAsCovered, Balanced, Counted;
  }

  lemma NoneUncovered(s: FileStats, lines: seq<int>, k: Known, treatMissing: bool, mode: Mode)
    requires Counted(s, lines, k, treatMissing, mode)
    ensures s.uncoveredChanged == 0
            <==> forall line :: line in lines && CountsAsExecutable(k, treatMissing, mode, line)
                   ==> CountsAsCovered(k, mode, line)
  {
    SetsByFields(k, treatMissing, mode, Members(lines));
    var uncovered := UncoveredIn(Members(lines), k, treatMissing, mode);
    hide CountedExecutable, CountedCovered, CountsAsExecutable, CountsAsCovered;
    if |uncovered| == 0 {
      forall line | line in lines && CountsAsExecutable(k, treatMissing, mode, line)
        ensures CountsAsCovered(k, mode, line)
      {
        assert line !in uncovered;
      }
    } else {
      var line :| line in uncovered;
    }
  }

  lemma AllBalance(stats: seq<FileStats>, changed: seq<seq<int>>, known: seq<Known>, treatMissing: bool, mode: Mode)
    requires AllCounted(stats, changed, known, treatMissing, mode)
    ensures forall i :: 0 <= i < |stats| ==> Balanced(stats[i], treatMissing)
  {
    hide Counted;
    forall i | 0 <= i < |stats| ensures Balanced(stats[i], treatMissing) {
      FileBalances(stats[i], changed[i], known[i], treatMissing, mode);
    }
  }

  lemma Sign(x: real, e: real)
    requires e > 0.0
    ensures x > 0.0 <==> x * e > 0.0
  {
  }

  lemma Quotient(c: real, e: real)
    requires e > 0.0
    ensures c / e * e == c
  {
  }

  lemma Distribute(p: real, q: real, e: real)
    ensures (p - SLACK - q * 100.0) * e == (p - SLACK) * e - 100.0 * (q * e)
  {
    assert (q * 100.0) * e == 100.0 * (q * e);
  }

  /** For any minimum, in whole lines: with `u` of `e` lines uncovered the gate fails exactly if `u` is more
      than the share that the minimum leaves, plus the slack.  Where nothing counts, it compares with 100. */
  lemma BelowMinimumExactlyWhen(stats: seq<FileStats>, changed: seq<seq<int>>, known: seq<Known>,
                                treatMissing: bool, mode: Mode, minPct: real)
    requires AllCounted(stats, changed, known, treatMissing, mode)
    ensures var e, u := TotalExecutable(stats, !treatMissing) as real, TotalUncovered(stats) as real;
            BelowMinimum(stats, treatMissing, minPct)
            <==> if e == 0.0 then minPct > 100.0 + 0.000000001 else 100.0 * u > (100.0 - minPct + 0.000000001) * e
  {
    var e, c, u := TotalExecutable(stats, !treatMissing), TotalCovered(stats, !treatMissing), TotalUncovered(stats);
    GateOf(stats, treatMissing, minPct);
    hide *;
    TotalsOfCounted(stats, changed, known, treatMissing, mode);
    PercentOf(e, c, u, minPct);
  }

  lemma GateOf(stats: seq<FileStats>, treatMissing: bool, minPct: real)
    ensures BelowMinimum(stats, treatMissing, minPct)
            <==> Percent(TotalExecutable(stats, !treatMissing), TotalCovered(stats, !treatMissing)) + SLACK < minPct
    ensures ExitCode(stats, treatMissing, Some(minPct), false) == 0 <==> !BelowMinimum(stats, treatMissing, minPct)
    ensures ExitCode(stats, treatMissing, None, true) == 0 <==> TotalUncovered(stats) == 0
  {
    hide TotalExecutable, TotalCovered, TotalUncovered, Percent;
  }

  lemma TotalsOfCounted(stats: seq<FileStats>, changed: seq<seq<int>>, known: seq<Known>, treatMissing: bool,
                        mode: Mode)
    requires AllCounted(stats, changed, known, treatMissing, mode)
    ensures TotalExecutable(stats, !treatMissing) == TotalCovered(stats, !treatMissing) + TotalUncovered(stats)
  {
    hide *;
    AllBalance(stats, changed, known, treatMissing, mode);
    TotalsBalance(stats, treatMissing);
  }

  lemma PercentOf(executable: nat, covered: nat, uncovered: nat, minPct: real)
    requires executable == covered + uncovered
    ensures Percent(executable, covered) + SLACK < minPct
            <==> if executable as real == 0.0 then minPct > 100.0 + 0.000000001
                 else 100.0 * (uncovered as real) > (100.0 - minPct + 0.000000001) * (executable as real)
  {
    if executable > 0 {
      var e, c, u := executable as real, covered as real, uncovered as real;
      Quotient(c, e);
      InLines(c / e, e, c, u, minPct);
    }
  }

  lemma InLines(q: real, e: real, c: real, u: real, p: real)
    requires e > 0.0 && q * e == c && e == c + u
    ensures q * 100.0 + SLACK < p <==> 100.0 * u > (100.0 - p + SLACK) * e
  {
    Sign(p - SLACK - q * 100.0, e);
    Distribute(p, q, e);
    assert (100.0 - p + SLACK) * e == 100.0 * e - (p - SLACK) * e;
  }

  /** Below 10^11 executable changed lines the slack does not matter: a minimum of 100 per cent lets a change
      through exactly if every executable changed line is covered, like the gate on uncovered lines. */
  lemma HundredPercentIsExact(stats: seq<FileStats>, changed: seq<seq<int>>, known: seq<Known>,
                              treatMissing: bool, mode: Mode)
    requires AllCounted(stats, changed, known, treatMissing, mode)
    requires TotalExecutable(stats, !treatMissing) < 100000000000
    ensures ExitCode(stats, treatMissing, Some(100.0), false) == 0 <==> TotalUncovered(stats) == 0
    ensures ExitCode(stats, treatMissing, Some(100.0), false) == 0
            <==> EverythingCovered(changed, known, treatMissing, mode)
  {
    var e, u := TotalExecutable(stats, !treatMissing), TotalUncovered(stats);
    hide *;
    BelowMinimumExactlyWhen(stats, changed, known, treatMissing, mode, 100.0);
    UncoveredGatePassesExactlyWhen(stats, changed, known, treatMissing, mode);
    GateOf(stats, treatMissing, 100.0);
    TotalsOfCounted(stats, changed, known, treatMissing, mode);
    SlackIsSmall(u, e);
  }

  lemma SlackIsSmall(uncovered: nat, executable: nat)
    requires executable < 100000000000
    ensures 100.0 * (uncovered as real) > (100.0 - 100.0 + 0.000000001) * (executable as real) <==> uncovered != 0
  {
    var e, u := executable as real, uncovered as real;
    assert 0.0 <= e < 100000000000.0;
    assert (100.0 - 100.0 + 0.000000001) * e == 0.000000001 * e;
    assert 0.000000001 * e < 100.0;
    if uncovered == 0 {
      assert 100.0 * u == 0.0;
    } else {
      assert u >= 1.0;
      assert 100.0 * u >= 100.0;
    }
  }
}
