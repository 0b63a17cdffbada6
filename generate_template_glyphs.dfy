/**
 * utils/generate_template_glyphs.py: rasterise every icon the glyph map names,
 * then list the SVG files in the icon directory that no map line refers to.
 *
 * Map lines that are blank or start with '#' after stripping are skipped.  The
 * file system is replaced by its contents: the map file as its lines, the icon
 * directory as its listing, and the conversions as the jobs they would run.
 */
module GenerateTemplateGlyphs {
  import opened PyStr
  import opened MapFile
  import opened Wrappers

  /** Skipped: nothing left after stripping, or a comment. */
  predicate IsSkipped(line: string)
  {
    line == [] || StartsWith(line, "#")
  }

  /** How `main` reads one raw line of the map file. */
  function ParseLine(raw: string): (p: MapLine)
    ensures p.Skip? <==> IsSkipped(Strip(raw))
    ensures p.Invalid? <==> !IsSkipped(Strip(raw)) && ',' !in Strip(raw)
    ensures p.Invalid? ==> p.line == Strip(raw)
    ensures p.Mapping? ==>
              exists a, b :: ',' !in a && Strip(raw) == a + [','] + b && p.output == Strip(a) && p.input == Strip(b)
  {
    var line := Strip(raw);
    if IsSkipped(line) then Skip else ParseFields(line)
  }

  /** Conversely, every kept line with a comma is a mapping of its fields around the first comma. */
  lemma ParseLineComplete(raw: string, a: string, b: string)
    requires !IsSkipped(Strip(raw))
    requires ',' !in a && Strip(raw) == a + [','] + b
    ensures ParseLine(raw) == Mapping(Strip(a), Strip(b))
  {
    ParseFieldsComplete(Strip(raw), a, b);
  }

  /** The job one raw line yields: one for a mapping, none otherwise. */
  function LineJobs(raw: string, outputBase: string, svgDir: string): seq<Job>
  {
    ParsedJobs(ParseLine(raw), outputBase, svgDir)
  }

  /** The report one raw line yields: its stripped text if it has no comma, nothing otherwise. */
  function LineReports(raw: string): seq<string>
  {
    ParsedReports(ParseLine(raw))
  }

  /** The conversions `main` runs, in map order. */
  function Jobs(lines: seq<string>, outputBase: string, svgDir: string): seq<Job>
  {
    Collect(lines, JobMaker(outputBase, svgDir))
  }

  /** LineJobs with the two directories fixed. */
  function JobMaker(outputBase: string, svgDir: string): string -> seq<Job>
  {
    raw => LineJobs(raw, outputBase, svgDir)
  }

  /** The lines `main` reports as having an invalid format (stripped), in map order. */
  function InvalidLines(lines: seq<string>): seq<string>
  {
    Collect(lines, LineReports)
  }

  /** One more line adds its own job and report to those of the lines before it. */
  lemma NextLine(lines: seq<string>, k: int, outputBase: string, svgDir: string)
    requires 0 <= k < |lines|
    ensures Jobs(lines[..k + 1], outputBase, svgDir) == Jobs(lines[..k], outputBase, svgDir) + LineJobs(lines[k], outputBase, svgDir)
    ensures InvalidLines(lines[..k + 1]) == InvalidLines(lines[..k]) + LineReports(lines[k])
  {
    assert lines[..k + 1][..k] == lines[..k];
  }

  /** The job and report of one line, in the terms of the loop that computes them. */
  lemma LineOutcome(raw: string, outputBase: string, svgDir: string)
    ensures IsSkipped(Strip(raw)) ==> LineJobs(raw, outputBase, svgDir) == [] && LineReports(raw) == []
    ensures !IsSkipped(Strip(raw)) && |SplitOnce(Strip(raw), ',')| != 2 ==>
              LineJobs(raw, outputBase, svgDir) == [] && LineReports(raw) == [Strip(raw)]
    ensures !IsSkipped(Strip(raw)) && |SplitOnce(Strip(raw), ',')| == 2 ==>
              var parts := SplitOnce(Strip(raw), ',');
              && LineJobs(raw, outputBase, svgDir) == [Job(InputPath(svgDir, Strip(parts[1])), OutputPath(outputBase, Strip(parts[0])))]
              && LineReports(raw) == []
  {
  }

  /** A line whose job reads a missing file leaves the whole map with a job that cannot run. */
  lemma MissingInput(lines: seq<string>, k: int, outputBase: string, svgDir: string, existing: set<string>)
    requires 0 <= k < |lines|
    requires LineJobs(lines[k], outputBase, svgDir) != []
    requires LineJobs(lines[k], outputBase, svgDir)[0].inputPath !in existing
    ensures !AllInputsExist(Jobs(lines, outputBase, svgDir), existing)
  {
    CollectAt(lines, k, JobMaker(outputBase, svgDir));
  }

  /**
   * The conversion loop of `main`, over the map's lines and the set of paths
   * that exist: one job per mapping line, one report per line without a
   * comma, nothing for blank or comment lines; the first job whose input is
   * missing ends the run, with the jobs and reports of the lines before it.
   */
  method ProcessMap(lines: seq<string>, outputBase: string, svgDir: string, existing: set<string>)
    returns (jobs: seq<Job>, invalid: seq<string>, missing: Option<string>)
    ensures AllInputsExist(jobs, existing)
    ensures missing.None? ==> jobs == Jobs(lines, outputBase, svgDir) && invalid == InvalidLines(lines)
    ensures missing.Some? ==>
              && missing.value !in existing
              && exists k :: && 0 <= k < |lines|
                             && jobs == Jobs(lines[..k], outputBase, svgDir)
                             && invalid == InvalidLines(lines[..k])
                             && LineJobs(lines[k], outputBase, svgDir) != []
                             && LineJobs(lines[k], outputBase, svgDir)[0].inputPath == missing.value
    ensures missing.None? <==> AllInputsExist(Jobs(lines, outputBase, svgDir), existing)
  {
    jobs, invalid, missing := [], [], None;
    for k := 0 to |lines|
      invariant jobs == Jobs(lines[..k], outputBase, svgDir)
      invariant invalid == InvalidLines(lines[..k])
      invariant AllInputsExist(jobs, existing)
    {
      NextLine(lines, k, outputBase, svgDir);
      LineOutcome(lines[k], outputBase, svgDir);
      var line := Strip(lines[k]);
      if line == [] || StartsWith(line, "#") {
        continue;
      }
      var parts := SplitOnce(line, ',');
      if |parts| != 2 {
        invalid := invalid + [line];
        continue;
      }
      var outputRelPath := Strip(parts[0]);
      var inputFilename := Strip(parts[1]);
      var outputPath := OutputPath(outputBase, outputRelPath);
      var inputPath := InputPath(svgDir, inputFilename);
      if inputPath !in existing {
        MissingInput(lines, k, outputBase, svgDir, existing);
        missing := Some(inputPath);
        return;
      }
      AllInputsExistAppend(jobs, Job(inputPath, outputPath), existing);
      jobs := jobs + [Job(inputPath, outputPath)];
    }
    assert lines[..|lines|] == lines;
  }

  /** A line that is not a mapping yields no job. */
  lemma NoJobWithoutMapping(raw: string, outputBase: string, svgDir: string)
    requires !ParseLine(raw).Mapping?
    ensures JobMaker(outputBase, svgDir)(raw) == []
  {
  }

  /** A line that is not a mapping (blank, comment or invalid) yields no job; the lines around it are still converted. */
  lemma NonMappingLineSkipped(a: seq<string>, bad: string, b: seq<string>, outputBase: string, svgDir: string)
    requires !ParseLine(bad).Mapping?
    ensures Jobs(a + [bad] + b, outputBase, svgDir) == Jobs(a, outputBase, svgDir) + Jobs(b, outputBase, svgDir)
  {
    CollectMiddle(a, bad, b, JobMaker(outputBase, svgDir));
    NoJobWithoutMapping(bad, outputBase, svgDir);
  }

  /** An invalid line is reported, stripped, between the reports of the lines around it. */
  lemma InvalidLineReported(a: seq<string>, bad: string, b: seq<string>)
    requires ParseLine(bad).Invalid?
    ensures InvalidLines(a + [bad] + b) == InvalidLines(a) + [Strip(bad)] + InvalidLines(b)
  {
    CollectMiddle(a, bad, b, LineReports);
  }

  /** A blank or comment line changes neither the jobs nor the reports. */
  lemma SkippedLineIgnored(a: seq<string>, skipped: string, b: seq<string>, outputBase: string, svgDir: string)
    requires IsSkipped(Strip(skipped))
    ensures Jobs(a + [skipped] + b, outputBase, svgDir) == Jobs(a + b, outputBase, svgDir)
    ensures InvalidLines(a + [skipped] + b) == InvalidLines(a + b)
  {
    SkippedLineNoJob(a, skipped, b, outputBase, svgDir);
    SkippedLineNoReport(a, skipped, b);
  }

  lemma SkippedLineNoJob(a: seq<string>, skipped: string, b: seq<string>, outputBase: string, svgDir: string)
    requires IsSkipped(Strip(skipped))
    ensures Jobs(a + [skipped] + b, outputBase, svgDir) == Jobs(a + b, outputBase, svgDir)
  {
    assert ParseLine(skipped).Skip?;
    NonMappingLineSkipped(a, skipped, b, outputBase, svgDir);
    CollectAppend(a, b, JobMaker(outputBase, svgDir));
  }

  lemma SkippedLineNoReport(a: seq<string>, skipped: string, b: seq<string>)
    requires IsSkipped(Strip(skipped))
    ensures InvalidLines(a + [skipped] + b) == InvalidLines(a + b)
  {
    assert ParseLine(skipped).Skip?;
    assert LineReports(skipped) == [];
    CollectMiddle(a, skipped, b, LineReports);
    CollectAppend(a, b, LineReports);
  }

  // ---------------------------------------------------------------------------
  // find_unused_svg_files
  // ---------------------------------------------------------------------------

  /** How find_unused_svg_files reads one raw map line: the stripped input field, if any. */
  function IconOfLine(raw: string): (icon: Option<string>)
    ensures icon.Some? <==> !IsSkipped(Strip(raw)) && ',' in Strip(raw)
    ensures icon.Some? ==>
              exists a, b :: ',' !in a && Strip(raw) == a + [','] + b && icon.value == Strip(b)
  {
    var line := Strip(raw);
    if line != [] && !StartsWith(line, "#") then
      var parts := SplitOnce(line, ',');
      if |parts| == 2 then Some(Strip(parts[1])) else None
    else None
  }

  /** find_unused_svg_files applies the same skip and split rules as `main`. */
  lemma IconOfLineAgreesWithMain(raw: string)
    ensures IconOfLine(raw).Some? <==> ParseLine(raw).Mapping?
    ensures IconOfLine(raw).Some? ==> IconOfLine(raw).value == ParseLine(raw).input
  {
  }

  /** The icon one raw line contributes: its input field if it is a mapping, nothing otherwise. */
  function IconList(raw: string): seq<string>
  {
    match IconOfLine(raw)
    case Some(icon) => [icon]
    case None => []
  }

  /** The icon of one line, in the terms of the loop that collects it. */
  lemma IconStep(raw: string)
    ensures var line := Strip(raw);
            if line != [] && !StartsWith(line, "#") && |SplitOnce(line, ',')| == 2
            then IconList(raw) == [Strip(SplitOnce(line, ',')[1])]
            else IconList(raw) == []
  {
  }

  /** The icon names of the map, in map order. */
  function MapIcons(lines: seq<string>): seq<string>
  {
    Collect(lines, IconList)
  }

  /** A name is on the icon list exactly when some map line yields it as its icon. */
  lemma MapIconsMembers(lines: seq<string>, x: string)
    ensures x in MapIcons(lines) <==> exists k :: 0 <= k < |lines| && IconOfLine(lines[k]) == Some(x)
  {
    CollectMembers(lines, IconList, x);
    forall k | 0 <= k < |lines|
      ensures x in IconList(lines[k]) <==> IconOfLine(lines[k]) == Some(x)
    {
    }
  }

  /** The icon list holds exactly the input fields of the jobs `main` runs, in the same order. */
  lemma MapIconsAreJobInputs(lines: seq<string>, outputBase: string, svgDir: string)
    ensures |MapIcons(lines)| == |Jobs(lines, outputBase, svgDir)|
    ensures forall k :: 0 <= k < |MapIcons(lines)| ==>
              Jobs(lines, outputBase, svgDir)[k].inputPath == InputPath(svgDir, MapIcons(lines)[k])
  {
    var g := JobMaker(outputBase, svgDir);
    forall raw
      ensures |IconList(raw)| == |g(raw)|
      ensures forall k :: 0 <= k < |IconList(raw)| ==> g(raw)[k].inputPath == InputPath(svgDir, IconList(raw)[k])
    {
      IconOfLineAgreesWithMain(raw);
    }
    CollectPaired(lines, IconList, g, svgDir);
  }

  /** Line by line, each icon names the input of the job beside it; then so do the whole lists. */
  lemma {:induction false} CollectPaired(lines: seq<string>, f: string -> seq<string>, g: string -> seq<Job>, dir: string)
    requires forall raw :: |f(raw)| == |g(raw)|
    requires forall raw, k :: 0 <= k < |f(raw)| ==> g(raw)[k].inputPath == InputPath(dir, f(raw)[k])
    ensures |Collect(lines, f)| == |Collect(lines, g)|
    ensures forall k :: 0 <= k < |Collect(lines, f)| ==> Collect(lines, g)[k].inputPath == InputPath(dir, Collect(lines, f)[k])
  {
    if |lines| > 0 {
      var init, last := lines[..|lines| - 1], lines[|lines| - 1];
      CollectPaired(init, f, g, dir);
      var fs, gs := Collect(lines, f), Collect(lines, g);
      var fs0, gs0 := Collect(init, f), Collect(init, g);
      forall k | 0 <= k < |fs|
        ensures gs[k].inputPath == InputPath(dir, fs[k])
      {
        if k < |fs0| {
          assert fs[k] == fs0[k] && gs[k] == gs0[k];
        } else {
          assert fs[k] == f(last)[k - |fs0|] && gs[k] == g(last)[k - |fs0|];
        }
      }
    }
  }

  /** The stems of the `.svg` entries of a directory listing, in listing order. */
  function SvgStems(listing: seq<string>): (stems: seq<string>)
    ensures |stems| <= |listing|
    ensures forall x :: x in stems <==> exists k :: 0 <= k < |listing| && HasStem(listing[k], x)
  {
    if |listing| == 0 then []
    else
      var name := listing[|listing| - 1];
      SvgStems(listing[..|listing| - 1]) + if EndsWith(name, ".svg") then [SvgStem(name)] else []
  }

  /** `entry` is a ".svg" file whose stem is `x`. */
  predicate HasStem(entry: string, x: string)
  {
    EndsWith(entry, ".svg") && SvgStem(entry) == x
  }

  /** The indices of the ".svg" entries of `listing` whose stem is `x`. */
  function StemIndices(listing: seq<string>, x: string): set<int>
  {
    set k | 0 <= k < |listing| && HasStem(listing[k], x)
  }

  /** Extending the listing by one entry adds at most its own index. */
  lemma StemIndicesSnoc(listing: seq<string>, x: string)
    requires |listing| > 0
    ensures var n := |listing| - 1;
            |StemIndices(listing, x)| ==
              |StemIndices(listing[..n], x)| + if HasStem(listing[n], x) then 1 else 0
  {
    var n := |listing| - 1;
    var init := listing[..n];
    var before := StemIndices(init, x);
    var all := StemIndices(listing, x);
    var here: set<int> := if HasStem(listing[n], x) then {n} else {};
    forall k
      ensures k in all <==> k in before + here
    {
      if 0 <= k < n {
        assert init[k] == listing[k];
      }
    }
    assert all == before + here;
    assert n !in before;
  }

  /** Each stem occurs once per ".svg" entry of the listing that has it as its stem. */
  lemma {:induction false} SvgStemsCount(listing: seq<string>, x: string)
    ensures multiset(SvgStems(listing))[x] == |StemIndices(listing, x)|
    decreases |listing|
  {
    if |listing| > 0 {
      var n := |listing| - 1;
      var init, last := listing[..n], listing[n];
      assert listing == init + [last];
      SvgStemsCount(init, x);
      StemIndicesSnoc(listing, x);
      SvgStemsSnoc(init, last, x);
    }
  }

  /** The last entry adds one occurrence of its stem, if it is a ".svg" entry, and nothing else. */
  lemma SvgStemsSnoc(init: seq<string>, last: string, x: string)
    ensures multiset(SvgStems(init + [last]))[x] == multiset(SvgStems(init))[x] + if HasStem(last, x) then 1 else 0
  {
    var listing := init + [last];
    assert listing[..|listing| - 1] == init;
    var tail := if EndsWith(last, ".svg") then [SvgStem(last)] else [];
    assert SvgStems(listing) == SvgStems(init) + tail;
    assert multiset(SvgStems(listing)) == multiset(SvgStems(init)) + multiset(tail);
  }

  /** `u` keeps some elements of `s`, in their order in `s`. */
  predicate IsSubsequence(u: seq<string>, s: seq<string>)
    decreases |s|
  {
    |u| == 0
    || (|s| > 0 && (IsSubsequence(u, s[..|s| - 1])
                    || (u[|u| - 1] == s[|s| - 1] && IsSubsequence(u[..|u| - 1], s[..|s| - 1]))))
  }

  /** The stems not named by any map line, in listing order. */
  function Unused(stems: seq<string>, icons: seq<string>): (u: seq<string>)
    ensures forall x :: x in u <==> x in stems && x !in icons
    ensures forall x :: multiset(u)[x] == if x in icons then 0 else multiset(stems)[x]
    ensures IsSubsequence(u, stems)
  {
    if |stems| == 0 then []
    else
      var init := stems[..|stems| - 1];
      var last := stems[|stems| - 1];
      assert stems == init + [last];
      var prev := Unused(init, icons);
      UnusedSnocMembers(init, last, icons, prev);
      UnusedSnocCount(init, last, icons, prev);
      UnusedSnocOrder(init, last, icons, prev);
      prev + KeptIfUnused(last, icons)
  }

  /** The one-element list holding `stem` when no icon names it, and nothing otherwise. */
  function KeptIfUnused(stem: string, icons: seq<string>): seq<string>
  {
    if stem !in icons then [stem] else []
  }

  /** One more stem keeps the membership law of Unused. */
  lemma UnusedSnocMembers(init: seq<string>, last: string, icons: seq<string>, prev: seq<string>)
    requires forall x :: x in prev <==> x in init && x !in icons
    ensures forall x :: x in prev + KeptIfUnused(last, icons) <==> x in init + [last] && x !in icons
  {
  }

  /** One more stem keeps the multiplicity law of Unused. */
  lemma UnusedSnocCount(init: seq<string>, last: string, icons: seq<string>, prev: seq<string>)
    requires forall x :: multiset(prev)[x] == if x in icons then 0 else multiset(init)[x]
    ensures forall x :: multiset(prev + KeptIfUnused(last, icons))[x] ==
                        if x in icons then 0 else multiset(init + [last])[x]
  {
    assert multiset(init + [last]) == multiset(init) + multiset{last};
    assert multiset(prev + KeptIfUnused(last, icons)) == multiset(prev) + multiset(KeptIfUnused(last, icons));
  }

  /** One more stem keeps the unused stems in listing order. */
  lemma UnusedSnocOrder(init: seq<string>, last: string, icons: seq<string>, prev: seq<string>)
    requires IsSubsequence(prev, init)
    ensures IsSubsequence(prev + KeptIfUnused(last, icons), init + [last])
  {
    var u, stems := prev + KeptIfUnused(last, icons), init + [last];
    assert stems[..|stems| - 1] == init;
    if last !in icons {
      assert u[..|u| - 1] == prev && u[|u| - 1] == last;
    } else {
      assert u == prev;
    }
  }

  /**
   * find_unused_svg_files: the `.svg` stems of the listing that no map line
   * names, and the same list in the sorted order it is printed in.
   */
  method FindUnusedSvgFiles(listing: seq<string>, mapLines: seq<string>)
    returns (unused: seq<string>, printed: seq<string>)
    ensures unused == Unused(SvgStems(listing), MapIcons(mapLines))
    ensures printed == SortStrings(unused)
  {
    var svgFiles: seq<string> := [];
    for k := 0 to |listing|
      invariant svgFiles == SvgStems(listing[..k])
    {
      assert listing[..k + 1][..k] == listing[..k];
      var filename := listing[k];
      if EndsWith(filename, ".svg") {
        svgFiles := svgFiles + [SvgStem(filename)];
      }
    }
    assert listing[..|listing|] == listing;
    var glyphMapIcons: seq<string> := [];
    for k := 0 to |mapLines|
      invariant glyphMapIcons == MapIcons(mapLines[..k])
    {
      CollectNext(mapLines, k, IconList);
      IconStep(mapLines[k]);
      var line := Strip(mapLines[k]);
      if line != [] && !StartsWith(line, "#") {
        var parts := SplitOnce(line, ',');
        if |parts| == 2 {
          glyphMapIcons := glyphMapIcons + [Strip(parts[1])];
        }
      }
    }
    assert mapLines[..|mapLines|] == mapLines;
    unused := Unused(svgFiles, glyphMapIcons);
    printed := SortStrings(unused);
  }

  /** An SVG file is reported unused exactly when its stem is not the input field of any job `main` runs. */
  lemma UnusedMeansNoJob(listing: seq<string>, mapLines: seq<string>, outputBase: string, svgDir: string, stem: string)
    requires stem in SvgStems(listing)
    ensures stem in Unused(SvgStems(listing), MapIcons(mapLines)) <==>
              forall k :: 0 <= k < |Jobs(mapLines, outputBase, svgDir)| ==>
                Jobs(mapLines, outputBase, svgDir)[k].inputPath != InputPath(svgDir, stem)
  {
    var icons := MapIcons(mapLines);
    var jobs := Jobs(mapLines, outputBase, svgDir);
    MapIconsAreJobInputs(mapLines, outputBase, svgDir);
    if stem in icons {
      var k :| 0 <= k < |icons| && icons[k] == stem;
      assert jobs[k].inputPath == InputPath(svgDir, stem);
    } else {
      forall k | 0 <= k < |jobs| ensures jobs[k].inputPath != InputPath(svgDir, stem) {
        if jobs[k].inputPath == InputPath(svgDir, stem) {
          FilePathInjective(svgDir, icons[k], stem, ".svg");
        }
      }
    }
  }

  /** `main` followed by find_unused_svg_files, over the same map. */
  method Run(mapLines: seq<string>, listing: seq<string>, outputBase: string, svgDir: string, existing: set<string>)
    returns (jobs: seq<Job>, invalid: seq<string>, missing: Option<string>, report: Option<seq<string>>)
    ensures missing.None? <==> AllInputsExist(Jobs(mapLines, outputBase, svgDir), existing)
    ensures missing.None? ==> jobs == Jobs(mapLines, outputBase, svgDir) && invalid == InvalidLines(mapLines)
    ensures report.Some? <==> missing.None?
    ensures report.Some? ==> Sorted(report.value)
                             && multiset(report.value) == multiset(Unused(SvgStems(listing), MapIcons(mapLines)))
  {
    jobs, invalid, missing := ProcessMap(mapLines, outputBase, svgDir, existing);
    if missing.Some? {
      return jobs, invalid, missing, None;
    }
    var unused, printed := FindUnusedSvgFiles(listing, mapLines);
    report := Some(printed);
  }
}
