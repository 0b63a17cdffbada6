/**
 * utils/convert_svg_to_png.py: rasterise every icon the glyph map names.
 *
 * The same map format as utils/generate_template_glyphs.py, with one
 * difference: only blank lines are skipped here, so a line starting with '#'
 * is parsed like any other line.
 */
module ConvertSvgToPng {
  import opened PyStr
  import opened MapFile
  import opened Wrappers
  import GenerateTemplateGlyphs

  /** How `main` reads one raw line of the map file. */
  function ParseLine(raw: string): (p: MapLine)
    ensures p.Skip? <==> Strip(raw) == []
    ensures p.Invalid? <==> Strip(raw) != [] && ',' !in Strip(raw)
    ensures p.Invalid? ==> p.line == Strip(raw)
    ensures p.Mapping? ==>
              exists a, b :: ',' !in a && Strip(raw) == a + [','] + b && p.output == Strip(a) && p.input == Strip(b)
  {
    var line := Strip(raw);
    if line == [] then Skip else ParseFields(line)
  }

  /** The job one raw line yields: one for a mapping, none otherwise. */
  function LineJobs(raw: string, outputBase: string, inputBase: string): seq<Job>
  {
    ParsedJobs(ParseLine(raw), outputBase, inputBase)
  }

  /** The report one raw line yields: its stripped text if it has no comma, nothing otherwise. */
  function LineReports(raw: string): seq<string>
  {
    ParsedReports(ParseLine(raw))
  }

  /** LineJobs with the two directories fixed. */
  function JobMaker(outputBase: string, inputBase: string): string -> seq<Job>
  {
    raw => LineJobs(raw, outputBase, inputBase)
  }

  /** The conversions `main` runs, in map order. */
  function Jobs(lines: seq<string>, outputBase: string, inputBase: string): seq<Job>
  {
    Collect(lines, JobMaker(outputBase, inputBase))
  }

  /** The lines `main` reports as having an invalid format (stripped), in map order. */
  function InvalidLines(lines: seq<string>): seq<string>
  {
    Collect(lines, LineReports)
  }

  /** One more line adds its own job and report to those of the lines before it. */
  lemma NextLine(lines: seq<string>, k: int, outputBase: string, inputBase: string)
    requires 0 <= k < |lines|
    ensures Jobs(lines[..k + 1], outputBase, inputBase) == Jobs(lines[..k], outputBase, inputBase) + LineJobs(lines[k], outputBase, inputBase)
    ensures InvalidLines(lines[..k + 1]) == InvalidLines(lines[..k]) + LineReports(lines[k])
  {
    assert lines[..k + 1][..k] == lines[..k];
  }

  /** The job and report of one line, in the terms of the loop that computes them. */
  lemma LineOutcome(raw: string, outputBase: string, inputBase: string)
    ensures Strip(raw) == [] ==> LineJobs(raw, outputBase, inputBase) == [] && LineReports(raw) == []
    ensures Strip(raw) != [] && |SplitOnce(Strip(raw), ',')| != 2 ==>
              LineJobs(raw, outputBase, inputBase) == [] && LineReports(raw) == [Strip(raw)]
    ensures Strip(raw) != [] && |SplitOnce(Strip(raw), ',')| == 2 ==>
              var parts := SplitOnce(Strip(raw), ',');
              && LineJobs(raw, outputBase, inputBase) == [Job(InputPath(inputBase, Strip(parts[1])), OutputPath(outputBase, Strip(parts[0])))]
              && LineReports(raw) == []
  {
  }

  /** A line whose job reads a missing file leaves the whole map with a job that cannot run. */
  lemma MissingInput(lines: seq<string>, k: int, outputBase: string, inputBase: string, existing: set<string>)
    requires 0 <= k < |lines|
    requires LineJobs(lines[k], outputBase, inputBase) != []
    requires LineJobs(lines[k], outputBase, inputBase)[0].inputPath !in existing
    ensures !AllInputsExist(Jobs(lines, outputBase, inputBase), existing)
  {
    CollectAt(lines, k, JobMaker(outputBase, inputBase));
  }

  /**
   * The conversion loop of `main`, over the map's lines and the set of paths
   * that exist: one job per mapping line, one report per non-blank line
   * without a comma; the first job whose input is missing ends the run, with
   * the jobs and reports of the lines before it.
   */
  method ProcessMap(lines: seq<string>, outputBase: string, inputBase: string, existing: set<string>)
    returns (jobs: seq<Job>, invalid: seq<string>, missing: Option<string>)
    ensures AllInputsExist(jobs, existing)
    ensures missing.None? ==> jobs == Jobs(lines, outputBase, inputBase) && invalid == InvalidLines(lines)
    ensures missing.Some? ==>
              && missing.value !in existing
              && exists k :: && 0 <= k < |lines|
                             && jobs == Jobs(lines[..k], outputBase, inputBase)
                             && invalid == InvalidLines(lines[..k])
                             && LineJobs(lines[k], outputBase, inputBase) != []
                             && LineJobs(lines[k], outputBase, inputBase)[0].inputPath == missing.value
    ensures missing.None? <==> AllInputsExist(Jobs(lines, outputBase, inputBase), existing)
  {
    jobs, invalid, missing := [], [], None;
    for k := 0 to |lines|
      invariant jobs == Jobs(lines[..k], outputBase, inputBase)
      invariant invalid == InvalidLines(lines[..k])
      invariant AllInputsExist(jobs, existing)
    {
      NextLine(lines, k, outputBase, inputBase);
      LineOutcome(lines[k], outputBase, inputBase);
      var line := Strip(lines[k]);
      if line == [] {
        continue;
      }
      var parts := SplitOnce(line, ',');
      if |parts| != 2 {
        invalid := invalid + [line];
        continue;
      }
      var outputRelPath := Strip(parts[0]);
      var inputFilename := Strip(parts[1]);
      var outputPath := OutputPath(outputBase, outputRelPath);
      var inputPath := InputPath(inputBase, inputFilename);
      if inputPath !in existing {
        MissingInput(lines, k, outputBase, inputBase, existing);
        missing := Some(inputPath);
        return;
      }
      AllInputsExistAppend(jobs, Job(inputPath, outputPath), existing);
      jobs := jobs + [Job(inputPath, outputPath)];
    }
    assert lines[..|lines|] == lines;
  }

  /** A line that is not a mapping (blank or invalid) yields no job. */
  lemma NoJobWithoutMapping(raw: string, outputBase: string, inputBase: string)
    requires !ParseLine(raw).Mapping?
    ensures JobMaker(outputBase, inputBase)(raw) == []
  {
  }

  /** A line that is not a mapping yields no job; the lines around it are still converted. */
  lemma NonMappingLineSkipped(a: seq<string>, bad: string, b: seq<string>, outputBase: string, inputBase: string)
    requires !ParseLine(bad).Mapping?
    ensures Jobs(a + [bad] + b, outputBase, inputBase) == Jobs(a, outputBase, inputBase) + Jobs(b, outputBase, inputBase)
  {
    CollectMiddle(a, bad, b, JobMaker(outputBase, inputBase));
    NoJobWithoutMapping(bad, outputBase, inputBase);
  }

  /** An invalid line is reported, stripped, between the reports of the lines around it. */
  lemma InvalidLineReported(a: seq<string>, bad: string, b: seq<string>)
    requires ParseLine(bad).Invalid?
    ensures InvalidLines(a + [bad] + b) == InvalidLines(a) + [Strip(bad)] + InvalidLines(b)
  {
    CollectMiddle(a, bad, b, LineReports);
  }

  // ---------------------------------------------------------------------------
  // Against utils/generate_template_glyphs.py
  // ---------------------------------------------------------------------------

  /** A line that does not start with '#' after stripping is read the same way by both scripts. */
  lemma SameParseUnlessComment(raw: string)
    requires !StartsWith(Strip(raw), "#")
    ensures ParseLine(raw) == GenerateTemplateGlyphs.ParseLine(raw)
  {
  }

  /** A comment line, skipped by the template generator, is a mapping here when it has a comma and invalid otherwise. */
  lemma CommentLineParsed(raw: string)
    requires StartsWith(Strip(raw), "#")
    ensures GenerateTemplateGlyphs.ParseLine(raw).Skip?
    ensures ParseLine(raw).Mapping? <==> ',' in Strip(raw)
    ensures ParseLine(raw).Invalid? <==> ',' !in Strip(raw)
  {
  }

  /** Such a mapping names an output whose name starts with '#'. */
  lemma CommentMappingOutput(raw: string)
    requires StartsWith(Strip(raw), "#") && ',' in Strip(raw)
    ensures ParseLine(raw).Mapping? && StartsWith(ParseLine(raw).output, "#")
  {
    var line := Strip(raw);
    var parts := SplitOnce(line, ',');
    HashBeforeComma(line);
    StripKeepsHash(parts[0]);
  }

  /** The text before the first comma of a line starting with '#' starts with '#' too. */
  lemma HashBeforeComma(line: string)
    requires StartsWith(line, "#") && ',' in line
    ensures |SplitOnce(line, ',')[0]| > 0 && SplitOnce(line, ',')[0][0] == '#'
  {
    var parts := SplitOnce(line, ',');
    assert line == parts[0] + [','] + parts[1];
    assert line[0] == '#';
    assert (parts[0] + [','] + parts[1])[0] == if parts[0] == [] then ',' else parts[0][0];
  }

  /** Stripping a string that starts with '#' keeps it at the front. */
  lemma StripKeepsHash(s: string)
    requires |s| > 0 && s[0] == '#'
    ensures StartsWith(Strip(s), "#")
  {
    assert !IsSpace(s[0]);
    assert LeadingSpace(s) == 0;
  }

  /**
   * Job lists that agree except for the directory the SVGs are read from:
   * same length, same outputs, and each pair of inputs is one name in `dirA`
   * and in `dirB`.
   */
  ghost predicate SameButInputDir(a: seq<Job>, b: seq<Job>, dirA: string, dirB: string)
  {
    && |a| == |b|
    && forall k :: 0 <= k < |a| ==>
         && a[k].outputPath == b[k].outputPath
         && exists name :: a[k].inputPath == InputPath(dirA, name) && b[k].inputPath == InputPath(dirB, name)
  }

  lemma SameButInputDirAppend(a: seq<Job>, b: seq<Job>, a': seq<Job>, b': seq<Job>, dirA: string, dirB: string)
    requires SameButInputDir(a, b, dirA, dirB) && SameButInputDir(a', b', dirA, dirB)
    ensures SameButInputDir(a + a', b + b', dirA, dirB)
  {
    forall k | 0 <= k < |a + a'|
      ensures (a + a')[k].outputPath == (b + b')[k].outputPath
      ensures exists name :: (a + a')[k].inputPath == InputPath(dirA, name) && (b + b')[k].inputPath == InputPath(dirB, name)
    {
      if k < |a| {
        assert (a + a')[k] == a[k] && (b + b')[k] == b[k];
      } else {
        assert (a + a')[k] == a'[k - |a|] && (b + b')[k] == b'[k - |a|];
      }
    }
  }

  /**
   * Without comment lines, both scripts convert the same lines to the same
   * outputs, each reading the same name from its own SVG directory
   * (`convertDir` here, `generatorDir` in the template generator), and report
   * the same invalid lines; given one directory, the jobs are identical.
   */
  lemma {:induction false} SameJobsWithoutComments(lines: seq<string>, outputBase: string, convertDir: string, generatorDir: string)
    requires forall i :: 0 <= i < |lines| ==> !StartsWith(Strip(lines[i]), "#")
    ensures SameButInputDir(Jobs(lines, outputBase, convertDir),
                            GenerateTemplateGlyphs.Jobs(lines, outputBase, generatorDir), convertDir, generatorDir)
    ensures convertDir == generatorDir ==>
              Jobs(lines, outputBase, convertDir) == GenerateTemplateGlyphs.Jobs(lines, outputBase, generatorDir)
    ensures InvalidLines(lines) == GenerateTemplateGlyphs.InvalidLines(lines)
  {
    if |lines| > 0 {
      var n := |lines| - 1;
      SameJobsWithoutComments(lines[..n], outputBase, convertDir, generatorDir);
      SameParseUnlessComment(lines[n]);
      SameLineOutcome(lines[n], outputBase, convertDir, generatorDir);
      NextLine(lines, n, outputBase, convertDir);
      GenerateTemplateGlyphs.NextLine(lines, n, outputBase, generatorDir);
      assert lines[..n + 1] == lines;
      SameButInputDirAppend(Jobs(lines[..n], outputBase, convertDir), GenerateTemplateGlyphs.Jobs(lines[..n], outputBase, generatorDir),
                            LineJobs(lines[n], outputBase, convertDir), GenerateTemplateGlyphs.LineJobs(lines[n], outputBase, generatorDir),
                            convertDir, generatorDir);
    }
  }

  /** One line both scripts parse alike: the same outcome, up to the SVG directory. */
  lemma SameLineOutcome(raw: string, outputBase: string, convertDir: string, generatorDir: string)
    requires ParseLine(raw) == GenerateTemplateGlyphs.ParseLine(raw)
    ensures SameButInputDir(LineJobs(raw, outputBase, convertDir),
                            GenerateTemplateGlyphs.LineJobs(raw, outputBase, generatorDir), convertDir, generatorDir)
    ensures convertDir == generatorDir ==>
              LineJobs(raw, outputBase, convertDir) == GenerateTemplateGlyphs.LineJobs(raw, outputBase, generatorDir)
    ensures LineReports(raw) == GenerateTemplateGlyphs.LineReports(raw)
  {
    ParsedSameButInputDir(ParseLine(raw), outputBase, convertDir, generatorDir);
  }

  /** One parsed line: its job reads the same name from either directory and writes the same output. */
  lemma ParsedSameButInputDir(p: MapLine, outputBase: string, dirA: string, dirB: string)
    ensures SameButInputDir(ParsedJobs(p, outputBase, dirA), ParsedJobs(p, outputBase, dirB), dirA, dirB)
  {
    if p.Mapping? {
      assert ParsedJobs(p, outputBase, dirA)[0].inputPath == InputPath(dirA, p.input);
      assert ParsedJobs(p, outputBase, dirB)[0].inputPath == InputPath(dirB, p.input);
    }
  }
}
