/**
 * The glyph-map line format shared by the two icon-conversion scripts:
 * `output_name, input_name` per line, cut at the first comma, both fields
 * stripped, and the conversion job an accepted line describes.
 */
module MapFile {
  import opened PyStr

  /** What one line of the map file amounts to. */
  datatype MapLine = Skip | Invalid(line: string) | Mapping(output: string, input: string)

  /** One rasterisation: read the SVG at `inputPath`, write the PNG at `outputPath`. */
  datatype Job = Job(inputPath: string, outputPath: string)

  /**
   * The split-at-first-comma step applied to an already stripped, non-skipped
   * line: no comma is reported as an invalid line; otherwise the fields are the
   * stripped text before the first comma and the stripped remainder.
   */
  function ParseFields(line: string): (p: MapLine)
    ensures !p.Skip?
    ensures p.Invalid? <==> ',' !in line
    ensures p.Invalid? ==> p.line == line
    ensures p.Mapping? ==> exists a, b :: ',' !in a && line == a + [','] + b && p.output == Strip(a) && p.input == Strip(b)
  {
    var parts := SplitOnce(line, ',');
    if |parts| != 2 then Invalid(line)
    else Mapping(Strip(parts[0]), Strip(parts[1]))
  }

  /** Every cut at a first comma yields exactly the mapping ParseFields reports. */
  lemma ParseFieldsComplete(line: string, a: string, b: string)
    requires ',' !in a && line == a + [','] + b
    ensures ParseFields(line) == Mapping(Strip(a), Strip(b))
  {
    SplitOnceUnique(line, ',', a, b);
  }

  /** A file path `dir/name` plus extension; the name can be read back from it. */
  function FilePath(dir: string, name: string, ext: string): (path: string)
    ensures StartsWith(path, dir + "/") && EndsWith(path, ext)
    ensures |path| == |dir| + |name| + |ext| + 1 && path[|dir| + 1..|path| - |ext|] == name
  {
    dir + "/" + name + ext
  }

  /** The path of the PNG to write: `base/name.png`. */
  function OutputPath(base: string, name: string): string
  {
    FilePath(base, name, ".png")
  }

  /** The path of the SVG to read: `dir/name.svg`. */
  function InputPath(dir: string, name: string): string
  {
    FilePath(dir, name, ".svg")
  }

  /** The job an accepted line describes. */
  function JobOf(outputBase: string, inputDir: string, output: string, input: string): Job
  {
    Job(InputPath(inputDir, input), OutputPath(outputBase, output))
  }

  /** The jobs one parsed map line yields: one for a mapping, none otherwise. */
  function ParsedJobs(p: MapLine, outputBase: string, inputDir: string): (r: seq<Job>)
    ensures |r| <= 1
    ensures |r| == 1 <==> p.Mapping?
    ensures p.Mapping? ==> r[0].inputPath == InputPath(inputDir, p.input) && r[0].outputPath == OutputPath(outputBase, p.output)
  {
    match p
    case Mapping(o, i) => [JobOf(outputBase, inputDir, o, i)]
    case _ => []
  }

  /** The report one parsed map line yields: its text when it is invalid, nothing otherwise. */
  function ParsedReports(p: MapLine): (r: seq<string>)
    ensures |r| <= 1
    ensures |r| == 1 <==> p.Invalid?
    ensures p.Invalid? ==> r == [p.line]
  {
    match p
    case Invalid(l) => [l]
    case _ => []
  }

  /** Distinct names give distinct paths in the same directory with the same extension. */
  lemma FilePathInjective(dir: string, a: string, b: string, ext: string)
    requires FilePath(dir, a, ext) == FilePath(dir, b, ext)
    ensures a == b
  {
    var p := FilePath(dir, a, ext);
    assert a == p[|dir| + 1..|p| - |ext|] == b;
  }

  // ---------------------------------------------------------------------------
  // Line-by-line processing
  // ---------------------------------------------------------------------------

  /** The outputs `f` gives for each line, concatenated in line order. */
  function Collect<T>(lines: seq<string>, f: string -> seq<T>): seq<T>
  {
    if |lines| == 0 then []
    else Collect(lines[..|lines| - 1], f) + f(lines[|lines| - 1])
  }

  /** Lines are processed independently: the result for a concatenation is the concatenation of results. */
  lemma {:induction false} CollectAppend<T>(a: seq<string>, b: seq<string>, f: string -> seq<T>)
    ensures Collect(a + b, f) == Collect(a, f) + Collect(b, f)
    decreases |b|
  {
    if |b| == 0 {
      assert a + b == a;
    } else {
      var ab := a + b;
      var b' := b[..|b| - 1];
      assert ab[..|ab| - 1] == a + b';
      assert ab[|ab| - 1] == b[|b| - 1];
      CollectAppend(a, b', f);
    }
  }

  /** The contribution of a line in the middle is its own output, between those of its neighbours. */
  lemma CollectMiddle<T>(a: seq<string>, line: string, b: seq<string>, f: string -> seq<T>)
    ensures Collect(a + [line] + b, f) == Collect(a, f) + f(line) + Collect(b, f)
  {
    CollectAppend(a, [line], f);
    CollectAppend(a + [line], b, f);
    assert [line][..0] == [];
  }

  /** Processing one more line appends its output. */
  lemma CollectNext<T>(lines: seq<string>, k: int, f: string -> seq<T>)
    requires 0 <= k < |lines|
    ensures Collect(lines[..k + 1], f) == Collect(lines[..k], f) + f(lines[k])
  {
    assert lines[..k + 1][..k] == lines[..k];
  }

  /** The output of line `k` sits in the overall output right after the outputs of the lines before it. */
  lemma CollectAt<T>(lines: seq<string>, k: int, f: string -> seq<T>)
    requires 0 <= k < |lines| && f(lines[k]) != []
    ensures |Collect(lines[..k], f)| < |Collect(lines, f)|
    ensures Collect(lines, f)[|Collect(lines[..k], f)|] == f(lines[k])[0]
  {
    assert lines == lines[..k] + [lines[k]] + lines[k + 1..];
    CollectMiddle(lines[..k], lines[k], lines[k + 1..], f);
  }

  /** An item is in the overall output exactly when some line's output holds it. */
  lemma {:induction false} CollectMembers<T>(lines: seq<string>, f: string -> seq<T>, x: T)
    ensures x in Collect(lines, f) <==> exists k :: 0 <= k < |lines| && x in f(lines[k])
  {
    if |lines| > 0 {
      var n := |lines| - 1;
      var init := lines[..n];
      CollectMembers(init, f, x);
      if x in Collect(init, f) {
        var k :| 0 <= k < n && x in f(init[k]);
        assert init[k] == lines[k];
      }
      if exists k :: 0 <= k < |lines| && x in f(lines[k]) {
        var k :| 0 <= k < |lines| && x in f(lines[k]);
        if k < n {
          assert init[k] == lines[k];
        }
      }
    }
  }

  // ---------------------------------------------------------------------------
  // Running the jobs
  // ---------------------------------------------------------------------------

  /**
   * Every job reads an existing file.  A job whose input is missing gets a
   * warning, after which opening the input raises and ends the script.
   */
  predicate AllInputsExist(jobs: seq<Job>, existing: set<string>)
  {
    forall j :: 0 <= j < |jobs| ==> jobs[j].inputPath in existing
  }

  lemma AllInputsExistAppend(jobs: seq<Job>, job: Job, existing: set<string>)
    requires AllInputsExist(jobs, existing) && job.inputPath in existing
    ensures AllInputsExist(jobs + [job], existing)
  {
  }
}
