/**
 * `CodeFile` and `CodeAnalyzer` of `day1/src/main-challenge.py`: the scan filter
 * over the paths a glob produced, the cumulative line statistics, and the two
 * top-N selections of the report.
 */
module CodeAnalysis {
  import opened Wrappers
  import opened Text
  import opened Sorting

  /** Seconds in the seven days `is_recent` allows. */
  const RecentWindow := 7 * 86400

  /**
   * One path the glob produced: its full `parts`, whether it is a regular file,
   * its text (`None` when reading or `stat` raised), modification time and size
   * in bytes.
   */
  datatype Entry = Entry(parts: seq<string>, isFile: bool, content: Option<string>, lastModified: int, size: nat)

  /** A scanned file. */
  datatype CodeFile = CodeFile(parts: seq<string>, language: string, lines: nat, lastModified: int, size: nat)

  /** A `largest_files` entry: path, line count and size. */
  datatype LargestFile = LargestFile(parts: seq<string>, lines: nat, size: nat)

  /** The report: the cumulative stats, the largest files and the recent files' paths. */
  datatype Report = Report(totalFiles: nat, totalLines: nat, largest: seq<LargestFile>, recent: seq<seq<string>>)

  /** Some component other than `.` and `..` starts with a dot. */
  predicate Hidden(parts: seq<string>)
  {
    exists i :: 0 <= i < |parts| && parts[i] != "." && parts[i] != ".." && StartsWith(parts[i], ".")
  }

  /** A file under `.hidden` is skipped, one under `normal` is not, and `..` does not count. */
  lemma HiddenExamples()
    ensures Hidden(["/", "tmp", "t", ".hidden", "b.py"])
    ensures !Hidden(["/", "tmp", "t", "normal", "c.py"])
    ensures !Hidden(["..", "a.py"])
  {
    var p := ["/", "tmp", "t", ".hidden", "b.py"];
    assert p[3] != "." && p[3] != ".." && StartsWith(p[3], ".");
    var q := ["/", "tmp", "t", "normal", "c.py"];
    forall i | 0 <= i < |q| ensures !StartsWith(q[i], ".") {
      assert q[i][0] != '.';
    }
    var u := ["..", "a.py"];
    assert !StartsWith(u[1], ".") by {
      assert u[1][0] != '.';
    }
  }

  /** `Path.name`: the last component. */
  function Name(parts: seq<string>): string
  {
    if parts == [] then "" else parts[|parts| - 1]
  }

  /** `str.rfind('.')`: the last dot's index, or -1. */
  function LastDot(name: string): (i: int)
    ensures -1 <= i < |name|
    ensures i >= 0 ==> name[i] == '.'
    ensures forall j :: i < j < |name| ==> name[j] != '.'
  {
    if name == [] then -1
    else if name[|name| - 1] == '.' then |name| - 1
    else LastDot(name[..|name| - 1])
  }

  /** `PurePath.suffix`: from the last dot on, unless that dot starts or ends the name. */
  function Suffix(name: string): string
  {
    var i := LastDot(name);
    if 0 < i < |name| - 1 then name[i..] else ""
  }

  /** `file_path.suffix[1:] or "unknown"`. */
  function Language(parts: seq<string>): string
  {
    var suffix := Suffix(Name(parts));
    var ext := if suffix == "" then "" else suffix[1..];
    if ext == "" then "unknown" else ext
  }

  /** A name `stem.ext` with a non-empty stem and a dot-free extension has language `ext`. */
  lemma {:induction false} LanguageOfName(dir: seq<string>, stem: string, ext: string)
    requires stem != "" && ext != "" && '.' !in ext
    ensures Language(dir + [stem + "." + ext]) == ext
  {
    var name := stem + "." + ext;
    assert Name(dir + [name]) == name;
    LastDotAt(stem, ext);
    assert name[|stem|..] == "." + ext;
  }

  lemma {:induction false} LastDotAt(stem: string, ext: string)
    requires '.' !in ext
    ensures LastDot(stem + "." + ext) == |stem|
    decreases |ext|
  {
    var name := stem + "." + ext;
    if ext == [] {
    } else {
      var init := ext[..|ext| - 1];
      assert name[..|name| - 1] == stem + "." + init;
      assert ext[|ext| - 1] in ext;
      LastDotAt(stem, init);
    }
  }

  /** A name with no dot after its first character, or ending in a dot, has language "unknown". */
  lemma LanguageUnknown(parts: seq<string>)
    requires var name := Name(parts);
      (name != [] && name[|name| - 1] == '.') || (forall i :: 0 < i < |name| ==> name[i] != '.')
    ensures Language(parts) == "unknown"
  {
  }

  /** `len(content.splitlines())`. */
  function LineCount(content: string): nat
  {
    |SplitLines(content)|
  }

  /** Text written as lines each ending in a newline counts one line per line. */
  lemma LineCountTerminated(lines: seq<string>)
    requires forall j, k :: 0 <= j < |lines| && 0 <= k < |lines[j]| ==> !IsLineBreak(lines[j][k])
    ensures LineCount(Terminated(lines)) == |lines|
  {
    SplitLinesTerminated(lines);
  }

  /** `s * n`. */
  function Repeat(s: string, n: nat): string
  {
    if n == 0 then "" else s + Repeat(s, n - 1)
  }

  lemma {:induction false} RepeatTerminated(line: string, n: nat)
    ensures Repeat(line + "\n", n) == Terminated(seq(n, _ => line))
  {
    if n > 0 {
      RepeatTerminated(line, n - 1);
      assert seq(n, _ => line)[1..] == seq(n - 1, _ => line);
    }
  }

  /** A trailing newline adds no line: `"a\nb\n"` has 2 lines. */
  lemma TwoLines()
    ensures LineCount("a\nb\n") == 2
  {
    assert "a\nb\n" == Terminated(["a", "b"]);
    LineCountTerminated(["a", "b"]);
  }

  /** `"x\n" * 20` has 20 lines. */
  lemma TwentyLines()
    ensures LineCount(Repeat("x\n", 20)) == 20
  {
    assert "x" + "\n" == "x\n";
    RepeatTerminated("x", 20);
    LineCountTerminated(seq(20, _ => "x"));
  }

  /** A file directly under a directory that is not hidden is not hidden either. */
  lemma VisibleChild(dir: seq<string>, name: string)
    requires !Hidden(dir) && name != [] && name[0] != '.'
    ensures !Hidden(dir + [name])
  {
    var p := dir + [name];
    forall i | 0 <= i < |p| && p[i] != "." && p[i] != ".."
      ensures !StartsWith(p[i], ".")
    {
      if i < |dir| {
        assert p[i] == dir[i];
      } else {
        assert p[i][0] != '.';
      }
    }
  }

  /** Two visible, readable files scan as themselves, in order. */
  lemma ScanTwo(e1: Entry, e2: Entry)
    requires ScanEntry(e1).Some? && ScanEntry(e2).Some?
    ensures Scanned([e1, e2]) == [ScanEntry(e1).value, ScanEntry(e2).value]
  {
    var f1, f2 := ScanEntry(e1).value, ScanEntry(e2).value;
    var one: seq<Entry> := [e1];
    assert Scanned(one) == [f1] by {
      assert one[..0] == [];
      assert Scanned(one) == Scanned(one[..0]) + [f1];
    }
    var es := one + [e2];
    assert es == [e1, e2];
    assert Scanned(es) == Scanned(one) + [f2] by {
      assert es[..|es| - 1] == one && es[|es| - 1] == e2;
    }
  }

  /** The line total of two files. */
  lemma SumTwo(f1: CodeFile, f2: CodeFile)
    ensures SumLines([f1, f2]) == f1.lines + f2.lines
  {
    var fs := [f1, f2];
    assert SumLines([f1]) == f1.lines by {
      assert [f1][..0] == [];
      assert SumLines([f1]) == SumLines([f1][..0]) + f1.lines;
    }
    assert fs[..1] == [f1];
    assert SumLines(fs) == SumLines(fs[..1]) + f2.lines;
  }

  /**
   * The report test's tree: `small.py` holding `"a\nb\n"` and `big.py` holding
   * `"x\n" * 20` in a visible directory scan as two files with 22 lines in all, and
   * `top_n=5` lists both as the largest files.
   */
  lemma ReportTotals(dir: seq<string>, t1: int, t2: int, s1: nat, s2: nat)
    requires !Hidden(dir)
    ensures var entries := [Entry(dir + ["small.py"], true, Some("a\nb\n"), t1, s1),
                            Entry(dir + ["big.py"], true, Some(Repeat("x\n", 20)), t2, s2)];
      && |Scanned(entries)| == 2
      && SumLines(Scanned(entries)) == 22
      && |Largest(Scanned(entries), 5)| == 2
  {
    var e1 := Entry(dir + ["small.py"], true, Some("a\nb\n"), t1, s1);
    var e2 := Entry(dir + ["big.py"], true, Some(Repeat("x\n", 20)), t2, s2);
    VisibleChild(dir, "small.py");
    VisibleChild(dir, "big.py");
    TwoLines();
    TwentyLines();
    ScanTwo(e1, e2);
    SumTwo(ScanEntry(e1).value, ScanEntry(e2).value);
    TopNLength(Scanned([e1, e2]), Size, 5);
  }

  /** `is_recent`: modified at most seven days before `now`. */
  predicate IsRecent(f: CodeFile, now: int)
  {
    now - f.lastModified <= RecentWindow
  }

  /** The file `scan` yields for one entry, if any. */
  function ScanEntry(e: Entry): (r: Option<CodeFile>)
    ensures r.Some? <==> e.isFile && !Hidden(e.parts) && e.content.Some?
    ensures r.Some? ==> r.value == CodeFile(e.parts, Language(e.parts), LineCount(e.content.value), e.lastModified, e.size)
  {
    if !e.isFile then None
    else if Hidden(e.parts) then None
    else match e.content
      case None => None
      case Some(text) => Some(CodeFile(e.parts, Language(e.parts), LineCount(text), e.lastModified, e.size))
  }

  /** The files `scan` yields, in glob order. */
  function Scanned(entries: seq<Entry>): seq<CodeFile>
  {
    if entries == [] then []
    else
      var r := ScanEntry(entries[|entries| - 1]);
      Scanned(entries[..|entries| - 1]) + (if r.Some? then [r.value] else [])
  }

  /** Total line count of some files. */
  function SumLines(files: seq<CodeFile>): nat
  {
    if files == [] then 0 else SumLines(files[..|files| - 1]) + files[|files| - 1].lines
  }

  /** The scan of two batches of entries yields those of each in turn. */
  lemma {:induction false} ScannedAppend(a: seq<Entry>, b: seq<Entry>)
    ensures Scanned(a + b) == Scanned(a) + Scanned(b)
    decreases |b|
  {
    if b == [] {
      assert a + b == a;
    } else {
      var init := b[..|b| - 1];
      assert (a + b)[..|a + b| - 1] == a + init;
      ScannedAppend(a, init);
    }
  }

  /** The scan yields at most one file per entry. */
  lemma {:induction false} ScannedBound(entries: seq<Entry>)
    ensures |Scanned(entries)| <= |entries|
  {
    if entries != [] {
      ScannedBound(entries[..|entries| - 1]);
    }
  }

  /** A hidden entry, a directory and an unreadable file are all skipped. */
  lemma {:induction false} SkippedAddNothing(entries: seq<Entry>, e: Entry)
    requires !e.isFile || Hidden(e.parts) || e.content.None?
    ensures Scanned(entries + [e]) == Scanned(entries)
  {
    assert (entries + [e])[..|entries|] == entries;
  }

  /** `total_lines` of two batches is the sum of both. */
  lemma {:induction false} SumLinesAppend(a: seq<CodeFile>, b: seq<CodeFile>)
    ensures SumLines(a + b) == SumLines(a) + SumLines(b)
    decreases |b|
  {
    if b == [] {
      assert a + b == a;
    } else {
      var init := b[..|b| - 1];
      assert (a + b)[..|a + b| - 1] == a + init;
      SumLinesAppend(a, init);
    }
  }

  /** The sort key of `largest_files`; bytes order files as `size_kb` does. */
  function Size(f: CodeFile): int
  {
    f.size
  }

  function Modified(f: CodeFile): int
  {
    f.lastModified
  }

  /** `sorted(files, key=size, reverse=True)[:top_n]`. */
  function Largest(files: seq<CodeFile>, topN: int): seq<CodeFile>
  {
    Prefix(SortDesc(files, Size), topN)
  }

  /** `[f for f in files if f.is_recent]`. */
  function RecentOnes(files: seq<CodeFile>, now: int): (r: seq<CodeFile>)
    ensures forall f :: f in r <==> f in files && IsRecent(f, now)
  {
    if files == [] then []
    else (if IsRecent(files[0], now) then [files[0]] else []) + RecentOnes(files[1..], now)
  }

  /** The recent files, newest first, at most `top_n`. */
  function Recent(files: seq<CodeFile>, topN: int, now: int): seq<CodeFile>
  {
    Prefix(SortDesc(RecentOnes(files, now), Modified), topN)
  }

  /**
   * `largest_files`: at most `top_n` files (when `top_n >= 0`), largest first, drawn
   * from the scan, and no file left out is larger than one listed.
   */
  lemma LargestSpec(files: seq<CodeFile>, topN: int)
    ensures var r := Largest(files, topN);
      && (topN >= 0 ==> |r| <= topN)
      && SortedDesc(r, Size)
      && multiset(r) <= multiset(files)
      && (forall x, y :: x in multiset(files) - multiset(r) && y in r ==> x.size <= y.size)
      && (topN >= 0 ==> |r| == Min(topN, |files|))
      && (topN < 0 ==> |r| == Max(|files| + topN, 0))
  {
    var r := Largest(files, topN);
    TopN(files, Size, topN);
    TopNLength(files, Size, topN);
    forall x: CodeFile, y: CodeFile | x in multiset(files) - multiset(r) && y in r
      ensures x.size <= y.size
    {
      assert Size(x) <= Size(y);
    }
  }

  /**
   * `recent_files`: at most `top_n` files, all recent, newest first, drawn from the
   * scan, and no recent file left out is newer than one listed.
   */
  lemma RecentSpec(files: seq<CodeFile>, topN: int, now: int)
    ensures var r := Recent(files, topN, now);
      && (topN >= 0 ==> |r| <= topN)
      && SortedDesc(r, Modified)
      && (forall f :: f in r ==> f in files && IsRecent(f, now))
      && (forall x, y :: x in multiset(RecentOnes(files, now)) - multiset(r) && y in r ==>
            x.lastModified <= y.lastModified)
      && (topN >= 0 ==> |r| == Min(topN, |RecentOnes(files, now)|))
      && (topN < 0 ==> |r| == Max(|RecentOnes(files, now)| + topN, 0))
  {
    var pool := RecentOnes(files, now);
    TopN(pool, Modified, topN);
    TopNLength(pool, Modified, topN);
    var r := Recent(files, topN, now);
    forall f | f in r ensures f in files && IsRecent(f, now) {
      assert f in multiset(pool);
    }
    forall x: CodeFile, y: CodeFile | x in multiset(pool) - multiset(r) && y in r
      ensures x.lastModified <= y.lastModified
    {
      assert Modified(x) <= Modified(y);
    }
  }

  /** The `largest_files` entries of the report. */
  function LargestReport(files: seq<CodeFile>, topN: int): (r: seq<LargestFile>)
    ensures |r| == |Largest(files, topN)|
    ensures forall i :: 0 <= i < |r| ==>
      r[i] == LargestFile(Largest(files, topN)[i].parts, Largest(files, topN)[i].lines, Largest(files, topN)[i].size)
  {
    var l := Largest(files, topN);
    seq(|l|, i requires 0 <= i < |l| => LargestFile(l[i].parts, l[i].lines, l[i].size))
  }

  /** The `recent_files` paths of the report. */
  function RecentReport(files: seq<CodeFile>, topN: int, now: int): (r: seq<seq<string>>)
    ensures |r| == |Recent(files, topN, now)|
    ensures forall i :: 0 <= i < |r| ==> r[i] == Recent(files, topN, now)[i].parts
  {
    var l := Recent(files, topN, now);
    seq(|l|, i requires 0 <= i < |l| => l[i].parts)
  }

  /** The analyzer's `stats`, which accumulate over every scan. */
  class CodeAnalyzer {
    var totalFiles: nat
    var totalLines: nat

    constructor ()
      ensures totalFiles == 0 && totalLines == 0
    {
      totalFiles, totalLines := 0, 0;
    }

    /**
     * `scan` over the entries the glob produced: yields each regular, visible,
     * readable file in order and adds it and its lines to the stats.
     */
    method Scan(entries: seq<Entry>) returns (files: seq<CodeFile>)
      modifies this
      ensures files == Scanned(entries)
      ensures totalFiles == old(totalFiles) + |files|
      ensures totalLines == old(totalLines) + SumLines(files)
    {
      files := [];
      var i := 0;
      while i < |entries|
        invariant 0 <= i <= |entries|
        invariant files == Scanned(entries[..i])
        invariant totalFiles == old(totalFiles) + |files|
        invariant totalLines == old(totalLines) + SumLines(files)
      {
        var e := entries[i];
        assert entries[..i + 1][..i] == entries[..i];
        if !e.isFile {
        } else if Hidden(e.parts) {
        } else if e.content.Some? {
          var lines := LineCount(e.content.value);
          var f := CodeFile(e.parts, Language(e.parts), lines, e.lastModified, e.size);
          files := files + [f];
          totalFiles := totalFiles + 1;
          totalLines := totalLines + lines;
        }
        i := i + 1;
      }
      assert entries[..i] == entries;
    }

    /**
     * `generate_report`: scans (so the stats grow), then reports them with the
     * largest files and the recent files, each list cut to `top_n`.
     */
    method GenerateReport(entries: seq<Entry>, topN: int, now: int) returns (report: Report)
      modifies this
      ensures totalFiles == old(totalFiles) + |Scanned(entries)|
      ensures totalLines == old(totalLines) + SumLines(Scanned(entries))
      ensures report == Report(totalFiles, totalLines,
        LargestReport(Scanned(entries), topN), RecentReport(Scanned(entries), topN, now))
    {
      var files := Scan(entries);
      report := Report(totalFiles, totalLines, LargestReport(files, topN), RecentReport(files, topN, now));
    }
  }
}
