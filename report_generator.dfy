/**
 * The reporter: reads every `*_analysis.txt` file of the extraction output in
 * sorted order, keeps the first non-blank line of the first file that has one
 * as the CSV header, drops the first non-blank line of every file, keeps all
 * other non-blank lines as data rows, and writes them joined by newlines.
 */
module ReportGenerator {
  import opened Wrappers
  import opened Text
  import opened Listing

  const ANALYSIS_SUFFIX := "_analysis.txt"
  const REPORT_FILENAME := "report.txt"

  /** Index just past the first line of `s`: after its first newline, or the end of `s`. */
  function LineEnd(s: string): (k: nat)
    requires s != []
    ensures 0 < k <= |s|
    ensures forall i :: 0 <= i < k - 1 ==> s[i] != '\n'
    ensures k < |s| ==> s[k - 1] == '\n'
  {
    if s[0] == '\n' || |s| == 1 then 1 else 1 + LineEnd(s[1..])
  }

  /** `f.readlines()`: the text cut after every newline; each line keeps its own newline. */
  function ReadLines(text: string): seq<string>
    decreases |text|
  {
    if text == [] then []
    else
      var k := LineEnd(text);
      [text[..k]] + ReadLines(text[k..])
  }

  /** Reading loses nothing: the lines put back together are the text. */
  lemma {:induction false} ReadLinesConcat(text: string)
    ensures Concat(ReadLines(text)) == text
    decreases |text|
  {
    if text != [] {
      var k := LineEnd(text);
      ReadLinesConcat(text[k..]);
      ConcatCons(text[..k], ReadLines(text[k..]));
      assert text[..k] + text[k..] == text;
    }
  }

  /** A line as `readlines` yields it: not empty, with a newline at most as its last character. */
  predicate IsReadLine(l: string)
  {
    l != [] && '\n' !in l[..|l| - 1]
  }

  /** Every line read is a line, and every line but the last ends with a newline. */
  lemma {:induction false} ReadLinesShape(text: string)
    ensures forall i :: 0 <= i < |ReadLines(text)| ==> IsReadLine(ReadLines(text)[i])
    ensures forall i :: 0 <= i < |ReadLines(text)| - 1 ==> ReadLines(text)[i] != [] && ReadLines(text)[i][|ReadLines(text)[i]| - 1] == '\n'
    decreases |text|
  {
    if text != [] {
      var k := LineEnd(text);
      var rest := ReadLines(text[k..]);
      ReadLinesShape(text[k..]);
      var lines := ReadLines(text);
      assert lines == [text[..k]] + rest;
      assert text[..k][..k - 1] == text[..k - 1];
      forall i | 0 <= i < |lines|
        ensures IsReadLine(lines[i])
        ensures i < |lines| - 1 ==> lines[i][|lines[i]| - 1] == '\n'
      {
        if i > 0 {
          assert lines[i] == rest[i - 1];
        } else if i < |lines| - 1 {
          assert rest != [];
          assert k < |text|;
        }
      }
    }
  }

  /** A text without a newline is read as a single line. */
  lemma ReadLinesOneLine(text: string)
    requires text != [] && '\n' !in text
    ensures ReadLines(text) == [text]
  {
    var k := LineEnd(text);
    assert k == |text|;
    assert text[..k] == text;
  }

  /** Stripping a line that has no newline before its last character leaves no newline at all. */
  lemma StripHasNoNewline(line: string)
    requires line != [] && '\n' !in line[..|line| - 1]
    ensures '\n' !in Strip(line)
  {
    TrimIsMaximalInfix(line, IsSpace);
    var i, j :| 0 <= i <= j <= |line| && Strip(line) == line[i..j]
                && (forall k :: 0 <= k < i ==> IsSpace(line[k]))
                && (forall k :: j <= k < |line| ==> IsSpace(line[k]));
  }

  /** `[line.strip() for line in lines if line.strip()]`. */
  function StripNonBlank(lines: seq<string>): (r: seq<string>)
    ensures |r| <= |lines|
  {
    if lines == [] then []
    else
      var rest := StripNonBlank(lines[1..]);
      if Strip(lines[0]) != "" then [Strip(lines[0])] + rest else rest
  }

  /** A line with no whitespace at either end and no newline inside. */
  predicate IsCleanLine(l: string)
  {
    l != [] && !IsSpace(l[0]) && !IsSpace(l[|l| - 1]) && '\n' !in l
  }

  lemma StripClean(line: string)
    requires line != [] && '\n' !in line[..|line| - 1]
    ensures Strip(line) != "" ==> IsCleanLine(Strip(line))
  {
    TrimIsMaximalInfix(line, IsSpace);
    StripHasNoNewline(line);
  }

  /** The kept lines of lines read from a file are clean. */
  lemma {:induction false} StripNonBlankClean(lines: seq<string>)
    requires forall i :: 0 <= i < |lines| ==> IsReadLine(lines[i])
    ensures forall i :: 0 <= i < |StripNonBlank(lines)| ==> IsCleanLine(StripNonBlank(lines)[i])
    decreases |lines|
  {
    if lines != [] {
      StripClean(lines[0]);
      StripNonBlankClean(lines[1..]);
    }
  }

  /** The non-blank lines of a file's text, each stripped. */
  function KeptLines(text: string): seq<string>
  {
    StripNonBlank(ReadLines(text))
  }

  /** Every kept line is clean: stripping it again changes nothing. */
  lemma KeptLinesClean(text: string)
    ensures forall i :: 0 <= i < |KeptLines(text)| ==> IsCleanLine(KeptLines(text)[i])
  {
    ReadLinesShape(text);
    StripNonBlankClean(ReadLines(text));
  }

  lemma CleanIsStripped(l: string)
    requires IsCleanLine(l)
    ensures Strip(l) == l
  {
    TrimNoOp(l, IsSpace);
  }

  /** The kept lines of every file, in file order. */
  function KeptAll(texts: seq<string>): (files: seq<seq<string>>)
    ensures |files| == |texts|
    ensures forall i :: 0 <= i < |texts| ==> files[i] == KeptLines(texts[i])
  {
    seq(|texts|, i requires 0 <= i < |texts| => KeptLines(texts[i]))
  }

  ghost predicate WellKept(files: seq<seq<string>>)
  {
    forall i, j :: 0 <= i < |files| && 0 <= j < |files[i]| ==> IsCleanLine(files[i][j])
  }

  lemma KeptAllWellKept(texts: seq<string>)
    ensures WellKept(KeptAll(texts))
  {
    forall i | 0 <= i < |texts| {
      KeptLinesClean(texts[i]);
    }
  }

  /** The data rows a file contributes: its kept lines after the first. */
  function Tail(lines: seq<string>): seq<string>
  {
    if lines == [] then [] else lines[1..]
  }

  /** The header: line 0 of the first file that has a non-blank line. */
  function HeaderOf(files: seq<seq<string>>): Option<string>
  {
    if files == [] then None
    else if files[0] != [] then Some(files[0][0])
    else HeaderOf(files[1..])
  }

  /** The data rows of all files, file after file, each file's first line dropped. */
  function DataRows(files: seq<seq<string>>): seq<string>
  {
    if files == [] then [] else Tail(files[0]) + DataRows(files[1..])
  }

  /** A header, if there is one, followed by data rows. */
  function Lines(header: Option<string>, rows: seq<string>): seq<string>
  {
    (if header.Some? then [header.value] else []) + rows
  }

  /** The report's lines: the header, once, then the data rows. */
  function ReportLines(files: seq<seq<string>>): seq<string>
  {
    Lines(HeaderOf(files), DataRows(files))
  }

  /** The text the reporter produces for files with the given contents, in this order. */
  function ReportText(texts: seq<string>): string
  {
    Join("\n", ReportLines(KeptAll(texts)))
  }

  lemma {:induction false} HeaderSnoc(files: seq<seq<string>>, f: seq<string>)
    ensures HeaderOf(files + [f]) ==
      if HeaderOf(files).Some? then HeaderOf(files)
      else if f != [] then Some(f[0])
      else None
    decreases |files|
  {
    if files != [] {
      assert (files + [f])[0] == files[0];
      assert (files + [f])[1..] == files[1..] + [f];
      HeaderSnoc(files[1..], f);
    } else {
      assert [] + [f] == [f];
      assert [f][1..] == [];
    }
  }

  lemma {:induction false} DataRowsAppend(a: seq<seq<string>>, b: seq<seq<string>>)
    ensures DataRows(a + b) == DataRows(a) + DataRows(b)
    decreases |a|
  {
    if a == [] {
      assert a + b == b;
    } else {
      assert (a + b)[0] == a[0];
      assert (a + b)[1..] == a[1..] + b;
      DataRowsAppend(a[1..], b);
    }
  }

  /** Only a list of blank files has no header. */
  lemma {:induction false} NoHeaderIffAllBlank(files: seq<seq<string>>)
    ensures HeaderOf(files).None? <==> forall i :: 0 <= i < |files| ==> files[i] == []
    decreases |files|
  {
    if files != [] {
      NoHeaderIffAllBlank(files[1..]);
      assert forall i :: 1 <= i < |files| ==> files[i] == files[1..][i - 1];
    }
  }

  /** Blank files contribute no data rows. */
  lemma {:induction false} AllBlankNoRows(files: seq<seq<string>>)
    requires forall i :: 0 <= i < |files| ==> files[i] == []
    ensures DataRows(files) == []
    decreases |files|
  {
    if files != [] {
      AllBlankNoRows(files[1..]);
    }
  }

  /** The header is line 0 of the first file with a non-blank line, whatever blank files precede it. */
  lemma {:induction false} HeaderIsFirstNonBlank(files: seq<seq<string>>, i: nat)
    requires i < |files| && files[i] != []
    requires forall j :: 0 <= j < i ==> files[j] == []
    ensures HeaderOf(files) == Some(files[i][0])
    decreases i
  {
    if i > 0 {
      HeaderIsFirstNonBlank(files[1..], i - 1);
    }
  }

  /**
   * The data rows are those of the files before file i, then the lines of
   * file i without its first, then those of the files after it: file order and
   * line order are kept, and every file loses its first line, header or not.
   */
  lemma DataRowsAt(files: seq<seq<string>>, i: nat)
    requires i < |files|
    ensures DataRows(files) == DataRows(files[..i]) + Tail(files[i]) + DataRows(files[i + 1..])
  {
    assert files == files[..i] + files[i..];
    DataRowsAppend(files[..i], files[i..]);
    assert files[i..][1..] == files[i + 1..];
  }

  /** Σ max(0, |linesᵢ| - 1). */
  function RowCount(files: seq<seq<string>>): nat
  {
    if files == [] then 0
    else (if files[0] == [] then 0 else |files[0]| - 1) + RowCount(files[1..])
  }

  lemma {:induction false} DataRowsCount(files: seq<seq<string>>)
    ensures |DataRows(files)| == RowCount(files)
    decreases |files|
  {
    if files != [] {
      DataRowsCount(files[1..]);
    }
  }

  /**
   * When some file has a non-blank line, the report has 1 + Σ max(0, |linesᵢ| - 1)
   * lines and begins with the header; when none has, it has no line at all.
   */
  lemma ReportLineCount(files: seq<seq<string>>)
    ensures (exists i :: 0 <= i < |files| && files[i] != []) ==>
              HeaderOf(files).Some? && |ReportLines(files)| == 1 + RowCount(files)
              && ReportLines(files)[0] == HeaderOf(files).value
    ensures (forall i :: 0 <= i < |files| ==> files[i] == []) ==> ReportLines(files) == []
  {
    NoHeaderIffAllBlank(files);
    DataRowsCount(files);
    if forall i :: 0 <= i < |files| ==> files[i] == [] {
      AllBlankNoRows(files);
    }
  }

  lemma {:induction false} DataRowsFrom(files: seq<seq<string>>, k: nat)
    requires k < |DataRows(files)|
    ensures exists i, j :: 0 <= i < |files| && 0 < j < |files[i]| && DataRows(files)[k] == files[i][j]
    decreases |files|
  {
    var t := Tail(files[0]);
    if k < |t| {
      assert DataRows(files)[k] == files[0][k + 1];
    } else {
      DataRowsFrom(files[1..], k - |t|);
      var i, j :| 0 <= i < |files[1..]| && 0 < j < |files[1..][i]| && DataRows(files[1..])[k - |t|] == files[1..][i][j];
      assert DataRows(files)[k] == files[i + 1][j];
    }
  }

  lemma {:induction false} HeaderFrom(files: seq<seq<string>>)
    requires HeaderOf(files).Some?
    ensures exists i :: 0 <= i < |files| && files[i] != [] && HeaderOf(files).value == files[i][0]
    decreases |files|
  {
    if files[0] == [] {
      HeaderFrom(files[1..]);
      var i :| 0 <= i < |files[1..]| && files[1..][i] != [] && HeaderOf(files[1..]).value == files[1..][i][0];
      assert files[i + 1] == files[1..][i];
    }
  }

  /**
   * Every report line is one of the files' stripped non-blank lines, and reading
   * the report back, line by line, gives exactly the report's lines.
   */
  lemma ReportReadBack(files: seq<seq<string>>)
    requires WellKept(files)
    ensures forall k :: 0 <= k < |ReportLines(files)| ==> IsCleanLine(ReportLines(files)[k])
    ensures ReportLines(files) != [] ==> Split(Join("\n", ReportLines(files)), '\n') == ReportLines(files)
  {
    var lines := ReportLines(files);
    var off := if HeaderOf(files).Some? then 1 else 0;
    if HeaderOf(files).Some? {
      HeaderFrom(files);
    }
    forall k | 0 <= k < |lines| ensures IsCleanLine(lines[k]) {
      if k >= off {
        DataRowsFrom(files, k - off);
      }
    }
    if lines != [] {
      SplitJoin(lines, '\n');
    }
  }

  /** Files with no non-blank line merge to the empty string. */
  lemma AllBlankReport(texts: seq<string>)
    requires forall i :: 0 <= i < |texts| ==> KeptLines(texts[i]) == []
    ensures ReportText(texts) == ""
  {
    ReportLineCount(KeptAll(texts));
  }

  /** The report is empty exactly when every file is blank. */
  lemma ReportEmptyIffAllBlank(texts: seq<string>)
    ensures ReportText(texts) == "" <==> forall i :: 0 <= i < |texts| ==> KeptLines(texts[i]) == []
  {
    var files := KeptAll(texts);
    ReportLineCount(files);
    KeptAllWellKept(texts);
    ReportReadBack(files);
    var lines := ReportLines(files);
    if lines != [] {
      JoinLength("\n", lines);
      assert SumLengths(lines) >= |lines[0]| > 0 by {
        assert SumLengths(lines) == |lines[0]| + SumLengths(lines[1..]);
      }
    }
  }

  lemma {:induction false} LineEndAt(s: string, p: nat)
    requires p < |s| && s[p] == '\n'
    requires forall k :: 0 <= k < p ==> s[k] != '\n'
    ensures LineEnd(s) == p + 1
    decreases p
  {
    if p > 0 {
      LineEndAt(s[1..], p - 1);
    }
  }

  lemma StripWithNewline(h: string)
    requires IsCleanLine(h)
    ensures Strip(h + "\n") == h
  {
    var t := h + "\n";
    assert t[0] == h[0];
    assert TrimStart(t, IsSpace) == t;
    assert t[..|t| - 1] == h;
    CleanIsStripped(h);
  }

  lemma ReadHeaderAndRow(h: string, r: string)
    requires IsCleanLine(h) && IsCleanLine(r)
    ensures ReadLines(h + "\n" + r) == [h + "\n", r]
  {
    var text := h + "\n" + r;
    assert forall k :: 0 <= k < |h| ==> text[k] == h[k];
    LineEndAt(text, |h|);
    var k := |h| + 1;
    assert text[..k] == h + "\n";
    assert text[k..] == r;
    ReadLinesOneLine(r);
    assert ReadLines(text) == [text[..k]] + ReadLines(text[k..]);
  }

  lemma KeptHeaderAndRow(h: string, r: string)
    requires IsCleanLine(h) && IsCleanLine(r)
    ensures KeptLines(h + "\n" + r) == [h, r]
  {
    ReadHeaderAndRow(h, r);
    StripWithNewline(h);
    CleanIsStripped(r);
    var lines := [h + "\n", r];
    assert lines[1..] == [r];
    assert StripNonBlank([r]) == [r] + StripNonBlank([]);
    assert StripNonBlank(lines) == [h] + StripNonBlank([r]);
  }

  /**
   * Two files that share a header line: the report holds the header once, then
   * the first file's row, then the second's ("H", "row1", "row2" is one instance).
   */
  lemma TwoFileExample(h: string, r1: string, r2: string)
    requires IsCleanLine(h) && IsCleanLine(r1) && IsCleanLine(r2)
    ensures ReportText([h + "\n" + r1, h + "\n" + r2]) == h + "\n" + r1 + "\n" + r2
  {
    KeptHeaderAndRow(h, r1);
    KeptHeaderAndRow(h, r2);
    var texts := [h + "\n" + r1, h + "\n" + r2];
    var files := KeptAll(texts);
    assert files == [[h, r1], [h, r2]];
    assert files[1..] == [[h, r2]];
    assert HeaderOf(files) == Some(h);
    assert DataRows([[h, r2]]) == [r2] + DataRows([]);
    assert DataRows(files) == [r1] + DataRows([[h, r2]]);
    assert ReportLines(files) == [h, r1, r2];
    assert [h, r1, r2][1..] == [r1, r2];
    assert [r1, r2][1..] == [r2];
    assert Join("\n", [r1, r2]) == r1 + "\n" + r2;
    assert Join("\n", [h, r1, r2]) == h + "\n" + (r1 + "\n" + r2);
  }

  /** Without a header there are no data rows either. */
  lemma {:induction false} NoHeaderNoRows(files: seq<seq<string>>)
    requires HeaderOf(files).None?
    ensures DataRows(files) == []
    decreases |files|
  {
    if files != [] {
      NoHeaderNoRows(files[1..]);
    }
  }

  /** The lines after one more file, in terms of the header and rows before and after it. */
  lemma LinesSnoc(h: Option<string>, rows: seq<string>, h': Option<string>, rows': seq<string>, f: seq<string>)
    requires h' == if h.Some? then h else if f != [] then Some(f[0]) else None
    requires rows' == rows + Tail(f)
    requires h.None? ==> rows == []
    ensures Lines(h', rows') == Lines(h, rows) + (if h.None? && f != [] then [f[0]] else []) + Tail(f)
  {
    if h.None? {
      assert Lines(h, rows) == [];
    }
  }

  /** One more file adds its first line if no header was found before, then its data rows. */
  lemma ReportLinesSnoc(files: seq<seq<string>>, f: seq<string>)
    ensures ReportLines(files + [f]) ==
      ReportLines(files) + (if HeaderOf(files).None? && f != [] then [f[0]] else []) + Tail(f)
  {
    HeaderSnoc(files, f);
    DataRowsAppend(files, [f]);
    assert [f][1..] == [];
    assert DataRows([f]) == Tail(f);
    if HeaderOf(files).None? {
      NoHeaderNoRows(files);
    }
    LinesSnoc(HeaderOf(files), DataRows(files), HeaderOf(files + [f]), DataRows(files + [f]), f);
  }

  /** `merge_analysis_files`: None for an empty file list, the joined report lines otherwise. */
  method MergeAnalysisFiles(texts: seq<string>) returns (merged: Option<string>)
    ensures texts == [] ==> merged == None
    ensures texts != [] ==> merged == Some(ReportText(texts))
  {
    if texts == [] {
      return None;
    }
    ghost var files := KeptAll(texts);
    var allLines: seq<string> := [];
    var header: Option<string> := None;
    for i := 0 to |texts|
      invariant header == HeaderOf(files[..i])
      invariant allLines == ReportLines(files[..i])
    {
      var lines := KeptLines(texts[i]);
      MergeStep(files, i, lines, header, allLines);
      if header.None? && lines != [] {
        header := Some(lines[0]);
        allLines := allLines + [header.value];
      }
      var dataRows := if lines != [] then lines[1..] else [];
      allLines := allLines + dataRows;
    }
    assert files[..|texts|] == files;
    return Some(Join("\n", allLines));
  }

  lemma MergeStep(files: seq<seq<string>>, i: nat, lines: seq<string>, header: Option<string>, allLines: seq<string>)
    requires i < |files| && files[i] == lines
    requires header == HeaderOf(files[..i]) && allLines == ReportLines(files[..i])
    ensures HeaderOf(files[..i + 1]) == if header.None? && lines != [] then Some(lines[0]) else header
    ensures ReportLines(files[..i + 1]) ==
      (if header.None? && lines != [] then allLines + [lines[0]] else allLines)
      + (if lines != [] then lines[1..] else [])
  {
    assert files[..i + 1] == files[..i] + [lines];
    HeaderSnoc(files[..i], lines);
    ReportLinesSnoc(files[..i], lines);
  }

  predicate IsAnalysisName(name: string)
  {
    EndsWith(name, ANALYSIS_SUFFIX)
  }

  /** The analysis files of a directory, sorted by name. */
  ghost function AnalysisFiles(dir: map<string, string>): seq<string>
  {
    SortedSet(set f | f in dir && IsAnalysisName(f))
  }

  /** `read_analyzed_files`: the names matching `*_analysis.txt`, sorted. */
  method ReadAnalyzedFiles(dir: map<string, string>) returns (files: seq<string>)
    ensures files == AnalysisFiles(dir)
    ensures Sorted(files) && Distinct(files)
    ensures forall x :: x in files <==> x in dir && EndsWith(x, ANALYSIS_SUFFIX)
  {
    files := SortedNames(dir, IsAnalysisName);
    SortedSetUnique(files, set f | f in dir && IsAnalysisName(f));
  }

  /** `save_report`: an empty report is not written; any other is written to the report file. */
  method SaveReport(content: string, reports: map<string, string>) returns (saved: bool, written: map<string, string>)
    ensures saved <==> content != ""
    ensures saved ==> written == reports[REPORT_FILENAME := content]
    ensures !saved ==> written == reports
  {
    if content == "" {
      return false, reports;
    }
    return true, reports[REPORT_FILENAME := content];
  }

  /** The report the reporter derives from a directory of analysis files. */
  ghost function Report(dir: map<string, string>): string
  {
    ReportText(Contents(dir, AnalysisFiles(dir)))
  }

  /**
   * The reporter's `main`: the report file is written, with the merged report,
   * exactly when the merged report is not empty; otherwise nothing changes.
   */
  method GenerateReport(analyzed: map<string, string>, reports: map<string, string>) returns (written: map<string, string>)
    ensures Report(analyzed) != "" ==> written == reports[REPORT_FILENAME := Report(analyzed)]
    ensures Report(analyzed) == "" ==> written == reports
  {
    var files := ReadAnalyzedFiles(analyzed);
    if files == [] {
      assert Report(analyzed) == Join("\n", ReportLines([]));
      return reports;
    }
    var texts := Contents(analyzed, files);
    var merged := MergeAnalysisFiles(texts);
    if merged.value != "" {
      var _, w := SaveReport(merged.value, reports);
      written := w;
    } else {
      written := reports;
    }
  }

  /** The report is written exactly when some analysis file has a non-blank line. */
  lemma ReportWrittenIffSomeNonBlank(dir: map<string, string>)
    ensures Report(dir) != "" <==> exists f :: f in dir && IsAnalysisName(f) && KeptLines(dir[f]) != []
  {
    var files := AnalysisFiles(dir);
    var texts := Contents(dir, files);
    ReportEmptyIffAllBlank(texts);
    if f :| f in dir && IsAnalysisName(f) && KeptLines(dir[f]) != [] {
      assert f in (set g | g in dir && IsAnalysisName(g));
      assert f in files;
      var i :| 0 <= i < |files| && files[i] == f;
      assert KeptLines(texts[i]) != [];
    }
    if i :| 0 <= i < |texts| && KeptLines(texts[i]) != [] {
      var f := files[i];
      assert f in files;
      assert f in (set g | g in dir && IsAnalysisName(g));
      assert dir[f] == texts[i];
    }
  }
}
