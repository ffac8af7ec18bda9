/**
 * The extraction stage: every merged `.txt` page bundle, in sorted order, is
 * sent to a language model behind a fixed prompt prefix; the reply is cleaned
 * of escaped newlines and surrounding double quotes and, when something is
 * left, stored as `<name>_analysis.txt`. The model call is a parameter.
 */
module ContentAnalyzer {
  import opened Wrappers
  import opened Text
  import opened Listing
  import FileMerger

  const USER_PREFIX := "Here is the funding news article to analyze:\n\n"
  /** The merged bundles are the `.txt` files the merger writes. */
  const TEXT_SUFFIX := FileMerger.TEXT_SUFFIX
  const ANALYSIS_SUFFIX := "_analysis.txt"
  /** The two characters backslash and `n`, as a model may emit them instead of a line break. */
  const ESCAPED_NEWLINE := "\\n"

  predicate IsQuote(c: char)
  {
    c == '"'
  }

  /** The user turn sent for one bundle: the fixed prefix, then the bundle's text as read. */
  function UserMessage(content: string): (r: string)
    ensures StartsWith(r, USER_PREFIX) && r[|USER_PREFIX|..] == content
  {
    USER_PREFIX + content
  }

  /** `response.replace('\\n', '\n')`: every escaped newline becomes a real line break. */
  function Unescape(raw: string): string
  {
    ReplaceAll(raw, ESCAPED_NEWLINE, "\n")
  }

  /** `response.replace('\\n', '\n').strip('"')`. */
  function CleanResponse(raw: string): string
  {
    Trim(Unescape(raw), IsQuote)
  }

  /** No backslash is directly followed by `n`. */
  predicate NoEscapedNewline(s: string)
  {
    forall k :: 0 <= k < |s| - 1 ==> !(s[k] == '\\' && s[k + 1] == 'n')
  }

  /** The first character of a replacement result: a line break where an escape started, else the input's own. */
  lemma UnescapeHead(s: string)
    requires s != []
    ensures ReplaceAll(s, ESCAPED_NEWLINE, "\n") != []
    ensures ReplaceAll(s, ESCAPED_NEWLINE, "\n")[0] == if StartsWith(s, ESCAPED_NEWLINE) then '\n' else s[0]
  {
  }

  /** Replacing every escaped newline leaves none behind, not even one formed across a replacement. */
  lemma {:induction false} UnescapeRemovesAll(s: string)
    ensures NoEscapedNewline(ReplaceAll(s, ESCAPED_NEWLINE, "\n"))
    decreases |s|
  {
    var r := ReplaceAll(s, ESCAPED_NEWLINE, "\n");
    if |s| < 2 {
    } else if s[..2] == ESCAPED_NEWLINE {
      UnescapeRemovesAll(s[2..]);
      assert r == "\n" + ReplaceAll(s[2..], ESCAPED_NEWLINE, "\n");
    } else {
      var rest := ReplaceAll(s[1..], ESCAPED_NEWLINE, "\n");
      UnescapeRemovesAll(s[1..]);
      UnescapeHead(s[1..]);
      assert r == [s[0]] + rest;
      assert s[0] == '\\' ==> s[1] != 'n';
      forall k | 0 <= k < |r| - 1
        ensures !(r[k] == '\\' && r[k + 1] == 'n')
      {
        if k > 0 {
          assert r[k] == rest[k - 1] && r[k + 1] == rest[k];
        }
      }
    }
  }

  lemma NoEscapedNewlineInfix(s: string, i: int, j: int)
    requires NoEscapedNewline(s)
    requires 0 <= i <= j <= |s|
    ensures NoEscapedNewline(s[i..j])
  {
    var t := s[i..j];
    forall k | 0 <= k < |t| - 1
      ensures !(t[k] == '\\' && t[k + 1] == 'n')
    {
      assert t[k] == s[i + k] && t[k + 1] == s[i + k + 1];
    }
  }

  /** The cleaned reply never contains a backslash followed by `n`. */
  lemma CleanHasNoEscapedNewline(raw: string)
    ensures !Contains(CleanResponse(raw), ESCAPED_NEWLINE)
  {
    var u := Unescape(raw);
    var c := CleanResponse(raw);
    UnescapeRemovesAll(raw);
    TrimIsMaximalInfix(u, IsQuote);
    var i, j :| 0 <= i <= j <= |u| && c == u[i..j];
    NoEscapedNewlineInfix(u, i, j);
    NoEscapedNewlineNotContains(c);
  }

  lemma NoEscapedNewlineNotContains(s: string)
    requires NoEscapedNewline(s)
    ensures !Contains(s, ESCAPED_NEWLINE)
  {
    forall k
      ensures !OccursAt(s, ESCAPED_NEWLINE, k)
    {
      if 0 <= k && k + 2 <= |s| {
        assert s[k..k + 2] == [s[k], s[k + 1]];
      }
    }
  }

  /**
   * The cleaned reply is the unescaped reply with every leading and every
   * trailing double quote removed: a contiguous infix, so inner quotes stay,
   * and it neither starts nor ends with a quote.
   */
  lemma CleanIsQuoteStrippedInfix(raw: string)
    ensures exists i, j :: 0 <= i <= j <= |Unescape(raw)| && CleanResponse(raw) == Unescape(raw)[i..j]
                           && (forall k :: 0 <= k < i ==> Unescape(raw)[k] == '"')
                           && (forall k :: j <= k < |Unescape(raw)| ==> Unescape(raw)[k] == '"')
    ensures CleanResponse(raw) != [] ==> CleanResponse(raw)[0] != '"' && CleanResponse(raw)[|CleanResponse(raw)| - 1] != '"'
  {
    TrimIsMaximalInfix(Unescape(raw), IsQuote);
  }

  /** The reply cleans to nothing exactly when, once unescaped, it is made of double quotes only. */
  lemma CleanEmptyIffOnlyQuotes(raw: string)
    ensures CleanResponse(raw) == "" <==> forall k :: 0 <= k < |Unescape(raw)| ==> Unescape(raw)[k] == '"'
  {
    TrimEmpty(Unescape(raw), IsQuote);
  }

  /** Cleaning a cleaned reply changes nothing more. */
  lemma CleanIdempotent(raw: string)
    ensures Trim(CleanResponse(raw), IsQuote) == CleanResponse(raw)
  {
    TrimIdempotent(Unescape(raw), IsQuote);
  }

  /**
   * `analyze_content`: the model is asked with the user message; a failed
   * call gives no analysis, a reply gives its cleaned text.
   */
  function AnalyzeContent(content: string, complete: string -> Option<string>): (r: Option<string>)
    ensures complete(UserMessage(content)).None? <==> r.None?
    ensures r.Some? ==> r.value == CleanResponse(complete(UserMessage(content)).value)
  {
    match complete(UserMessage(content))
    case None => None
    case Some(raw) => Some(CleanResponse(raw))
  }

  /** `file.replace('.txt', '_analysis.txt')`: every occurrence is rewritten, not only the suffix. */
  function OutputName(f: string): string
  {
    ReplaceAll(f, TEXT_SUFFIX, ANALYSIS_SUFFIX)
  }

  /** A prefix that cannot start an occurrence passes through `replace` unchanged. */
  lemma {:induction false} ReplaceSkipsPrefix(a: string, t: string, pat: string, rep: string)
    requires pat != [] && pat[0] !in a
    ensures ReplaceAll(a + t, pat, rep) == a + ReplaceAll(t, pat, rep)
    decreases |a|
  {
    if a == [] {
      assert a + t == t;
    } else {
      assert (a + t)[1..] == a[1..] + t;
      ReplaceSkipsPrefix(a[1..], t, pat, rep);
      if |a + t| < |pat| {
        assert ReplaceAll(t, pat, rep) == t;
      } else {
        assert (a + t)[..|pat|][0] == a[0] != pat[0];
        assert ReplaceAll(a + t, pat, rep) == [a[0]] + ReplaceAll(a[1..] + t, pat, rep);
        assert a == [a[0]] + a[1..];
      }
    }
  }

  /**
   * A name `stem.txt...` with no dot in its stem maps to `stem_analysis.txt...`:
   * the first `.txt` is rewritten and so is every later one.
   */
  lemma OutputNameAfterStem(stem: string, rest: string)
    requires '.' !in stem
    ensures OutputName(stem + TEXT_SUFFIX + rest) == stem + ANALYSIS_SUFFIX + OutputName(rest)
  {
    assert TEXT_SUFFIX[0] == '.';
    ReplaceSkipsPrefix(stem, TEXT_SUFFIX + rest, TEXT_SUFFIX, ANALYSIS_SUFFIX);
    assert (TEXT_SUFFIX + rest)[..|TEXT_SUFFIX|] == TEXT_SUFFIX;
    assert (TEXT_SUFFIX + rest)[|TEXT_SUFFIX|..] == rest;
    assert OutputName(TEXT_SUFFIX + rest) == ANALYSIS_SUFFIX + OutputName(rest);
    assert stem + TEXT_SUFFIX + rest == stem + (TEXT_SUFFIX + rest);
  }

  /** The bundle `page_N.txt` is analysed into `page_N_analysis.txt`. */
  lemma PageOutputName(n: nat)
    ensures OutputName("page_" + NatToString(n) + TEXT_SUFFIX) == "page_" + NatToString(n) + ANALYSIS_SUFFIX
  {
    var stem := "page_" + NatToString(n);
    assert '.' !in stem by {
      assert forall k :: 0 <= k < |stem| ==> stem[k] == '_' || ('a' <= stem[k] <= 'z') || IsDigit(stem[k]);
    }
    OutputNameAfterStem(stem, "");
    assert stem + TEXT_SUFFIX + "" == stem + TEXT_SUFFIX;
  }

  /** A doubled suffix is rewritten twice. */
  lemma DoubleSuffixOutputName(stem: string)
    requires '.' !in stem
    ensures OutputName(stem + ".txt.txt") == stem + "_analysis.txt_analysis.txt"
  {
    OutputNameAfterStem(stem, TEXT_SUFFIX);
    assert stem + ".txt.txt" == stem + TEXT_SUFFIX + TEXT_SUFFIX;
    OutputNameAfterStem("", "");
    assert "" + TEXT_SUFFIX + "" == TEXT_SUFFIX;
  }

  /** The bundles the stage reads: the `.txt` names of the input directory, sorted. */
  ghost function InputFiles(input: map<string, string>): seq<string>
  {
    FileMerger.TextFiles(input)
  }

  /** A bundle whose analysis is stored: the call succeeded and the cleaned reply is not empty. */
  ghost predicate Writes(input: map<string, string>, complete: string -> Option<string>, f: string)
  {
    f in input && FileMerger.IsTextName(f)
    && var a := AnalyzeContent(input[f], complete); a.Some? && a.value != ""
  }

  /** The output directory after the bundles `files` have been handled in order. */
  ghost function Analyses(input: map<string, string>, complete: string -> Option<string>, out: map<string, string>, files: seq<string>): map<string, string>
    requires forall f :: f in files ==> f in input && FileMerger.IsTextName(f)
  {
    if files == [] then out
    else
      Record(input, complete, Analyses(input, complete, out, files[..|files| - 1]), files[|files| - 1])
  }

  /** The output directory after handling bundle `f`: its analysis stored if there is one worth storing. */
  ghost function Record(input: map<string, string>, complete: string -> Option<string>, prev: map<string, string>, f: string): map<string, string>
    requires f in input
  {
    if Writes(input, complete, f) then prev[OutputName(f) := AnalyzeContent(input[f], complete).value] else prev
  }

  lemma FileStep(input: map<string, string>, complete: string -> Option<string>, out: map<string, string>, files: seq<string>, i: nat)
    requires forall f :: f in files ==> f in input && FileMerger.IsTextName(f)
    requires i < |files|
    ensures Analyses(input, complete, out, files[..i + 1]) == Record(input, complete, Analyses(input, complete, out, files[..i]), files[i])
  {
    var p := files[..i + 1];
    assert p[..|p| - 1] == files[..i];
    assert p[|p| - 1] == files[i];
  }

  /** `process_files`: every bundle in sorted order; an analysis is stored only when it is non-empty. */
  method ProcessFiles(input: map<string, string>, complete: string -> Option<string>, out: map<string, string>)
    returns (written: map<string, string>)
    ensures written == Analyses(input, complete, out, InputFiles(input))
  {
    var files := SortedNames(input, FileMerger.IsTextName);
    SortedSetUnique(files, set f | f in input && FileMerger.IsTextName(f));
    written := out;
    for i := 0 to |files|
      invariant written == Analyses(input, complete, out, files[..i])
    {
      FileStep(input, complete, out, files, i);
      var file := files[i];
      var analysis := AnalyzeContent(input[file], complete);
      if analysis.Some? && analysis.value != "" {
        written := written[OutputName(file) := analysis.value];
      }
    }
    assert files[..|files|] == files;
  }

  /** Handling `files` adds exactly the output names of the bundles whose analysis is stored. */
  lemma {:induction false} AnalysesKeys(input: map<string, string>, complete: string -> Option<string>, out: map<string, string>, files: seq<string>)
    requires forall f :: f in files ==> f in input && FileMerger.IsTextName(f)
    ensures forall k :: k in Analyses(input, complete, out, files) <==>
              k in out || exists f :: f in files && Writes(input, complete, f) && k == OutputName(f)
    decreases |files|
  {
    if files != [] {
      var init := files[..|files| - 1];
      assert forall f :: f in files <==> f in init || f == files[|files| - 1];
      AnalysesKeys(input, complete, out, init);
    }
  }

  /** Every stored value is an old one or the analysis of a bundle whose output name it sits under. */
  lemma {:induction false} AnalysesValues(input: map<string, string>, complete: string -> Option<string>, out: map<string, string>, files: seq<string>)
    requires forall f :: f in files ==> f in input && FileMerger.IsTextName(f)
    ensures var w := Analyses(input, complete, out, files);
            forall k :: k in w ==>
              (k in out && w[k] == out[k])
              || exists f :: f in files && Writes(input, complete, f) && k == OutputName(f)
                             && w[k] == AnalyzeContent(input[f], complete).value
    decreases |files|
  {
    if files != [] {
      var init := files[..|files| - 1];
      var last := files[|files| - 1];
      assert forall f :: f in init ==> f in files;
      AnalysesValues(input, complete, out, init);
    }
  }

  /** A name no stored analysis maps to keeps its old content. */
  lemma {:induction false} AnalysesKeep(input: map<string, string>, complete: string -> Option<string>, out: map<string, string>, files: seq<string>, k: string)
    requires forall f :: f in files ==> f in input && FileMerger.IsTextName(f)
    requires k in out
    requires forall f :: f in files && Writes(input, complete, f) ==> k != OutputName(f)
    ensures k in Analyses(input, complete, out, files) && Analyses(input, complete, out, files)[k] == out[k]
    decreases |files|
  {
    if files != [] {
      var init := files[..|files| - 1];
      assert forall f :: f in init ==> f in files;
      AnalysesKeep(input, complete, out, init, k);
    }
  }

  /**
   * A run of the stage: exactly the bundles whose analysis is non-empty leave
   * an output; a failed call or an empty reply writes nothing and the run goes
   * on with the next bundle.
   */
  lemma ProcessFilesSpec(input: map<string, string>, complete: string -> Option<string>, out: map<string, string>)
    ensures var w := Analyses(input, complete, out, InputFiles(input));
            (forall k :: k in w <==> k in out || exists f :: Writes(input, complete, f) && k == OutputName(f))
            && (forall k :: k in w ==>
                  (k in out && w[k] == out[k])
                  || exists f :: Writes(input, complete, f) && k == OutputName(f) && w[k] == AnalyzeContent(input[f], complete).value)
            && (forall k :: k in out && !(exists f :: Writes(input, complete, f) && k == OutputName(f)) ==> w[k] == out[k])
  {
    var files := InputFiles(input);
    assert forall f :: Writes(input, complete, f) <==> f in files && Writes(input, complete, f);
    AnalysesKeys(input, complete, out, files);
    AnalysesValues(input, complete, out, files);
    forall k | k in out && !(exists f :: Writes(input, complete, f) && k == OutputName(f))
      ensures Analyses(input, complete, out, files)[k] == out[k]
    {
      AnalysesKeep(input, complete, out, files, k);
    }
  }

  /** When every call fails or every reply cleans to nothing, the output directory is left as it was. */
  lemma NothingWrittenWithoutAnalysis(input: map<string, string>, complete: string -> Option<string>, out: map<string, string>)
    requires forall f :: f in input && FileMerger.IsTextName(f) ==>
               complete(UserMessage(input[f])).None? || CleanResponse(complete(UserMessage(input[f])).value) == ""
    ensures Analyses(input, complete, out, InputFiles(input)) == out
  {
    var w := Analyses(input, complete, out, InputFiles(input));
    ProcessFilesSpec(input, complete, out);
    assert forall f :: !Writes(input, complete, f);
    assert w.Keys == out.Keys;
  }
}
