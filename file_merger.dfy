/**
 * The page-bundle merger: for every `page_*` directory of the scraped
 * contents, in sorted order, the sorted `.txt` files are concatenated with a
 * fixed separator between consecutive files into `<page>.txt` of the output
 * directory. A page directory without `.txt` files produces nothing.
 */
module FileMerger {
  import opened Text
  import opened Listing

  const PAGE_PREFIX := "page_"
  const TEXT_SUFFIX := ".txt"
  const SEPARATOR := "\n\n----------\n\n"

  /** An entry of the source directory: a plain file, or a page directory of files. */
  datatype Entry = File(content: string) | Dir(files: map<string, string>)

  predicate IsPageName(d: string)
  {
    StartsWith(d, PAGE_PREFIX)
  }

  predicate IsTextName(f: string)
  {
    EndsWith(f, TEXT_SUFFIX)
  }

  /** The source entries whose names start with `page_`, sorted; plain files among them are skipped later. */
  ghost function PageNames(source: map<string, Entry>): (r: seq<string>)
    ensures Sorted(r) && Distinct(r)
    ensures forall d :: d in r <==> d in source && IsPageName(d)
  {
    SortedSet(set d | d in source && IsPageName(d))
  }

  /** The `.txt` files of a page directory, sorted; other files are ignored. */
  ghost function TextFiles(files: map<string, string>): (r: seq<string>)
    ensures Sorted(r) && Distinct(r)
    ensures forall f :: f in r <==> f in files && IsTextName(f)
  {
    SortedSet(set f | f in files && IsTextName(f))
  }

  /** The merged bundle of one page directory. */
  ghost function Merged(files: map<string, string>): string
  {
    Join(SEPARATOR, Contents(files, TextFiles(files)))
  }

  /** The output file of page directory `d`. */
  function OutputName(d: string): (r: string)
    ensures StartsWith(r, d) && EndsWith(r, TEXT_SUFFIX) && |r| == |d| + |TEXT_SUFFIX|
  {
    d + TEXT_SUFFIX
  }

  /** Distinct page directories never share an output file. */
  lemma OutputNameInjective(d1: string, d2: string)
    requires OutputName(d1) == OutputName(d2)
    ensures d1 == d2
  {
    assert |d1| == |d2|;
    assert d1 == OutputName(d1)[..|d1|];
  }

  /** A page that yields a bundle: an existing directory holding at least one `.txt` file. */
  ghost predicate Produces(source: map<string, Entry>, d: string)
  {
    d in source && source[d].Dir? && TextFiles(source[d].files) != []
  }

  /** The output directory after the pages `pages` have been handled in order. */
  ghost function Outputs(source: map<string, Entry>, out: map<string, string>, pages: seq<string>): map<string, string>
    requires forall d :: d in pages ==> d in source
  {
    if pages == [] then out
    else
      var prev := Outputs(source, out, pages[..|pages| - 1]);
      var d := pages[|pages| - 1];
      if Produces(source, d) then prev[OutputName(d) := Merged(source[d].files)] else prev
  }

  /** The output directory after a whole run. */
  ghost function MergeAll(source: map<string, Entry>, out: map<string, string>): map<string, string>
  {
    Outputs(source, out, PageNames(source))
  }

  /**
   * Writing one bundle: the file contents in the given order, with the
   * separator written after every file but the last.
   */
  method WriteBundle(files: map<string, string>, txt: seq<string>) returns (content: string)
    requires forall f :: f in txt ==> f in files
    ensures content == Join(SEPARATOR, Contents(files, txt))
  {
    content := "";
    for i := 0 to |txt|
      invariant i == 0 ==> content == ""
      invariant 0 < i ==> content == Join(SEPARATOR, Contents(files, txt[..i])) + (if i < |txt| then SEPARATOR else "")
    {
      BundleStep(files, txt, i);
      content := content + files[txt[i]];
      if i < |txt| - 1 {
        content := content + SEPARATOR;
      }
    }
    assert txt[..|txt|] == txt;
  }

  lemma BundleStep(files: map<string, string>, txt: seq<string>, i: nat)
    requires forall f :: f in txt ==> f in files
    requires i < |txt|
    ensures Contents(files, txt[..i + 1]) == Contents(files, txt[..i]) + [files[txt[i]]]
    ensures 0 < i ==> Join(SEPARATOR, Contents(files, txt[..i + 1])) == Join(SEPARATOR, Contents(files, txt[..i])) + SEPARATOR + files[txt[i]]
    ensures i == 0 ==> Join(SEPARATOR, Contents(files, txt[..i + 1])) == files[txt[i]]
  {
    assert txt[..i + 1][..i] == txt[..i];
    if 0 < i {
      JoinSnoc(SEPARATOR, Contents(files, txt[..i]), files[txt[i]]);
    }
  }

  /** `merge_text_files`: every page directory, in sorted order, merged into the output directory. */
  method MergeTextFiles(source: map<string, Entry>, out: map<string, string>) returns (written: map<string, string>)
    ensures written == MergeAll(source, out)
  {
    var pages := SortedNames(source, IsPageName);
    SortedSetUnique(pages, set d | d in source && IsPageName(d));
    written := out;
    for i := 0 to |pages|
      invariant written == Outputs(source, out, pages[..i])
    {
      PageStep(source, out, pages, i);
      var d := pages[i];
      if source[d].Dir? {
        var files := source[d].files;
        var txt := SortedNames(files, IsTextName);
        SortedSetUnique(txt, set f | f in files && IsTextName(f));
        if txt != [] {
          var content := WriteBundle(files, txt);
          written := written[OutputName(d) := content];
        }
      }
    }
    assert pages[..|pages|] == pages;
  }

  lemma PageStep(source: map<string, Entry>, out: map<string, string>, pages: seq<string>, i: nat)
    requires forall d :: d in pages ==> d in source
    requires i < |pages|
    ensures Produces(source, pages[i]) ==>
              Outputs(source, out, pages[..i + 1]) == Outputs(source, out, pages[..i])[OutputName(pages[i]) := Merged(source[pages[i]].files)]
    ensures !Produces(source, pages[i]) ==> Outputs(source, out, pages[..i + 1]) == Outputs(source, out, pages[..i])
  {
    assert pages[..i + 1][..i] == pages[..i];
  }

  /** The output directory after handling `pages`, key by key. */
  lemma {:induction false} OutputsSpec(source: map<string, Entry>, out: map<string, string>, pages: seq<string>)
    requires forall d :: d in pages ==> d in source
    requires Distinct(pages)
    ensures forall d :: d in pages && Produces(source, d) ==>
              OutputName(d) in Outputs(source, out, pages) && Outputs(source, out, pages)[OutputName(d)] == Merged(source[d].files)
    ensures forall k :: k in Outputs(source, out, pages) <==>
              k in out || exists d :: d in pages && Produces(source, d) && k == OutputName(d)
    ensures forall k :: k in out && !(exists d :: d in pages && Produces(source, d) && k == OutputName(d)) ==>
              Outputs(source, out, pages)[k] == out[k]
    decreases |pages|
  {
    if pages != [] {
      var init := pages[..|pages| - 1];
      var last := pages[|pages| - 1];
      assert forall d :: d in pages <==> d in init || d == last;
      assert last !in init;
      OutputsSpec(source, out, init);
      forall d | d in init && Produces(source, d)
        ensures OutputName(d) != OutputName(last)
      {
        if OutputName(d) == OutputName(last) {
          OutputNameInjective(d, last);
        }
      }
    }
  }

  /**
   * A run of the merger: each page directory that holds `.txt` files gets its
   * bundle under `<page>.txt`, whether or not earlier pages produced anything;
   * no other output file is created and every other existing one is kept.
   */
  lemma MergeAllSpec(source: map<string, Entry>, out: map<string, string>)
    ensures forall d :: IsPageName(d) && Produces(source, d) ==>
              OutputName(d) in MergeAll(source, out) && MergeAll(source, out)[OutputName(d)] == Merged(source[d].files)
    ensures forall k :: k in MergeAll(source, out) <==>
              k in out || exists d :: IsPageName(d) && Produces(source, d) && k == OutputName(d)
    ensures forall k :: k in out && !(exists d :: IsPageName(d) && Produces(source, d) && k == OutputName(d)) ==>
              MergeAll(source, out)[k] == out[k]
  {
    var pages := PageNames(source);
    OutputsSpec(source, out, pages);
    assert forall d :: d in pages <==> d in source && IsPageName(d);
  }

  /**
   * A bundle of n files is their contents plus exactly n - 1 separators; it
   * starts with the first file in sorted order and ends with the last, so no
   * separator trails.
   */
  lemma BundleShape(files: map<string, string>)
    requires TextFiles(files) != []
    ensures var parts := Contents(files, TextFiles(files));
            |Merged(files)| == SumLengths(parts) + (|parts| - 1) * |SEPARATOR|
            && StartsWith(Merged(files), files[TextFiles(files)[0]])
            && EndsWith(Merged(files), files[TextFiles(files)[|TextFiles(files)| - 1]])
  {
    var parts := Contents(files, TextFiles(files));
    JoinLength(SEPARATOR, parts);
    JoinEnds(SEPARATOR, parts);
  }

  /** A page with exactly one `.txt` file yields a bundle equal to that file's text as read. */
  lemma SingleFileBundle(files: map<string, string>, f: string)
    requires f in files && IsTextName(f)
    requires forall g :: g in files && IsTextName(g) ==> g == f
    ensures Merged(files) == files[f]
  {
    var txt := TextFiles(files);
    assert f in txt;
    forall i | 0 <= i < |txt|
      ensures txt[i] == f
    {
      assert txt[i] in txt;
    }
    assert txt[0] == f && f !in txt[1..];
    assert txt == [f] + txt[1..];
  }

  /**
   * Two `.txt` files, `f` sorting before `g`: the bundle is `f`'s text, the
   * separator, then `g`'s text (`a.txt` = "Alpha" and `b.txt` = "Beta" give
   * "Alpha\n\n----------\n\nBeta").
   */
  lemma TwoFileBundle(files: map<string, string>, f: string, g: string)
    requires f in files && g in files && IsTextName(f) && IsTextName(g)
    requires f != g && LexLe(f, g)
    requires forall h :: h in files && IsTextName(h) ==> h == f || h == g
    ensures Merged(files) == files[f] + SEPARATOR + files[g]
  {
    SortedSetUnique([f, g], set h | h in files && IsTextName(h));
    assert TextFiles(files) == [f, g];
    assert Contents(files, [f, g]) == [files[f], files[g]];
    var parts := [files[f], files[g]];
    assert parts[1..] == [files[g]];
    assert Join(SEPARATOR, parts) == files[f] + SEPARATOR + Join(SEPARATOR, [files[g]]);
  }
}
