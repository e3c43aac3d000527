/**
 * `process_pdf` and the directory loop of the PDF ingester's `main`. Page
 * texts, the per-file read and the clock are inputs: a file that cannot be
 * read is `None`, and `clock(name)` is the timestamp taken while processing it.
 */
module PdfIngest {
  import opened Wrappers
  import opened PdfText

  /** `"\n\n".join(parts)`. */
  function Join(parts: seq<string>): string
    decreases |parts|
  {
    if parts == [] then ""
    else if |parts| == 1 then parts[0]
    else parts[0] + "\n\n" + Join(parts[1..])
  }

  /** `s.split("\n\n")`: the pieces between non-overlapping blank-line separators, leftmost first. */
  function SplitBlank(s: string): (r: seq<string>)
    ensures |r| >= 1
    decreases |s|
  {
    if |s| >= 2 && s[0] == '\n' && s[1] == '\n' then [""] + SplitBlank(s[2..])
    else if s == [] then [""]
    else
      var rest := SplitBlank(s[1..]);
      [[s[0]] + rest[0]] + rest[1..]
  }

  /** A piece with no newline is carried whole into the first part of the split. */
  lemma {:induction false} SplitBlankPrefix(p: string, t: string)
    requires '\n' !in p
    ensures SplitBlank(p + t) == [p + SplitBlank(t)[0]] + SplitBlank(t)[1..]
    decreases |p|
  {
    if p != [] {
      var s := p + t;
      assert s[0] == p[0] && s[1..] == p[1..] + t;
      SplitBlankPrefix(p[1..], t);
      assert [p[0]] + (p[1..] + SplitBlank(t)[0]) == p + SplitBlank(t)[0];
    } else {
      var st := SplitBlank(t);
      assert p + t == t;
      assert p + st[0] == st[0];
      assert [st[0]] + st[1..] == st;
    }
  }

  /** Splitting the joined content on blank lines gives back the parts, when no part holds a newline. */
  lemma {:induction false} SplitJoin(parts: seq<string>)
    requires parts != []
    requires forall k :: 0 <= k < |parts| ==> IsPagePart(parts[k])
    ensures SplitBlank(Join(parts)) == parts
    decreases |parts|
  {
    if |parts| == 1 {
      SplitBlankPrefix(parts[0], "");
      assert parts[0] + "" == parts[0];
    } else {
      var rest := Join(parts[1..]);
      SplitJoin(parts[1..]);
      var t := "\n\n" + rest;
      assert t[2..] == rest;
      assert SplitBlank(t) == [""] + parts[1..];
      assert Join(parts) == parts[0] + t;
      SplitBlankPrefix(parts[0], t);
      assert parts[0] + "" == parts[0];
    }
  }

  /** A cleaned page kept for the content: non-empty and free of newlines. */
  predicate IsPagePart(p: string)
  {
    p != "" && '\n' !in p
  }

  /** `clean_content` applied to every page text, page by page. */
  function Cleaned(pages: seq<string>): (r: seq<string>)
    ensures |r| == |pages|
  {
    seq(|pages|, i requires 0 <= i < |pages| => CleanContent(Some(pages[i])))
  }

  /** A cleaned page never holds a newline, so the blank-line separators stay unambiguous. */
  lemma CleanedHaveNoNewline(pages: seq<string>)
    ensures forall k :: 0 <= k < |pages| ==> '\n' !in Cleaned(pages)[k]
  {
    forall k | 0 <= k < |pages|
      ensures '\n' !in Cleaned(pages)[k]
    {
      var c := CleanContent(Some(pages[k]));
      CleanShape(Some(pages[k]));
      assert NoControl(c);
      assert IsControl('\n');
    }
  }

  /** The non-empty texts of `texts`, in order. */
  function NonEmpty(texts: seq<string>): (r: seq<string>)
    ensures |r| <= |texts|
    ensures forall k :: 0 <= k < |r| ==> r[k] != "" && r[k] in texts
    decreases |texts|
  {
    if texts == [] then []
    else
      var last := texts[|texts| - 1];
      NonEmpty(texts[..|texts| - 1]) + (if last == "" then [] else [last])
  }

  /** Unfolds `NonEmpty` on the first `i + 1` texts. */
  lemma NonEmptyStep(texts: seq<string>, i: nat)
    requires i < |texts|
    ensures NonEmpty(texts[..i + 1]) == NonEmpty(texts[..i]) + (if texts[i] == "" then [] else [texts[i]])
  {
    assert texts[..i + 1][..i] == texts[..i];
  }

  /** Every text is empty. */
  predicate AllBlank(texts: seq<string>)
  {
    forall i :: 0 <= i < |texts| ==> texts[i] == ""
  }

  /** Nothing survives the filter exactly when every text is empty. */
  lemma {:induction false} NonEmptyNone(texts: seq<string>)
    ensures NonEmpty(texts) == [] <==> AllBlank(texts)
    decreases |texts|
  {
    if texts != [] {
      var front := texts[..|texts| - 1];
      NonEmptyNone(front);
      assert forall i :: 0 <= i < |front| ==> front[i] == texts[i];
    }
  }

  /** The cleaned pages kept for the content: those that do not clean to empty, in page order. */
  function CleanedPages(pages: seq<string>): (r: seq<string>)
    ensures forall k :: 0 <= k < |r| ==> IsPagePart(r[k])
  {
    CleanedHaveNoNewline(pages);
    NonEmpty(Cleaned(pages))
  }

  /** `os.path.splitext(name)[0]` for a name without '/': drop the last '.' and what follows,
      unless every character before that '.' is itself a '.'. */
  function LastDot(s: string): (d: Option<nat>)
    ensures d.Some? ==> d.value < |s| && s[d.value] == '.' && forall j :: d.value < j < |s| ==> s[j] != '.'
    ensures d.None? ==> forall j :: 0 <= j < |s| ==> s[j] != '.'
    decreases |s|
  {
    if s == [] then None
    else if s[|s| - 1] == '.' then Some(|s| - 1)
    else LastDot(s[..|s| - 1])
  }

  function Stem(name: string): (root: string)
    ensures root <= name
  {
    match LastDot(name)
    case None => name
    case Some(d) => if forall i :: 0 <= i < d ==> name[i] == '.' then name else name[..d]
  }

  /** The stem drops exactly the extension: `root + "." + ext` has stem `root`
      when `ext` has no '.' and `root` is not made of dots only. */
  lemma StemDropsExtension(root: string, ext: string)
    requires forall j :: 0 <= j < |ext| ==> ext[j] != '.'
    requires exists i :: 0 <= i < |root| && root[i] != '.'
    ensures Stem(root + "." + ext) == root
  {
    var name := root + "." + ext;
    var d := LastDot(name);
    assert name[|root|] == '.';
    assert d.Some?;
    assert d.value >= |root|;
    assert forall j :: |root| < j < |name| ==> name[j] == ext[j - |root| - 1];
    assert d.value == |root|;
    var i :| 0 <= i < |root| && root[i] != '.';
    assert name[i] == root[i];
    assert name[..|root|] == root;
  }

  /** A name made only of its extension keeps it: `splitext(".pdf")` has root `.pdf`. */
  lemma DotFileKeepsName()
    ensures Stem(".pdf") == ".pdf"
  {
    var name := ".pdf";
    assert LastDot(name) == Some(0) by {
      assert name[3] != '.' && name[2] != '.' && name[1] != '.';
      assert LastDot(name[..3]) == LastDot(name[..3][..2]);
      assert LastDot(name[..3][..2]) == LastDot(name[..3][..2][..1]);
    }
  }

  datatype PdfMetadata = PdfMetadata(
    documentId: string, title: string, createdAt: string, section: string,
    assignmentType: AssignmentType, totalPages: nat)

  datatype PdfDocument = PdfDocument(content: string, metadata: PdfMetadata)

  /** What `process_pdf` yields for a file named `fileName` whose pages read as `pages`. */
  function DocumentOf(fileName: string, pages: seq<string>, createdAt: string): Option<PdfDocument>
  {
    var parts := CleanedPages(pages);
    if parts == [] then None
    else
      var base := Stem(fileName);
      Some(PdfDocument(Join(parts),
        PdfMetadata(base, base, createdAt, "instructions", DetermineAssignmentType(fileName), |pages|)))
  }

  /** The page loop of `process_pdf`: clean each page in order and keep the non-empty ones. */
  method CollectPageText(pages: seq<string>) returns (allContent: seq<string>)
    ensures allContent == CleanedPages(pages)
    ensures allContent == [] <==> AllBlank(Cleaned(pages))
  {
    ghost var texts := Cleaned(pages);
    allContent := [];
    var i := 0;
    while i < |pages|
      invariant i <= |pages|
      invariant allContent == NonEmpty(texts[..i])
    {
      NonEmptyStep(texts, i);
      var cleaned := CleanContent(Some(pages[i]));
      assert cleaned == texts[i];
      if cleaned != "" {
        allContent := allContent + [cleaned];
      }
      i := i + 1;
    }
    assert texts[..|pages|] == texts;
    NonEmptyNone(texts);
  }

  /**
   * `process_pdf`: the non-empty cleaned pages joined with a blank line, and
   * the metadata derived from the file name; `None` when no page has text.
   */
  method ProcessPdf(fileName: string, pages: seq<string>, createdAt: string) returns (doc: Option<PdfDocument>)
    ensures doc == DocumentOf(fileName, pages, createdAt)
    ensures doc.None? <==> AllBlank(Cleaned(pages))
    ensures doc.Some? ==> SplitBlank(doc.value.content) == CleanedPages(pages)
    ensures doc.Some? ==> doc.value.metadata.documentId == doc.value.metadata.title == Stem(fileName)
    ensures doc.Some? ==> doc.value.metadata.totalPages == |pages|
  {
    var allContent := CollectPageText(pages);
    if allContent == [] {
      return None;
    }
    SplitJoin(allContent);
    var base := Stem(fileName);
    doc := Some(PdfDocument(Join(allContent),
      PdfMetadata(base, base, createdAt, "instructions", DetermineAssignmentType(fileName), |pages|)));
  }

  /** `filename.lower().endswith('.pdf')`. */
  predicate IsPdfName(name: string)
  {
    var l := Lower(name);
    |l| >= 4 && l[|l| - 4..] == ".pdf"
  }

  /** The documents `main` gathers from the directory entries `names`, in listing order. */
  function Documents(names: seq<string>, read: string -> Option<seq<string>>, clock: string -> string)
    : seq<PdfDocument>
    decreases |names|
  {
    if names == [] then []
    else
      var name := names[|names| - 1];
      var doc := if IsPdfName(name) && read(name).Some? then DocumentOf(name, read(name).value, clock(name)) else None;
      Documents(names[..|names| - 1], read, clock) + (if doc.Some? then [doc.value] else [])
  }

  /** The entries whose lower-cased name ends in `.pdf`, in listing order. */
  function PdfNames(names: seq<string>): seq<string>
    decreases |names|
  {
    if names == [] then []
    else PdfNames(names[..|names| - 1]) + (if IsPdfName(names[|names| - 1]) then [names[|names| - 1]] else [])
  }

  /**
   * The loop of `main`: every `.pdf` entry is processed (a read failure is
   * `process_pdf`'s exception path and yields nothing) and its document, if
   * any, appended. `visited` lists the entries processed, in order.
   */
  method ProcessDirectory(names: seq<string>, read: string -> Option<seq<string>>, clock: string -> string)
    returns (docs: seq<PdfDocument>, visited: seq<string>)
    ensures visited == PdfNames(names)
    ensures docs == Documents(names, read, clock)
  {
    docs, visited := [], [];
    var i := 0;
    while i < |names|
      invariant i <= |names|
      invariant visited == PdfNames(names[..i])
      invariant docs == Documents(names[..i], read, clock)
    {
      assert names[..i + 1][..i] == names[..i];
      var name := names[i];
      if IsPdfName(name) {
        visited := visited + [name];
        var pages := read(name);
        if pages.Some? {
          var processed := ProcessPdf(name, pages.value, clock(name));
          if processed.Some? {
            docs := docs + [processed.value];
          }
        }
      }
      i := i + 1;
    }
    assert names[..|names|] == names;
  }

  /** Only `.pdf` entries matter: dropping the other entries changes nothing. */
  lemma {:induction false} OnlyPdfNamesCount(names: seq<string>, read: string -> Option<seq<string>>, clock: string -> string)
    ensures Documents(names, read, clock) == Documents(PdfNames(names), read, clock)
    ensures |Documents(names, read, clock)| <= |PdfNames(names)| <= |names|
    decreases |names|
  {
    if names != [] {
      var front := names[..|names| - 1];
      var last := names[|names| - 1];
      OnlyPdfNamesCount(front, read, clock);
      var pf := PdfNames(front);
      if IsPdfName(last) {
        var ps := pf + [last];
        assert ps[..|ps| - 1] == pf;
      } else {
        assert PdfNames(names) == pf + [] == pf;
        assert Documents(names, read, clock) == Documents(front, read, clock) + [];
      }
    }
  }
}
