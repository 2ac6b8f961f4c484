/**
 * The PDF loader of the ingestion layer: a constructor that accepts only an
 * existing path whose file-name suffix is `.pdf` in any letter case, and a
 * page filter that keeps, with its 0-based index, every page whose text is
 * not blank.
 */
module Pdf {
  import opened Wrappers
  import opened Text

  // ---------------------------------------------------------------------
  // The path check of the constructor

  /** Drops the empty and `.` components, as `pathlib` does when it parses a POSIX path. */
  function Components(pieces: seq<string>): (cs: seq<string>)
    ensures forall c :: c in cs ==> c in pieces && c != "" && c != "."
    decreases |pieces|
  {
    if |pieces| == 0 then []
    else
      var p := pieces[|pieces| - 1];
      Components(pieces[..|pieces| - 1]) + (if p == "" || p == "." then [] else [p])
  }

  /** `Path(path).name`: the last component of a POSIX path, or "" when it has none. */
  function FileName(path: string): string {
    var cs := Components(Split(path, '/'));
    if |cs| == 0 then "" else cs[|cs| - 1]
  }

  /**
   * `PurePath.suffix` on a file name: from the last `.` to the end, provided
   * that dot is neither the first nor the last character; "" otherwise.
   */
  function Suffix(name: string): string {
    var i := LastIndexOf(name, '.');
    if 0 < i < |name| - 1 then name[i..] else ""
  }

  /** The test at the end of the constructor: `path.suffix.lower() == ".pdf"`. */
  predicate HasPdfSuffix(path: string) {
    Lower(Suffix(FileName(path))) == ".pdf"
  }

  /** The loader is nothing but the path it was built from. */
  datatype Loader = Loader(filePath: string)

  datatype PdfError =
    | FileNotFound(path: string)
    | NotAPdf(path: string)
    | OpenFailed(path: string)

  /**
   * `PDFLoader(path)`: the existence test comes first, then the suffix test;
   * whether the file exists is a parameter.
   */
  function NewLoader(path: string, fileExists: bool): (r: Result<Loader, PdfError>)
    ensures r.Success? <==> fileExists && HasPdfSuffix(path)
    ensures r.Success? ==> r.value.filePath == path
    ensures !fileExists ==> r == Failure(FileNotFound(path))
    ensures fileExists && !HasPdfSuffix(path) ==> r == Failure(NotAPdf(path))
  {
    if !fileExists then Failure(FileNotFound(path))
    else if !HasPdfSuffix(path) then Failure(NotAPdf(path))
    else Success(Loader(path))
  }

  /** No component, and so no file name, contains `/`. */
  lemma FileNameHasNoSlash(path: string)
    ensures '/' !in FileName(path)
  {
    SplitPiecesFree(path, '/');
  }

  /** Only `.` lowers to `.`. */
  lemma LowerDot(c: char)
    ensures LowerChar(c) == '.' <==> c == '.'
  {
  }

  /**
   * A file name passes the suffix test exactly when it is at least five
   * characters long and its last four, lower-cased, are `.pdf`: a bare
   * `.pdf` is a hidden file with no suffix.
   */
  lemma PdfSuffixIff(name: string)
    ensures Lower(Suffix(name)) == ".pdf" <==> |name| >= 5 && Lower(name[|name| - 4..]) == ".pdf"
  {
    var i := LastIndexOf(name, '.');
    if Lower(Suffix(name)) == ".pdf" {
      assert 0 < i < |name| - 1 && Suffix(name) == name[i..];
      assert |name| - i == 4;
    }
    if |name| >= 5 && Lower(name[|name| - 4..]) == ".pdf" {
      var t := name[|name| - 4..];
      assert LowerChar(t[0]) == '.' && LowerChar(t[1]) == 'p' && LowerChar(t[2]) == 'd' && LowerChar(t[3]) == 'f';
      LowerDot(t[0]);
      LowerDot(t[1]);
      LowerDot(t[2]);
      LowerDot(t[3]);
      assert i == |name| - 4;
    }
  }

  /** `test.PDF` is accepted, upper-case suffix and all. */
  lemma AcceptsUpperCaseSuffix()
    ensures Lower(Suffix("test.PDF")) == ".pdf"
  {
    var name := "test.PDF";
    assert name[|name| - 4..] == ".PDF";
    assert Lower(".PDF") == ".pdf" by {
      var l := Lower(".PDF");
      assert l[0] == '.' && l[1] == 'p' && l[2] == 'd' && l[3] == 'f';
    }
    PdfSuffixIff(name);
  }

  /** `file.txt` is refused. */
  lemma RejectsTextFile()
    ensures Lower(Suffix("file.txt")) != ".pdf"
  {
    var name := "file.txt";
    assert Lower(name[|name| - 4..])[1] == 't';
    PdfSuffixIff(name);
  }

  /** `.pdf` is refused: a leading dot does not start a suffix. */
  lemma RejectsBareSuffix()
    ensures Lower(Suffix(".pdf")) != ".pdf"
  {
    PdfSuffixIff(".pdf");
  }

  /** A name without `/` is its own file name. */
  lemma FileNameOfPlainName(name: string)
    requires '/' !in name && name != "" && name != "."
    ensures FileName(name) == name
  {
    assert Split(name, '/') == [name];
    assert [name][..0] == [];
  }

  /** An existing `test.PDF` gives a loader for that path. */
  lemma AcceptsExistingUpperCasePdf()
    ensures NewLoader("test.PDF", true) == Success(Loader("test.PDF"))
  {
    FileNameOfPlainName("test.PDF");
    AcceptsUpperCaseSuffix();
  }

  /** An existing `file.txt` is not a PDF. */
  lemma RefusesExistingTextFile()
    ensures NewLoader("file.txt", true) == Failure(NotAPdf("file.txt"))
  {
    FileNameOfPlainName("file.txt");
    RejectsTextFile();
  }

  // ---------------------------------------------------------------------
  // The page filter

  /** One output record: `{"text", "page_number", "source"}`. */
  datatype PageRecord = PageRecord(text: string, pageNumber: nat, source: string)

  /** What opening the document gives: the text of each page, in order, or a failure. */
  datatype OpenOutcome = Opened(pageTexts: seq<string>) | Unopenable

  /**
   * The records kept from the pages `texts`: the pages that are not blank
   * (`text.strip()` is non-empty exactly then, by `StripEmptyIff`), each
   * with its index.
   */
  function KeptPages(texts: seq<string>, source: string): seq<PageRecord>
    decreases |texts|
  {
    if |texts| == 0 then []
    else
      var n := |texts| - 1;
      KeptPages(texts[..n], source) + (if !IsBlank(texts[n]) then [PageRecord(texts[n], n, source)] else [])
  }

  /**
   * `PDFLoader.load`, with the opened document as a parameter and `source`
   * the resolved path: a document that cannot be opened is an error, and
   * otherwise the result is the kept pages.
   */
  method Load(loader: Loader, source: string, doc: OpenOutcome) returns (r: Result<seq<PageRecord>, PdfError>)
    ensures doc.Unopenable? ==> r == Failure(OpenFailed(loader.filePath))
    ensures doc.Opened? ==> r == Success(KeptPages(doc.pageTexts, source))
  {
    if doc.Unopenable? {
      return Failure(OpenFailed(loader.filePath));
    }
    var texts := doc.pageTexts;
    var pages := [];
    for pageNum := 0 to |texts|
      invariant pages == KeptPages(texts[..pageNum], source)
    {
      assert texts[..pageNum + 1][..pageNum] == texts[..pageNum];
      var text := texts[pageNum];
      StripEmptyIff(text);
      if Strip(text) != "" {
        pages := pages + [PageRecord(text, pageNum, source)];
      }
    }
    assert texts[..|texts|] == texts;
    return Success(pages);
  }

  /**
   * A record is kept exactly when it is some page's unchanged text with that
   * page's index and the loader's source, and that text is not blank.
   */
  lemma {:induction false} KeptPagesMember(texts: seq<string>, source: string, p: PageRecord)
    ensures p in KeptPages(texts, source) <==>
      p.pageNumber < |texts| && p.text == texts[p.pageNumber] && p.source == source && !IsBlank(p.text)
    decreases |texts|
  {
    if |texts| > 0 {
      var n := |texts| - 1;
      KeptPagesMember(texts[..n], source, p);
      if p.pageNumber < n {
        assert texts[..n][p.pageNumber] == texts[p.pageNumber];
      }
    }
  }

  /**
   * The records are in strictly increasing page order, every page number is
   * below the page count, and every text is its page's text unchanged.
   */
  lemma {:induction false} KeptPagesOrdered(texts: seq<string>, source: string)
    ensures forall i :: 0 <= i < |KeptPages(texts, source)| ==>
      KeptPages(texts, source)[i].pageNumber < |texts|
      && KeptPages(texts, source)[i].text == texts[KeptPages(texts, source)[i].pageNumber]
    ensures forall i, j :: 0 <= i < j < |KeptPages(texts, source)| ==>
      KeptPages(texts, source)[i].pageNumber < KeptPages(texts, source)[j].pageNumber
    decreases |texts|
  {
    if |texts| > 0 {
      var n := |texts| - 1;
      KeptPagesOrdered(texts[..n], source);
      var prev := KeptPages(texts[..n], source);
      forall i | 0 <= i < |prev| ensures prev[i].text == texts[prev[i].pageNumber] {
        assert texts[..n][prev[i].pageNumber] == texts[prev[i].pageNumber];
      }
    }
  }

  /** There are never more records than pages. */
  lemma {:induction false} KeptPagesLength(texts: seq<string>, source: string)
    ensures |KeptPages(texts, source)| <= |texts|
    decreases |texts|
  {
    if |texts| > 0 {
      KeptPagesLength(texts[..|texts| - 1], source);
    }
  }

  /** The result is empty exactly when every page is blank. */
  lemma {:induction false} KeptPagesEmptyIff(texts: seq<string>, source: string)
    ensures KeptPages(texts, source) == [] <==> forall i :: 0 <= i < |texts| ==> IsBlank(texts[i])
    decreases |texts|
  {
    if |texts| > 0 {
      var n := |texts| - 1;
      KeptPagesEmptyIff(texts[..n], source);
      assert forall i :: 0 <= i < n ==> texts[..n][i] == texts[i];
    }
  }

  /** A text page followed by a whitespace-only page gives one record, for page 0. */
  lemma SkipsTrailingBlankPage(source: string)
    ensures KeptPages(["Content here", "   \n  "], source) == [PageRecord("Content here", 0, source)]
  {
    var texts := ["Content here", "   \n  "];
    assert !IsBlank(texts[0]) by { assert !IsWhitespace(texts[0][0]); }
    assert IsBlank(texts[1]);
    assert texts[..1][..0] == [];
    assert KeptPages(texts[..1], source) == [PageRecord("Content here", 0, source)];
    assert texts[..2] == texts;
  }

  /** Three text pages give three records, numbered 0, 1 and 2, with their texts. */
  lemma KeepsAllTextPages(source: string)
    ensures KeptPages(["Page one", "Page two", "Page three"], source)
      == [PageRecord("Page one", 0, source), PageRecord("Page two", 1, source), PageRecord("Page three", 2, source)]
  {
    var texts := ["Page one", "Page two", "Page three"];
    assert !IsBlank(texts[0]) by { assert !IsWhitespace(texts[0][0]); }
    assert !IsBlank(texts[1]) by { assert !IsWhitespace(texts[1][0]); }
    assert !IsBlank(texts[2]) by { assert !IsWhitespace(texts[2][0]); }
    assert texts[..1][..0] == [];
    assert KeptPages(texts[..1], source) == [PageRecord("Page one", 0, source)];
    assert texts[..2][..1] == texts[..1];
    assert KeptPages(texts[..2], source) == [PageRecord("Page one", 0, source), PageRecord("Page two", 1, source)];
    assert texts[..3] == texts && texts[..2] == texts[..3][..2];
  }

  /** A blank page between non-blank ones is skipped; the others keep their indices. */
  lemma SkipsBlankPage(source: string)
    ensures KeptPages(["Content here", "   \n  ", "Page three"], source)
      == [PageRecord("Content here", 0, source), PageRecord("Page three", 2, source)]
  {
    var texts := ["Content here", "   \n  ", "Page three"];
    assert !IsBlank(texts[0]) by { assert !IsWhitespace(texts[0][0]); }
    assert IsBlank(texts[1]);
    assert !IsBlank(texts[2]) by { assert !IsWhitespace(texts[2][0]); }
    assert texts[..1][..0] == [];
    assert KeptPages(texts[..1], source) == [PageRecord("Content here", 0, source)];
    assert texts[..2][..1] == texts[..1];
    assert KeptPages(texts[..2], source) == [PageRecord("Content here", 0, source)];
    assert texts[..3] == texts && texts[..2] == texts[..3][..2];
  }
}
