/** Page ingestion of the notes loader: finding the PDF files of a directory
    walk, cleaning each page's text (boilerplate lines and the document's own
    title), and building the parallel lists of page texts and page metadata
    that are handed to the text splitter. */
module Loader {
  import opened Strings
  import opened Paths

  /** Boilerplate strings deleted from every page, in this order. */
  const BOILERPLATE: seq<string> := ["来自： AiGC面试宝典", "宁静致远", "知识星球"]

  const PDF_EXT: string := ".pdf"

  /** The characters the title-prefix pattern `^\d+[-_.]` accepts after the digits. */
  const ORDINAL_SEPARATORS: string := "-_."

  /** Characters with a special meaning in a Python regular expression. */
  const REGEX_META: string := ".^$*+?{}[]\\|()"

  /** One step of `os.walk`: a directory and the names of the files in it. */
  datatype WalkEntry = WalkEntry(root: string, files: seq<string>)

  /** Provenance of one page: the document's display name and its 1-based page number. */
  datatype Metadata = Metadata(file: string, page: int)

  // ---------------------------------------------------------------------
  // Title key

  predicate IsDigit(c: char)
  {
    '0' <= c <= '9'
  }

  /** Length of the longest run of digits at the start of `s`. */
  function DigitRun(s: string): (n: nat)
    ensures n <= |s|
    decreases |s|
  {
    if s != [] && IsDigit(s[0]) then 1 + DigitRun(s[1..]) else 0
  }

  /** The run is maximal: all its characters are digits and the next one is not. */
  lemma {:induction false} DigitRunSpec(s: string)
    ensures forall i :: 0 <= i < DigitRun(s) ==> IsDigit(s[i])
    ensures DigitRun(s) == |s| || !IsDigit(s[DigitRun(s)])
    decreases |s|
  {
    if s != [] && IsDigit(s[0]) {
      DigitRunSpec(s[1..]);
      forall i | 1 <= i < DigitRun(s)
        ensures IsDigit(s[i])
      {
        assert s[i] == s[1..][i - 1];
      }
    }
  }

  /** `s` starts with `k` >= 1 digits followed by a separator: a match of
      `^\d+[-_.]` of length k + 1. */
  ghost predicate OrdinalPrefixAt(s: string, k: int)
  {
    1 <= k < |s| && (forall i :: 0 <= i < k ==> IsDigit(s[i])) && s[k] in ORDINAL_SEPARATORS
  }

  /** `re.sub(r'^\d+[-_.]', '', s)`: the pattern is anchored at the start, so
      at most one ordinal prefix is removed. */
  function StripOrdinal(s: string): string
  {
    var n := DigitRun(s);
    if 1 <= n < |s| && s[n] in ORDINAL_SEPARATORS then s[n + 1..] else s
  }

  /** Exactly the one ordinal prefix the pattern matches is removed, and a
      name without one is left as it is. */
  lemma StripOrdinalSpec(s: string)
    ensures forall k :: OrdinalPrefixAt(s, k) ==> StripOrdinal(s) == s[k + 1..]
    ensures (forall k :: !OrdinalPrefixAt(s, k)) ==> StripOrdinal(s) == s
  {
    var n := DigitRun(s);
    DigitRunSpec(s);
    if 1 <= n < |s| && s[n] in ORDINAL_SEPARATORS {
      assert OrdinalPrefixAt(s, n);
    }
  }

  /** The document's title as it appears in its own pages: the file's base
      name with every ".pdf" deleted and a leading ordinal removed. */
  function TitleKey(path: string): string
  {
    StripOrdinal(RemoveAll(Basename(path), PDF_EXT))
  }

  /** A pattern without regex metacharacters matches exactly its own text. */
  predicate IsLiteralPattern(key: string)
  {
    forall c :: c in key ==> c !in REGEX_META
  }

  /** For a file found under any directory, the title key depends only on the
      file's own name. */
  lemma TitleKeyOfJoin(root: string, name: string)
    requires SEP !in name
    ensures TitleKey(Join(root, name)) == StripOrdinal(RemoveAll(name, PDF_EXT))
  {
    BasenameOfJoin(root, name);
  }

  /** Deleting ".pdf" from `stem + ".pdf"` gives `stem` back when `stem` holds
      no ".pdf" of its own (".pdf" cannot overlap itself, so no occurrence
      straddles the two parts). */
  lemma {:induction false} RemoveExtension(stem: string)
    requires !Occurs(stem, PDF_EXT)
    ensures RemoveAll(stem + PDF_EXT, PDF_EXT) == stem
    decreases |stem|
  {
    var s := stem + PDF_EXT;
    if stem == [] {
      assert s[..4] == PDF_EXT && s[4..] == [];
    } else {
      if |stem| >= 4 {
        assert s[..4] == stem[..4];
        assert !OccursAt(stem, PDF_EXT, 0);
      } else {
        assert s[..4][|stem|] == '.';
      }
      assert s[1..] == stem[1..] + PDF_EXT;
      if Occurs(stem[1..], PDF_EXT) {
        var j :| OccursAt(stem[1..], PDF_EXT, j);
        assert stem[1..][j..j + 4] == stem[j + 1..j + 5];
        assert OccursAt(stem, PDF_EXT, j + 1);
      }
      RemoveExtension(stem[1..]);
    }
  }

  /** A numbered file "<digits><sep><stem>.pdf" has title key `stem`: exactly
      one ordinal is removed, even when `stem` starts with another one. */
  lemma TitleKeyOfNumberedName(root: string, digits: string, sep: char, stem: string)
    requires 1 <= |digits| && forall i :: 0 <= i < |digits| ==> IsDigit(digits[i])
    requires sep in ORDINAL_SEPARATORS
    requires SEP !in stem
    requires !Occurs(digits + [sep] + stem, PDF_EXT)
    ensures TitleKey(Join(root, digits + [sep] + stem + PDF_EXT)) == stem
  {
    var numbered := digits + [sep] + stem;
    assert SEP !in digits + [sep] by {
      assert forall i :: 0 <= i < |digits| ==> digits[i] != SEP;
    }
    assert numbered + PDF_EXT == digits + [sep] + stem + PDF_EXT;
    assert SEP !in numbered + PDF_EXT;
    TitleKeyOfJoin(root, numbered + PDF_EXT);
    RemoveExtension(numbered);
    StripOrdinalSpec(numbered);
    assert OrdinalPrefixAt(numbered, |digits|);
    assert numbered[|digits| + 1..] == stem;
  }

  /** A file whose name has no leading ordinal keeps its whole stem as title key. */
  lemma TitleKeyOfPlainName(root: string, stem: string)
    requires forall k :: !OrdinalPrefixAt(stem, k)
    requires SEP !in stem
    requires !Occurs(stem, PDF_EXT)
    ensures TitleKey(Join(root, stem + PDF_EXT)) == stem
  {
    assert SEP !in stem + PDF_EXT;
    TitleKeyOfJoin(root, stem + PDF_EXT);
    RemoveExtension(stem);
    StripOrdinalSpec(stem);
  }

  /** A name without '.' holds no ".pdf". */
  lemma NoDotNoExtension(s: string)
    requires '.' !in s
    ensures !Occurs(s, PDF_EXT)
  {
    forall i | 0 <= i && i + |PDF_EXT| <= |s|
      ensures !OccursAt(s, PDF_EXT, i)
    {
      assert s[i] in s;
      assert s[i..i + |PDF_EXT|][0] == s[i];
    }
  }

  /** The example of the source's comment: "1-大模型（LLMs）基础面.pdf" has
      title key "大模型（LLMs）基础面". */
  lemma TitleKeyExample(root: string)
    ensures TitleKey(Join(root, "1-大模型（LLMs）基础面.pdf")) == "大模型（LLMs）基础面"
  {
    var stem := "大模型（LLMs）基础面";
    var name := "1" + ['-'] + stem;
    assert '.' !in name;
    NoDotNoExtension(name);
    assert "1-大模型（LLMs）基础面.pdf" == name + PDF_EXT;
    TitleKeyOfNumberedName(root, "1", '-', stem);
  }

  /** Only one ordinal is stripped: "1-2-x.pdf" has title key "2-x". */
  lemma OneOrdinalExample()
    ensures TitleKey("1-2-x.pdf") == "2-x"
  {
    var name := "1" + ['-'] + "2-x";
    assert '.' !in name;
    NoDotNoExtension(name);
    assert Join("", name + PDF_EXT) == name + PDF_EXT;
    assert "1-2-x.pdf" == name + PDF_EXT;
    TitleKeyOfNumberedName("", "1", '-', "2-x");
  }

  /** A file named "1-.pdf" has an empty title key. */
  lemma EmptyTitleKeyExample()
    ensures TitleKey("1-.pdf") == []
  {
    var name := "1" + ['-'] + [];
    assert '.' !in name;
    NoDotNoExtension(name);
    assert Join("", name + PDF_EXT) == name + PDF_EXT;
    assert "1-.pdf" == name + PDF_EXT;
    TitleKeyOfNumberedName("", "1", '-', []);
  }

  // ---------------------------------------------------------------------
  // Cleaning one page

  /** `s.replace(p, "")` for each `p` of `pats`, in order. */
  function RemoveEach(s: string, pats: seq<string>): (r: string)
    ensures |r| <= |s|
    decreases |pats|
  {
    if pats == [] then s
    else RemoveAll(RemoveEach(s, pats[..|pats| - 1]), pats[|pats| - 1])
  }

  lemma RemoveEachStep(s: string, pats: seq<string>, i: nat)
    requires i < |pats|
    ensures RemoveEach(s, pats[..i + 1]) == RemoveAll(RemoveEach(s, pats[..i]), pats[i])
  {
    assert pats[..i + 1][..i] == pats[..i];
  }

  /** The text `remove_useless_content` returns for a page whose document has
      title key `titleKey`, the title being removed as a literal string. */
  function CleanPage(text: string, titleKey: string): string
  {
    RemoveAll(RemoveEach(text, BOILERPLATE), titleKey)
  }

  lemma {:induction false} RemoveEachDeletes(s: string, pats: seq<string>)
    ensures IsSubseq(RemoveEach(s, pats), s)
    decreases |pats|
  {
    if pats == [] {
      SubseqRefl(s);
    } else {
      var prev := RemoveEach(s, pats[..|pats| - 1]);
      RemoveEachDeletes(s, pats[..|pats| - 1]);
      RemoveAllDeletes(prev, pats[|pats| - 1]);
      SubseqTrans(RemoveEach(s, pats), prev, s);
    }
  }

  /** Cleaning only deletes characters. */
  lemma CleanPageDeletes(text: string, titleKey: string)
    ensures IsSubseq(CleanPage(text, titleKey), text)
    ensures |CleanPage(text, titleKey)| <= |text|
  {
    var prev := RemoveEach(text, BOILERPLATE);
    RemoveEachDeletes(text, BOILERPLATE);
    RemoveAllDeletes(prev, titleKey);
    SubseqTrans(CleanPage(text, titleKey), prev, text);
    SubseqLength(CleanPage(text, titleKey), text);
  }

  /** None of `pats` occurs in `s`. */
  ghost predicate NoneOccurs(s: string, pats: seq<string>)
  {
    forall i :: 0 <= i < |pats| ==> !Occurs(s, pats[i])
  }

  /** Removing non-empty strings keeps the length exactly when none of them
      occurs, and then the text is unchanged. */
  lemma {:induction false} RemoveEachUnchanged(s: string, pats: seq<string>)
    requires forall i :: 0 <= i < |pats| ==> pats[i] != []
    ensures |RemoveEach(s, pats)| == |s| <==> NoneOccurs(s, pats)
    ensures NoneOccurs(s, pats) ==> RemoveEach(s, pats) == s
    decreases |pats|
  {
    if pats != [] {
      var init, last := pats[..|pats| - 1], pats[|pats| - 1];
      var prev := RemoveEach(s, init);
      RemoveEachUnchanged(s, init);
      RemoveAllLength(prev, last);
      CountZeroIff(prev, last);
      RemoveAllUnchangedIff(prev, last);
      if |RemoveEach(s, pats)| == |s| {
        assert |prev| == |s|;
        assert NoneOccurs(s, init);
      }
    }
  }

  /** A page is returned unchanged exactly when no boilerplate string occurs
      in it and the title key is empty or does not occur in it either. */
  lemma CleanPageUnchangedIff(text: string, titleKey: string)
    ensures CleanPage(text, titleKey) == text <==>
      NoneOccurs(text, BOILERPLATE) && (titleKey == [] || !Occurs(text, titleKey))
  {
    var prev := RemoveEach(text, BOILERPLATE);
    assert forall i :: 0 <= i < |BOILERPLATE| ==> BOILERPLATE[i] != [];
    RemoveEachUnchanged(text, BOILERPLATE);
    if CleanPage(text, titleKey) == text {
      assert |prev| == |text|;
      assert prev == text;
    }
    RemoveAllUnchangedIff(prev, titleKey);
  }

  /** A single pass can leave a boilerplate string behind: deleting the
      "宁静致远" in the middle of "宁静宁静致远致远" joins the halves around it
      into a new "宁静致远". */
  lemma BoilerplateMayRemain()
    ensures RemoveEach("宁静宁静致远致远", BOILERPLATE) == "宁静致远"
    ensures Occurs(RemoveEach("宁静宁静致远致远", BOILERPLATE), BOILERPLATE[1])
  {
    var s := "宁静宁静致远致远";
    var b0, b1, b2 := BOILERPLATE[0], BOILERPLATE[1], BOILERPLATE[2];
    assert BOILERPLATE[..0] == [];
    assert |s| < |b0|;
    assert RemoveEach(s, BOILERPLATE[..1]) == s;
    assert s[..4][2] != b1[2];
    assert s[2..][..4] == b1;
    assert s[2..][4..] == "致远";
    assert RemoveAll("致远", b1) == "致远";
    assert RemoveAll(s[2..], b1) == "致远";
    assert s[1..][..4][1] != b1[1];
    assert RemoveAll(s[1..], b1) == "静致远";
    assert RemoveAll(s, b1) == "宁静致远";
    assert RemoveEach(s, BOILERPLATE[..2]) == "宁静致远";
    assert "宁静致远"[..4] != b2;
    assert "宁静致远"[1..][..3] == "静致远";
    assert RemoveAll("宁静致远", b2) == "宁静致远";
    assert BOILERPLATE[..3] == BOILERPLATE;
    assert OccursAt("宁静致远", b1, 0);
  }

  /** `remove_useless_content(text, pdf_path)`: deletes the boilerplate
      strings one after the other, then every occurrence of the title key. */
  method RemoveUselessContent(text: string, pdfPath: string) returns (cleaned: string)
    requires IsLiteralPattern(TitleKey(pdfPath))
    ensures cleaned == CleanPage(text, TitleKey(pdfPath))
  {
    cleaned := text;
    var i := 0;
    while i < |BOILERPLATE|
      invariant 0 <= i <= |BOILERPLATE|
      invariant cleaned == RemoveEach(text, BOILERPLATE[..i])
    {
      RemoveEachStep(text, BOILERPLATE, i);
      cleaned := RemoveAll(cleaned, BOILERPLATE[i]);
      i := i + 1;
    }
    assert BOILERPLATE[..i] == BOILERPLATE;
    var titleKey := TitleKey(pdfPath);
    cleaned := RemoveAll(cleaned, titleKey);
  }

  // ---------------------------------------------------------------------
  // Finding the PDF files

  /** Paths of the ".pdf" files among `files`, joined onto `root`, in order. */
  function PdfFilesIn(root: string, files: seq<string>): seq<string>
    decreases |files|
  {
    if files == [] then []
    else
      var last := files[|files| - 1];
      PdfFilesIn(root, files[..|files| - 1]) + (if EndsWith(last, PDF_EXT) then [Join(root, last)] else [])
  }

  /** Paths of every ".pdf" file of the walk, in walk order. */
  function PdfPaths(walk: seq<WalkEntry>): seq<string>
    decreases |walk|
  {
    if walk == [] then []
    else PdfPaths(walk[..|walk| - 1]) + PdfFilesIn(walk[|walk| - 1].root, walk[|walk| - 1].files)
  }

  /** `get_pdf_path`: the files of the walk whose name ends with ".pdf",
      joined onto their directory, in walk order. */
  method GetPdfPath(walk: seq<WalkEntry>) returns (pdfFiles: seq<string>)
    ensures pdfFiles == PdfPaths(walk)
  {
    pdfFiles := [];
    var i := 0;
    while i < |walk|
      invariant 0 <= i <= |walk|
      invariant pdfFiles == PdfPaths(walk[..i])
    {
      var root, files := walk[i].root, walk[i].files;
      var j := 0;
      while j < |files|
        invariant 0 <= j <= |files|
        invariant pdfFiles == PdfPaths(walk[..i]) + PdfFilesIn(root, files[..j])
      {
        var file := files[j];
        assert files[..j + 1][..j] == files[..j];
        if EndsWith(file, PDF_EXT) {
          pdfFiles := pdfFiles + [Join(root, file)];
        }
        j := j + 1;
      }
      assert files[..j] == files;
      assert walk[..i + 1][..i] == walk[..i];
      i := i + 1;
    }
    assert walk[..i] == walk;
  }

  lemma {:induction false} PdfFilesInSound(root: string, files: seq<string>, p: string) returns (f: string)
    requires p in PdfFilesIn(root, files)
    ensures f in files && EndsWith(f, PDF_EXT) && p == Join(root, f)
    decreases |files|
  {
    var init, last := files[..|files| - 1], files[|files| - 1];
    assert files == init + [last];
    if p in PdfFilesIn(root, init) {
      f := PdfFilesInSound(root, init, p);
    } else {
      f := last;
    }
  }

  lemma {:induction false} PdfFilesInComplete(root: string, files: seq<string>, f: string)
    requires f in files && EndsWith(f, PDF_EXT)
    ensures Join(root, f) in PdfFilesIn(root, files)
    decreases |files|
  {
    var init, last := files[..|files| - 1], files[|files| - 1];
    assert files == init + [last];
    if f != last {
      PdfFilesInComplete(root, init, f);
    }
  }

  /** Every returned path is a file of the walk whose name ends with ".pdf",
      joined onto its directory. */
  lemma {:induction false} PdfPathsSound(walk: seq<WalkEntry>, p: string) returns (e: WalkEntry, f: string)
    requires p in PdfPaths(walk)
    ensures e in walk && f in e.files && EndsWith(f, PDF_EXT) && p == Join(e.root, f)
    decreases |walk|
  {
    var init, last := walk[..|walk| - 1], walk[|walk| - 1];
    assert walk == init + [last];
    if p in PdfPaths(init) {
      e, f := PdfPathsSound(init, p);
    } else {
      e := last;
      f := PdfFilesInSound(last.root, last.files, p);
    }
  }

  /** Every file of the walk whose name ends with ".pdf" (case-sensitive) is
      returned, joined onto its directory. */
  lemma {:induction false} PdfPathsComplete(walk: seq<WalkEntry>, e: WalkEntry, f: string)
    requires e in walk && f in e.files && EndsWith(f, PDF_EXT)
    ensures Join(e.root, f) in PdfPaths(walk)
    decreases |walk|
  {
    var init, last := walk[..|walk| - 1], walk[|walk| - 1];
    assert walk == init + [last];
    if e == last {
      PdfFilesInComplete(e.root, e.files, f);
    } else {
      PdfPathsComplete(init, e, f);
    }
  }

  /** The paths are absolute exactly as far as the walk's directories are:
      under absolute directories every returned path is absolute. A relative
      directory gives relative paths (see `GetPdfPathExample`). */
  lemma PdfPathsAbsolute(walk: seq<WalkEntry>, p: string)
    requires forall e :: e in walk ==> StartsWith(e.root, [SEP])
    requires p in PdfPaths(walk)
    ensures StartsWith(p, [SEP])
  {
    var e, f := PdfPathsSound(walk, p);
    if !StartsWith(f, [SEP]) {
      assert p[..|e.root|] == e.root;
      assert p[..1] == e.root[..1];
    }
  }

  /** Every returned path ends with ".pdf". */
  lemma PdfPathsArePdf(walk: seq<WalkEntry>, p: string)
    requires p in PdfPaths(walk)
    ensures EndsWith(p, PDF_EXT)
  {
    var e, f := PdfPathsSound(walk, p);
    assert EndsWith(p, f);
    assert p[|p| - |f|..][|f| - 4..] == p[|p| - 4..];
  }

  /** Walking two parts of a tree one after the other lists the first part's
      files before the second's. */
  lemma {:induction false} PdfPathsAppend(w1: seq<WalkEntry>, w2: seq<WalkEntry>)
    ensures PdfPaths(w1 + w2) == PdfPaths(w1) + PdfPaths(w2)
    decreases |w2|
  {
    if w2 != [] {
      var init := w2[..|w2| - 1];
      assert (w1 + w2)[..|w1 + w2| - 1] == w1 + init;
      PdfPathsAppend(w1, init);
    } else {
      assert w1 + w2 == w1;
    }
  }

  /** The suffix test is case-sensitive and looks only at the end of the name. */
  lemma PdfSuffixExamples()
    ensures EndsWith("a.pdf", PDF_EXT)
    ensures !EndsWith("b.PDF", PDF_EXT)
    ensures !EndsWith("c.pdf.txt", PDF_EXT)
  {
  }

  lemma PdfFilesInExample()
    ensures PdfFilesIn("notes", ["a.pdf", "b.PDF", "c.pdf.txt"]) == ["notes/a.pdf"]
  {
    var files := ["a.pdf", "b.PDF", "c.pdf.txt"];
    PdfSuffixExamples();
    assert Join("notes", "a.pdf") == "notes/a.pdf" by {
      assert !EndsWith("notes", "/");
      assert !StartsWith("a.pdf", "/");
    }
    assert files[..1][..0] == [];
    assert PdfFilesIn("notes", files[..1]) == ["notes/a.pdf"];
    assert files[..2][..1] == files[..1];
    assert PdfFilesIn("notes", files[..2]) == ["notes/a.pdf"];
    assert files[..2] == files[..|files| - 1];
  }

  /** `get_pdf_path` keeps "a.pdf", and drops "b.PDF" (the test is
      case-sensitive) and "c.pdf.txt" (".pdf" must end the name). */
  lemma GetPdfPathExample()
    ensures PdfPaths([WalkEntry("notes", ["a.pdf", "b.PDF", "c.pdf.txt"])]) == ["notes/a.pdf"]
  {
    PdfFilesInExample();
    var walk := [WalkEntry("notes", ["a.pdf", "b.PDF", "c.pdf.txt"])];
    assert walk[..0] == [];
  }

  // ---------------------------------------------------------------------
  // Page records

  /** The name recorded for a document: its base name without ".pdf", in
      title brackets. */
  function DisplayName(path: string): string
  {
    "《" + RemoveAll(Basename(path), PDF_EXT) + "》"
  }

  /** The metadata of the page at zero-based index `pageNum` of `path`. */
  function PageMetadata(path: string, pageNum: nat): Metadata
  {
    Metadata(DisplayName(path), pageNum + 1)
  }

  /** For a file found under any directory, the display name depends only on
      the file's own name. */
  lemma DisplayNameOfJoin(root: string, name: string)
    requires SEP !in name
    ensures DisplayName(Join(root, name)) == "《" + RemoveAll(name, PDF_EXT) + "》"
  {
    BasenameOfJoin(root, name);
  }

  /** Every path's title key is a literal pattern. */
  predicate AllLiteralTitles(paths: seq<string>)
  {
    forall i :: 0 <= i < |paths| ==> IsLiteralPattern(TitleKey(paths[i]))
  }

  /** Cleaned texts of the pages of a document with title key `titleKey`,
      in page order. */
  function FileTexts(titleKey: string, pages: seq<string>): (ts: seq<string>)
    ensures |ts| == |pages|
    decreases |pages|
  {
    if pages == [] then []
    else FileTexts(titleKey, pages[..|pages| - 1]) + [CleanPage(pages[|pages| - 1], titleKey)]
  }

  /** Metadata of the first `n` pages of a document with display name `name`. */
  function FileMetas(name: string, n: nat): (ms: seq<Metadata>)
    ensures |ms| == n
  {
    if n == 0 then [] else FileMetas(name, n - 1) + [Metadata(name, n)]
  }

  /** Number of pages of all documents at `paths`, where `pagesOf` gives the
      extracted text of each page of a document. */
  function TotalPages(paths: seq<string>, pagesOf: string -> seq<string>): nat
    decreases |paths|
  {
    if paths == [] then 0
    else TotalPages(paths[..|paths| - 1], pagesOf) + |pagesOf(paths[|paths| - 1])|
  }

  /** The `texts` list: cleaned page texts, document by document. */
  function Texts(paths: seq<string>, pagesOf: string -> seq<string>): (ts: seq<string>)
    ensures |ts| == TotalPages(paths, pagesOf)
    decreases |paths|
  {
    if paths == [] then []
    else
      var last := paths[|paths| - 1];
      Texts(paths[..|paths| - 1], pagesOf) + FileTexts(TitleKey(last), pagesOf(last))
  }

  /** The `metadatas` list: one record per page, document by document. */
  function Metas(paths: seq<string>, pagesOf: string -> seq<string>): (ms: seq<Metadata>)
    ensures |ms| == TotalPages(paths, pagesOf)
    decreases |paths|
  {
    if paths == [] then []
    else
      var last := paths[|paths| - 1];
      Metas(paths[..|paths| - 1], pagesOf) + FileMetas(DisplayName(last), |pagesOf(last)|)
  }

  /** Entry `j` of a document's texts is the cleaned text of its page `j`. */
  lemma {:induction false} FileTextAt(titleKey: string, pages: seq<string>, j: nat)
    requires j < |pages|
    ensures FileTexts(titleKey, pages)[j] == CleanPage(pages[j], titleKey)
    decreases |pages|
  {
    var init := pages[..|pages| - 1];
    if j < |init| {
      FileTextAt(titleKey, init, j);
      assert pages[j] == init[j];
    }
  }

  /** Entry `j` of a document's metadata carries page number `j + 1`. */
  lemma {:induction false} FileMetaAt(name: string, n: nat, j: nat)
    requires j < n
    ensures FileMetas(name, n)[j] == Metadata(name, j + 1)
    decreases n
  {
    if j < n - 1 {
      FileMetaAt(name, n - 1, j);
    }
  }

  lemma {:induction false} TextAt(paths: seq<string>, pagesOf: string -> seq<string>, f: nat, j: nat)
    requires f < |paths| && j < |pagesOf(paths[f])|
    ensures TotalPages(paths[..f], pagesOf) + j < TotalPages(paths, pagesOf)
    ensures Texts(paths, pagesOf)[TotalPages(paths[..f], pagesOf) + j]
      == CleanPage(pagesOf(paths[f])[j], TitleKey(paths[f]))
    decreases |paths|
  {
    var init, last := paths[..|paths| - 1], paths[|paths| - 1];
    if f == |paths| - 1 {
      assert paths[..f] == init;
      FileTextAt(TitleKey(last), pagesOf(last), j);
    } else {
      assert init[..f] == paths[..f];
      assert init[f] == paths[f];
      TextAt(init, pagesOf, f, j);
    }
  }

  lemma {:induction false} MetaAt(paths: seq<string>, pagesOf: string -> seq<string>, f: nat, j: nat)
    requires f < |paths| && j < |pagesOf(paths[f])|
    ensures TotalPages(paths[..f], pagesOf) + j < TotalPages(paths, pagesOf)
    ensures Metas(paths, pagesOf)[TotalPages(paths[..f], pagesOf) + j]
      == Metadata(DisplayName(paths[f]), j + 1)
    decreases |paths|
  {
    var init, last := paths[..|paths| - 1], paths[|paths| - 1];
    if f == |paths| - 1 {
      assert paths[..f] == init;
      FileMetaAt(DisplayName(last), |pagesOf(last)|, j);
    } else {
      assert init[..f] == paths[..f];
      assert init[f] == paths[f];
      MetaAt(init, pagesOf, f, j);
    }
  }

  /** Page `j` of document `f` sits at the same index of both lists, after
      all pages of the documents before it: `texts` holds its cleaned text
      and `metadatas` its document's display name and the page number j + 1. */
  lemma RecordAt(paths: seq<string>, pagesOf: string -> seq<string>, f: nat, j: nat)
    requires f < |paths| && j < |pagesOf(paths[f])|
    ensures TotalPages(paths[..f], pagesOf) + j < TotalPages(paths, pagesOf)
    ensures Texts(paths, pagesOf)[TotalPages(paths[..f], pagesOf) + j]
      == CleanPage(pagesOf(paths[f])[j], TitleKey(paths[f]))
    ensures Metas(paths, pagesOf)[TotalPages(paths[..f], pagesOf) + j]
      == Metadata(DisplayName(paths[f]), j + 1)
  {
    TextAt(paths, pagesOf, f, j);
    MetaAt(paths, pagesOf, f, j);
  }

  /** Every index of the lists belongs to some page `j` of some document `f`. */
  lemma {:induction false} RecordLocate(paths: seq<string>, pagesOf: string -> seq<string>, k: nat)
    returns (f: nat, j: nat)
    requires k < TotalPages(paths, pagesOf)
    ensures f < |paths| && j < |pagesOf(paths[f])|
    ensures k == TotalPages(paths[..f], pagesOf) + j
    decreases |paths|
  {
    var init, last := paths[..|paths| - 1], paths[|paths| - 1];
    if k < TotalPages(init, pagesOf) {
      f, j := RecordLocate(init, pagesOf, k);
      assert init[..f] == paths[..f];
    } else {
      f, j := |paths| - 1, k - TotalPages(init, pagesOf);
      assert paths[..f] == init;
    }
  }

  /** Appending the records of page `n` extends the lists built so far by
      the records of the first `n + 1` pages. */
  lemma PageStep(texts: seq<string>, metadatas: seq<Metadata>, titleKey: string, name: string,
                 pages: seq<string>, n: nat, texts': seq<string>, metadatas': seq<Metadata>)
    requires n < |pages|
    requires texts' == texts + FileTexts(titleKey, pages[..n])
    requires metadatas' == metadatas + FileMetas(name, n)
    ensures texts' + [CleanPage(pages[n], titleKey)] == texts + FileTexts(titleKey, pages[..n + 1])
    ensures metadatas' + [Metadata(name, n + 1)] == metadatas + FileMetas(name, n + 1)
  {
    assert pages[..n + 1][..n] == pages[..n];
  }

  lemma RecordsStep(paths: seq<string>, pagesOf: string -> seq<string>, i: nat)
    requires i < |paths|
    ensures Texts(paths[..i + 1], pagesOf) == Texts(paths[..i], pagesOf) + FileTexts(TitleKey(paths[i]), pagesOf(paths[i]))
    ensures Metas(paths[..i + 1], pagesOf) == Metas(paths[..i], pagesOf) + FileMetas(DisplayName(paths[i]), |pagesOf(paths[i])|)
  {
    assert paths[..i + 1][..i] == paths[..i];
  }

  /** The inner loop of `pdf2documents`: for each page of the opened
      document `doc`, in order, appends its cleaned text to `texts` and its
      metadata (display name, page index + 1) to `metadatas`. */
  method AppendPages(texts: seq<string>, metadatas: seq<Metadata>, pdfPath: string, doc: seq<string>)
    returns (texts': seq<string>, metadatas': seq<Metadata>)
    requires IsLiteralPattern(TitleKey(pdfPath))
    ensures texts' == texts + FileTexts(TitleKey(pdfPath), doc)
    ensures metadatas' == metadatas + FileMetas(DisplayName(pdfPath), |doc|)
  {
    ghost var titleKey, name := TitleKey(pdfPath), DisplayName(pdfPath);
    texts', metadatas' := texts, metadatas;
    var pageNum := 0;
    while pageNum < |doc|
      invariant 0 <= pageNum <= |doc|
      invariant texts' == texts + FileTexts(titleKey, doc[..pageNum])
      invariant metadatas' == metadatas + FileMetas(name, pageNum)
    {
      var pageText := RemoveUselessContent(doc[pageNum], pdfPath);
      var metadata := PageMetadata(pdfPath, pageNum);
      PageStep(texts, metadatas, titleKey, name, doc, pageNum, texts', metadatas');
      texts' := texts' + [pageText];
      metadatas' := metadatas' + [metadata];
      pageNum := pageNum + 1;
    }
    assert doc[..pageNum] == doc;
  }

  /** `pdf2documents` up to the text splitter: walks the directory, and for
      every page of every PDF found appends its cleaned text to `texts` and
      its metadata to `metadatas`. `pagesOf` stands for opening a PDF and
      extracting the text of each page. */
  method Pdf2Documents(walk: seq<WalkEntry>, pagesOf: string -> seq<string>)
    returns (texts: seq<string>, metadatas: seq<Metadata>)
    requires AllLiteralTitles(PdfPaths(walk))
    ensures texts == Texts(PdfPaths(walk), pagesOf)
    ensures metadatas == Metas(PdfPaths(walk), pagesOf)
    ensures |texts| == |metadatas| == TotalPages(PdfPaths(walk), pagesOf)
  {
    var pdfPathList := GetPdfPath(walk);
    texts, metadatas := [], [];
    var i := 0;
    while i < |pdfPathList|
      invariant 0 <= i <= |pdfPathList|
      invariant texts == Texts(pdfPathList[..i], pagesOf)
      invariant metadatas == Metas(pdfPathList[..i], pagesOf)
    {
      var pdfPath := pdfPathList[i];
      var doc := pagesOf(pdfPath);
      texts, metadatas := AppendPages(texts, metadatas, pdfPath, doc);
      RecordsStep(pdfPathList, pagesOf, i);
      i := i + 1;
    }
    assert pdfPathList[..i] == pdfPathList;
  }
}
