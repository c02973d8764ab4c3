# notebookRAG page ingestion, modelled in Dafny

notebookRAG builds a retrieval index over a folder of interview-notes PDFs.
Before any text reaches the splitter, embedder or vector store,
`src/loader.py` does three things:

- `get_pdf_path` walks the notes directory. It keeps every file whose name
  ends with `.pdf`, joined onto its directory. Its docstring calls these
  absolute paths, but no `abspath` is taken: they are absolute when the
  walked directory is (`PdfPathsAbsolute`), and a relative directory gives
  relative paths, as `GetPdfPathExample` shows with "notes/a.pdf".
- `remove_useless_content` cleans the text of one page. It deletes three
  fixed boilerplate strings in order ("来自： AiGC面试宝典", "宁静致远",
  "知识星球"). Then it deletes every occurrence of the document's *title
  key*. The title key is the file's base name with every ".pdf" removed and
  one leading ordinal (`^\d+[-_.]`) stripped.
- `pdf2documents` opens each PDF and builds two parallel lists, `texts` and
  `metadatas`. They hold one entry per page, in file order and then page
  order. The metadata of a page is the file name in title brackets
  (`《…》`) and the 1-based page number.

The model has three modules:

- `Strings` (`strings.dfy`) holds the parts of Python's `str` the loader
  relies on:
  - `s.replace(pat, "")` is `RemoveAll`: one left-to-right pass over
    non-overlapping occurrences. An empty `pat` leaves the text as it is.
  - `s.count(pat)` is `Count`.
  - "`a` is obtained from `b` by deletions" is `IsSubseq`.
- `Paths` (`paths.dfy`) holds POSIX `os.path.basename` and `os.path.join`.
- `Loader` (`loader.dfy`) holds the loader itself:
  - `RemoveUselessContent`, `GetPdfPath`, `AppendPages` (the per-page inner
    loop of `pdf2documents`) and `Pdf2Documents` are methods with the same
    loops as the source.
  - Each method is proved equal to a specification function: `CleanPage`,
    `PdfPaths`, `FileTexts`/`FileMetas` and `Texts`/`Metas`.
  - The properties the loader promises are lemmas about those functions.

Cleaning makes one `replace` pass per string. A pass can join the text
around a deleted occurrence into a new occurrence, so cleaning does not
guarantee that no boilerplate string or title remains. The model proves
instead:

- cleaning only deletes characters;
- each pass shortens the text by (occurrences found) × (length of the
  string);
- the page is unchanged exactly when nothing occurs.

`BoilerplateMayRemain` exhibits a page where "宁静致远" survives the
boilerplate passes.

## Model

| member | source | states |
|---|---|---|
| Strings.RemoveAllLength | src/loader.py:64-65 | One `replace` pass shortens the text by exactly the number of occurrences it finds times the length of the removed string |
| Strings.RemoveAllDeletes | src/loader.py:64-65 | One `replace` pass only deletes characters: its result is a subsequence of its input |
| Strings.RemoveAllUnchangedIff | src/loader.py:64-65 | A `replace` pass returns the text unchanged if and only if the removed string is empty or does not occur in the text |
| Strings.CountZeroIff | src/loader.py:64-65 | The pass finds no occurrence if and only if the string does not occur anywhere in the text |
| Strings.OccursCounted | src/loader.py:64-65 | If the string occurs somewhere, the pass finds at least one occurrence |
| Strings.CountedOccurs | src/loader.py:64-65 | If the pass counts anything, the removed string occurs in the text at the returned index |
| Strings.RemoveAllIdentity | src/loader.py:64-65 | When the pass finds nothing, the text is returned unchanged |
| Strings.RemoveAllMayLeaveOccurrence | src/loader.py:64-65 | A single pass can leave an occurrence behind: removing "abc" from "ababcc" gives "abc" |
| Paths.BasenameSpec | src/loader.py:68 | `os.path.basename` gives the longest separator-free suffix of the path: no '/' in it, a suffix of the path, and preceded by '/' when shorter than the path |
| Paths.Join | src/loader.py:48 | `os.path.join(root, file)` ends with the file name, and starts with `root` unless the file name is absolute |
| Paths.BasenameOfJoin | src/loader.py:48 | The base name of a file name joined onto any directory is the file name |
| Loader.DigitRunSpec | src/loader.py:68 | The `\d+` part of the ordinal pattern takes the maximal leading run of digits |
| Loader.StripOrdinalSpec | src/loader.py:68 | `re.sub(r'^\d+[-_.]', '', s)` removes exactly the one ordinal prefix the anchored pattern matches, and leaves a name without one unchanged |
| Loader.TitleKeyOfJoin | src/loader.py:68 | The title key of a walked path depends only on the file's own name |
| Loader.RemoveExtension | src/loader.py:68 | Deleting ".pdf" from `stem + ".pdf"` gives back `stem` when `stem` has no ".pdf" of its own |
| Loader.TitleKeyOfNumberedName | src/loader.py:68 | A file "<digits><sep><stem>.pdf", with sep one of `-_.`, has title key `stem`, under any directory; exactly one ordinal is removed |
| Loader.TitleKeyOfPlainName | src/loader.py:68 | A file "<stem>.pdf" with no leading ordinal has title key `stem` |
| Loader.TitleKeyExample | src/loader.py:68 | The source comment's example: "1-大模型（LLMs）基础面.pdf" has title key "大模型（LLMs）基础面" |
| Loader.OneOrdinalExample | src/loader.py:68 | "1-2-x.pdf" has title key "2-x": the anchored pattern is applied once |
| Loader.EmptyTitleKeyExample | src/loader.py:68-69 | "1-.pdf" has an empty title key, and removing an empty key leaves the page unchanged (`Strings.RemoveAllUnchangedIff`) |
| Loader.RemoveEachDeletes | src/loader.py:64-65 | Removing the fixed strings one after the other only deletes characters |
| Loader.RemoveEachUnchanged | src/loader.py:64-65 | Removing non-empty strings in order keeps the length exactly when none of them occurs, and then the text is unchanged |
| Loader.CleanPageDeletes | src/loader.py:59-69 | The cleaned page is a subsequence of the raw page, so it is no longer than the raw page |
| Loader.CleanPageUnchangedIff | src/loader.py:59-69 | A page comes back unchanged if and only if no boilerplate string occurs in it and the title key is empty or does not occur in it |
| Loader.BoilerplateMayRemain | src/loader.py:59-65 | The boilerplate passes turn "宁静宁静致远致远" into "宁静致远": a boilerplate string can survive its single pass |
| Loader.RemoveUselessContent | src/loader.py:51-71 | The cleaning loop returns `CleanPage`: the three fixed strings removed in listed order, then every occurrence of the page's title key |
| Loader.GetPdfPath | src/loader.py:38-49 | The nested walk loop returns `PdfPaths(walk)`: the joined paths of the ".pdf" files, in walk order |
| Loader.PdfFilesInSound | src/loader.py:46-48 | Every path collected in a directory is the join of one of its files whose name ends with ".pdf" |
| Loader.PdfFilesInComplete | src/loader.py:46-48 | Every file of a directory whose name ends with ".pdf" is collected, joined onto the directory |
| Loader.PdfPathsSound | src/loader.py:44-49 | Every returned path is the join of a ".pdf" file of some walk entry onto that entry's directory |
| Loader.PdfPathsComplete | src/loader.py:44-49 | Every ".pdf" file of every walk entry is returned, joined onto its directory |
| Loader.PdfPathsAbsolute | src/loader.py:40-48 | When every walked directory is absolute, every returned path is absolute; the docstring's "absolute paths" holds only then, since the code joins onto the walk's roots without `abspath` |
| Loader.PdfPathsArePdf | src/loader.py:44-49 | Every returned path ends with ".pdf" |
| Loader.PdfPathsAppend | src/loader.py:45-48 | The result for two consecutive parts of a walk is the first part's files followed by the second's, so walk order is kept |
| Loader.PdfSuffixExamples | src/loader.py:47 | `endswith('.pdf')` accepts "a.pdf" and rejects "b.PDF" (case-sensitive) and "c.pdf.txt" (suffix only) |
| Loader.PdfFilesInExample | src/loader.py:46-48 | Of "a.pdf", "b.PDF" and "c.pdf.txt" in directory "notes", only "notes/a.pdf" is collected |
| Loader.GetPdfPathExample | src/loader.py:44-49 | A walk of one directory "notes" holding "a.pdf", "b.PDF" and "c.pdf.txt" yields exactly ["notes/a.pdf"] |
| Loader.DisplayNameOfJoin | src/loader.py:23 | The `file` metadata of a walked path is "《" + the file name with every ".pdf" removed + "》" |
| Loader.FileTextAt | src/loader.py:19-21 | Entry j of a document's texts is the cleaned text of its page j |
| Loader.FileMetaAt | src/loader.py:19-25 | Entry j of a document's metadata carries page number j + 1, so the pages are numbered 1..n |
| Loader.Texts | src/loader.py:16-28 | The `texts` list holds one entry per page of every document |
| Loader.Metas | src/loader.py:16-28 | The `metadatas` list holds one entry per page of every document, as many as `texts` |
| Loader.TextAt | src/loader.py:17-27 | Page j of document f is at index (pages of the earlier documents) + j of `texts`, and holds its cleaned text |
| Loader.MetaAt | src/loader.py:17-28 | Page j of document f is at index (pages of the earlier documents) + j of `metadatas`, and holds the document's display name and page number j + 1 |
| Loader.RecordAt | src/loader.py:16-28 | The same index of `texts` and `metadatas` describes the same page: its cleaned text and its (file, page) metadata |
| Loader.RecordLocate | src/loader.py:16-28 | Every index of the two lists belongs to some page j of some document f, in file order then page order |
| Loader.AppendPages | src/loader.py:19-28 | The page loop appends, for each page in order, its cleaned text to `texts` and `{file, page: index + 1}` to `metadatas` |
| Loader.Pdf2Documents | src/loader.py:15-28 | `pdf2documents` up to the splitter returns `Texts` and `Metas` of the walked PDF paths, two lists of equal length (one entry per page) |

## Left out

- Loader.RemoveUselessContent: the title key is passed to `re.sub` as a regular expression. The model removes it as a literal string, and requires that it contains none of `.^$*+?{}[]\|()` (`IsLiteralPattern`). A name such as "1-a(b.pdf" (key "a(b", an unterminated group) or "1-*x.pdf" (nothing to repeat) makes the source raise `re.error`, and a '.' in the key matches any character. Neither behaviour is modelled.
- Loader.AppendPages: carries the same literal-key precondition as `RemoveUselessContent`.
- Loader.Pdf2Documents: requires every walked PDF to have a literal title key (`AllLiteralTitles`), for the same reason.
- Loader.StripOrdinalSpec: `\d` is modelled as the ASCII digits 0-9. Python's `\d` also matches other Unicode decimal digits, such as full-width "１".
- Paths.Join, Paths.Basename: POSIX paths only, with '/' as the single separator. Windows drive letters and '\' separators are not modelled: on Windows `get_pdf_path` returns "notes\a.pdf" where the model gives "notes/a.pdf". The title key and the display name are the same on both platforms.
- Opening a PDF with `fitz` and `page.get_text()` (src/loader.py:18-20) are foreign library calls. `Pdf2Documents` takes a function `pagesOf` from a path to the text of each page instead. Since `pagesOf` is total, the model assumes every path opens; a PDF that `fitz.open` cannot read raises in the source and aborts the whole `pdf2documents` run.
- `os.walk(directory)` (src/loader.py:45) is file-system I/O. `GetPdfPath` takes the walk as a sequence of (directory, file names) entries in walk order; the `dirs` component is unused by the source.
- The text splitter (src/loader.py:30-35) is library code, so the model stops at the `(texts, metadatas)` pair.
- The `tqdm` progress bar (src/loader.py:17) only reports progress.
- sample_RAG.py (embedding, FAISS, agent orchestration) and src/vectorstore.py are not part of this model: they hand their work to external models and services.
- The inner page loop of `pdf2documents` is written as its own method, `AppendPages`, which `Pdf2Documents` calls once per file. The lists are values threaded through the calls, not one list object updated in place.
