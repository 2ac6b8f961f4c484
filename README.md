# DocuRag ingestion loaders in Dafny

This project models the three loaders of DocuRag's ingestion layer and proves
what each one returns.

- **Markdown** (`Markdown`). `MarkdownLoader.load` scans the file line by
  line. A fence flag flips on every line whose stripped form starts with
  three backticks. A line starting with `#` while the flag is off opens a
  section. Every other non-blank line is stripped and appended, with `"\n"`,
  to the content of the last section. A pseudo-section with title `""` and
  level 0 always comes first.
- **PDF** (`Pdf`). The `PDFLoader` constructor refuses a missing path, then
  a path whose file-name suffix, lower-cased, is not `.pdf`.
  `PDFLoader.load` keeps every page whose text is not blank, with its
  0-based page index and its text unchanged. A document that cannot be
  opened is an error.
- **Code** (`Code`). `CodeLoader.load` builds the outline of a Python file
  in this order: the module-docstring element if one is found, the imports
  element if one is found, then one element per top-level
  `function_definition` or `class_definition` child, in child order.

`Text` models, on a fixed ASCII whitespace set, the Python string builtins
the loaders call: `strip`, `lstrip("#")`, `startswith`, `split` on one
character and `lower`. It also holds `lstrip` and `rstrip`, the two halves
`strip` is built from, and `rfind`, which stands for the search for the last
`.` that `Path.suffix` performs. `Wrappers` holds `Option` and `Result`.

Each loader is a `method` whose loop follows the source. The method is proved
equal to a specification function (`Sections`, `KeptPages`, `Outline`) built
by recursion on a prefix of the input. The lemmas then state the source's
promises about that function.

Things the model takes as parameters:

- the file's text;
- the resolved path (`source`);
- whether the file exists (PDF constructor);
- the opened document, as its page texts or a failure to open (PDF);
- the syntax tree's root node (Code);
- the four `_extract_*` helpers of `CodeLoader`. They are fields of an
  `Extractors` value, and the model does not fix what they return.

The code behaves as follows where a reader might expect otherwise:

- The Markdown level is the length of the line up to its first space, not
  the number of `#` characters. `"#A"` has level 2.
- The fence test looks at the stripped line, so an indented fence counts
  too.
- The title is the line with its leading `#` run removed, then stripped. It
  can still start with `#`: `"# #x"` gives `"#x"`.
- Each content line is followed by `"\n"`. Lines are not joined with
  newlines.
- Fence lines and indented `#` lines land in the content, as the code does.

## Model

| member | source | states |
|---|---|---|
| `Markdown.Load` | src/ingestion/markdown_loader.py:18-43 | the loop over `split("\n")` returns exactly `Sections(text, source)`, the scan defined by prefix recursion |
| `Markdown.ScanLine` | src/ingestion/markdown_loader.py:26-40 | one loop iteration on a line is one `Step` of the scan on that line's view: the fence toggle first, then the heading test, then the content branch |
| `Markdown.RunPreamble` | src/ingestion/markdown_loader.py:24 | the result is never empty, and its first entry has title "", level 0 and the file's source |
| `Markdown.StepKeepsFirst` | src/ingestion/markdown_loader.py:24-40 | no iteration removes the first section or changes its title, level or source |
| `Markdown.RunHeadings` | src/ingestion/markdown_loader.py:25-37 | there are 1 + (number of `#` lines seen while the fence flag is off) sections, and section j+1 carries the title and level of the j-th such line |
| `Markdown.RunFence` | src/ingestion/markdown_loader.py:22-27 | after any prefix of lines, the fence flag is on exactly when an odd number of fence lines has been seen |
| `Markdown.RunContent` | src/ingestion/markdown_loader.py:39-40 | the contents of all sections, concatenated, are the stripped non-heading non-blank lines in order, each followed by "\n" |
| `Markdown.RunSource` | src/ingestion/markdown_loader.py:35 | every section carries the same source string |
| `Markdown.SectionsSummary` | src/ingestion/markdown_loader.py:18-43 | for any text: the number of sections, the pseudo-section first, content conservation, and one source for all |
| `Markdown.StepBlank` | src/ingestion/markdown_loader.py:39 | a blank or whitespace-only line changes nothing, neither the sections nor the fence flag |
| `Markdown.HashLineIsNoFence` | src/ingestion/markdown_loader.py:26-29 | a line starting with `#` never satisfies `IsFenceLine` and is never blank |
| `Markdown.StepFencedHash` | src/ingestion/markdown_loader.py:26-29 | the flag is flipped before the heading test, so inside a fence a `#` line is appended, stripped, to the last section and the fence stays on |
| `Markdown.StepContentLine` | src/ingestion/markdown_loader.py:39-40 | a non-blank line that is not a heading appends exactly `strip(line) + "\n"` to the last section and leaves all earlier sections as they were |
| `Markdown.StepIndentedHeading` | src/ingestion/markdown_loader.py:29 | an indented `  # x` line is content: it is appended to the last section and opens no section |
| `Markdown.StepFenceLine` | src/ingestion/markdown_loader.py:26-27 | a line for which `IsFenceLine` holds (`l.strip().startswith("```")`) flips the flag and its stripped form is appended to the last section's content |
| `Markdown.StepHeading` | src/ingestion/markdown_loader.py:29-37 | a `#` line outside a fence adds one section at the end: its content is empty, its source is the file's, its level is `Level(l)`, the length of `l.split(" ")[0]`, hence at least 1, its title is `Title(l)`, the line after `lstrip("#")` and then `strip()`, and that title has no whitespace at either end; earlier sections are unchanged |
| `Markdown.LevelOfHeading` | src/ingestion/markdown_loader.py:33 | `Level`, the length of `l.split(" ")[0]`, is the index of the first space in the line (the length of the line if there is none), so it is at least 1 for a `#` line |
| `Markdown.LevelCountsHashesIff` | src/ingestion/markdown_loader.py:33 | the level equals the number of leading `#` exactly when that run is followed by a space or ends the line |
| `Markdown.LevelOfUnspacedHeading` | src/ingestion/markdown_loader.py:33 | `"#A"` gets level 2 |
| `Markdown.TitleNoLeadingHash` | src/ingestion/markdown_loader.py:32 | when the character after the leading `#` run is not whitespace, `Title` (`l.lstrip("#").strip()`) does not start with `#` |
| `Markdown.TitleMayStartWithHash` | src/ingestion/markdown_loader.py:32 | `"# #x"` has the title `"#x"`, so a title can start with `#` |
| `Text.StripEmptyIff` | src/ingestion/markdown_loader.py:39 | `strip()` returns "" exactly when the string is all whitespace, the truth test the loaders apply to a stripped line or page |
| `Text.StripEnds` | src/ingestion/markdown_loader.py:32 | the result of `strip()` neither starts nor ends with whitespace |
| `Text.StripKeepsFirst` | src/ingestion/markdown_loader.py:26 | a first character that is not whitespace is still the first character after `strip()` |
| `Text.RStripSpec` | src/ingestion/markdown_loader.py:32 | `rstrip()` keeps a prefix, drops an all-whitespace suffix, and ends on a non-whitespace character |
| `Text.JoinSplit` | src/ingestion/markdown_loader.py:25 | joining the pieces of `split(sep)` with `sep` gives back the text, so no character is lost between lines |
| `Text.SplitPiecesFree` | src/ingestion/markdown_loader.py:25 | no piece of `split(sep)` contains `sep` |
| `Text.LastIndexOf` | src/ingestion/pdf_loader.py:14 | `rfind` returns -1 or the index of an occurrence with no later occurrence |
| `Text.Lower` | src/ingestion/pdf_loader.py:14 | `lower()` keeps the length and lowers each character |
| `Pdf.NewLoader` | src/ingestion/pdf_loader.py:10-15 | the constructor succeeds exactly when the file exists and has a `.pdf` suffix in some letter case; a missing file is FileNotFound before the suffix test, and an existing file with another suffix is NotAPdf |
| `Pdf.PdfSuffixIff` | src/ingestion/pdf_loader.py:14 | `HasPdfSuffix(path)` is `Lower(Suffix(FileName(path))) == ".pdf"`, the test `path.suffix.lower() != ".pdf"` negated; `Suffix` is `Path.suffix`, the text from the last `.` when that dot is neither the first nor the last character. A file name passes the test exactly when it has at least five characters and its last four, lower-cased, are `.pdf` |
| `Pdf.FileNameHasNoSlash` | src/ingestion/pdf_loader.py:14 | `FileName`, pathlib's `Path.name` (the last component other than "" and "."), has no `/` |
| `Pdf.FileNameOfPlainName` | src/ingestion/pdf_loader.py:14 | a name without `/` (other than "" and ".") is its own file name |
| `Pdf.AcceptsUpperCaseSuffix` | tests/test_ingestion.py:27-31 | `test.PDF` passes the suffix test |
| `Pdf.RejectsTextFile` | tests/test_ingestion.py:15-19 | `file.txt` fails the suffix test |
| `Pdf.RejectsBareSuffix` | src/ingestion/pdf_loader.py:14 | `.pdf` alone fails it, since a leading dot does not start a suffix |
| `Pdf.AcceptsExistingUpperCasePdf` | tests/test_ingestion.py:27-31 | an existing `test.PDF` gives a loader for that path |
| `Pdf.RefusesExistingTextFile` | tests/test_ingestion.py:15-19 | an existing `file.txt` is refused as NotAPdf |
| `Pdf.Load` | src/ingestion/pdf_loader.py:18-43 | a document that cannot be opened gives OpenFailed for the loader's path and no records; otherwise the loop returns exactly `KeptPages` of the page texts |
| `Pdf.KeptPagesMember` | src/ingestion/pdf_loader.py:27-37 | a record is in the output exactly when its page number is a page index, its text is that page's text unchanged, its source is the loader's, and that text is not blank |
| `Pdf.KeptPagesOrdered` | src/ingestion/pdf_loader.py:27-35 | page numbers are below the page count and strictly increasing, and each text is its page's text |
| `Pdf.KeptPagesLength` | src/ingestion/pdf_loader.py:27-37 | there are never more records than pages |
| `Pdf.KeptPagesEmptyIff` | src/ingestion/pdf_loader.py:31-43 | the output is empty exactly when every page is blank |
| `Pdf.SkipsTrailingBlankPage` | tests/test_ingestion.py:64-83 | pages `["Content here", "   \n  "]` give one record, for page 0 with its text |
| `Pdf.KeepsAllTextPages` | tests/test_ingestion.py:86-107 | pages `["Page one", "Page two", "Page three"]` give three records numbered 0, 1 and 2 with those texts |
| `Pdf.SkipsBlankPage` | src/ingestion/pdf_loader.py:27-37 | pages `["Content here", "   \n  ", "Page three"]` give the records for pages 0 and 2 only, so a skipped page leaves a gap in the numbering |
| `Code.Load` | src/ingestion/code_loader.py:23-43 | the conditional appends and the loop over the root's children return exactly `Outline`: the docstring helper's element when it finds one (nothing otherwise), the imports helper's element likewise, then the definition pass |
| `Code.DocstringFirst` | src/ingestion/code_loader.py:26-28 | a module-docstring element, when one is found, is at index 0 |
| `Code.ImportsBeforeDefinitions` | src/ingestion/code_loader.py:31-40 | the single imports element comes right after the docstring, if any, and only definition elements follow it |
| `Code.DefinitionsLast` | src/ingestion/code_loader.py:36-40 | the definition elements fill the end of the list, after the optional docstring and imports elements |
| `Code.DefinitionsLength` | src/ingestion/code_loader.py:36-40 | there is exactly one element per `function_definition` or `class_definition` child |
| `Code.DefinitionAt` | src/ingestion/code_loader.py:36-40 | the k-th child, if it is a definition, gives its helper's element at the position that counts the definitions before it, so elements follow child order |
| `Code.DefinitionsAppend` | src/ingestion/code_loader.py:36-40 | the definition pass over two runs of children is the two passes, concatenated |
| `Code.OtherKindsContributeNothing` | src/ingestion/code_loader.py:36-40 | a child of any other kind adds no element |
| `Code.OutlineLength` | src/ingestion/code_loader.py:23-40 | the length is [docstring found] + [imports found] + the number of definition children |
| `Code.EmptyFile` | tests/test_code_loader.py:282-288 | a tree with no children, no docstring and no imports gives the empty list |
| `Code.SampleModuleOrder` | tests/test_code_loader.py:311-319 | a docstring statement, two imports, a function and a class give `[docstring, imports, function, class]` |
| `Code.LoadAsWritten` | src/ingestion/code_loader.py:20-26 | as written, every call fails with a NameError on `source_code`, whatever the file and the tree; this assumes the four `_extract_*` helpers exist |
| `Code.EmptyFileAsWritten` | tests/test_code_loader.py:282-288 | on the empty file the code as written fails, while the corrected loader returns `[]` |

## Left out

- Opening and reading files, `Path.exists`, `Path.resolve` and logging are I/O. The text, the resolved path and the existence test are parameters. The `MarkdownLoader` constructor only tests existence, so it is not modelled. The `CodeLoader` constructor tests existence and then builds `Parser(PY_LANGUAGE)` (src/ingestion/code_loader.py:16), a foreign-library call; it is not modelled either.
- tree-sitter parsing and the `PY_LANGUAGE` grammar are a foreign library. The root node is a parameter.
- The four `_extract_*` helpers are called but not defined in src/ingestion/code_loader.py, so the model takes them as uninterpreted parameters. An empty `dict` returned by a helper would be falsy in Python; the model treats every element a helper returns as found.
- `fitz.open`, `page.get_text` and `doc.close` belong to a foreign PDF library. The document's page texts, or a failure to open, are a parameter. Closing the document has no modelled effect.
- The log-and-raise path of `PDFLoader.load` is modelled as a `Failure` value. Its three logger calls (src/ingestion/pdf_loader.py:24, 41, 42) and the one in `CodeLoader.load` (src/ingestion/code_loader.py:42) are not modelled.
- Python's Unicode-aware `str.strip`, `str.split` and `str.lower` are modelled on ASCII only. The whitespace set is space, tab to carriage return, and 0x1C to 0x1F. Case folding covers `A`–`Z`.
- `Path.name` is modelled for POSIX paths with `/` separators only, not Windows paths.
- `src/ingestion/schemas.py` (uuid5 chunk identifiers, pydantic records) and `src/config.py` (settings constants) are not part of this model.
- The `__main__` blocks and the hard-coded path in `markdown_loader.py` are not modelled.
- Markdown.StepHeading: does not promise that the title has no leading `#`, because the code does not ensure it: `"# #x"` gives `"#x"` (see `Markdown.TitleMayStartWithHash`). `Markdown.TitleNoLeadingHash` states when the promise does hold.
- No lemma runs the Markdown loader on a literal multi-line text such as `"intro\n# Title\nbody\n"`. Evaluating `split` and `strip` on literal strings costs the verifier too much. The per-line lemmas `StepContentLine`, `StepHeading` and `StepBlank` cover each of its lines.

## Findings

| source | as written | input that shows it | evidently intended | confidence | as-written member | corrected member |
|---|---|---|---|---|---|---|
| src/ingestion/code_loader.py:26 | the text is read into `source` (line 20), but lines 26, 31, 38 and 40 pass `source_code`, which is bound nowhere, so every call raises NameError, provided the four `_extract_*` helpers exist; the class as given defines none of them, so Python would first raise AttributeError on `self._extract_module_docstring` | any file, for example the empty file, where a result of `[]` is expected | pass `source` to the four helpers | not executed | `Code.LoadAsWritten` | `Code.Load` |
