# gpt4docs docstring engine, modelled in Dafny

gpt4docs reads the Python files of a project. It finds every `def` and
`class` header and the docstring that follows it, lets a caller replace
those docstrings, and writes each file back with the new docstrings in
place. The project contains two generations of that engine, and this
model covers both:

- **gpt4docs** (`File`, `PyDefinition`). It scans a file with one
  multi-line regular expression and re-locates each definition with a
  second one. It writes the docstring with its delimiters added and
  indented four columns deeper than the header.
- **autodocs** (`File`), the older package. It scans with an index-driven
  loop over `readlines()` that records 1-based docstring line numbers. It
  writes with two regular expressions at a fixed four-space indent:
  `pattern_existing_doc` under `re.DOTALL`, and `pattern_no_doc` without
  flags.

It also covers the project aggregator (`Project`): how files are keyed by
their path relative to the project root, where `save` puts each file, and
the directory tree `__str__` prints.

The regular expressions are not run through a regex engine. Each one is
restated as explicit recognisers. For gpt4docs, which works on
`split("\n")` lines, the recognisers work line by line. For autodocs they
work on `readlines()` lines or on the raw text, depending on which of the
two the source works on.

The modules are:

- `Wrappers`: `Option`, `Result` and the two exceptions, `KeyError` and
  `ValueError`.
- `Strings`: `split`, `join`, `strip`, `readlines` lines and the character
  classes.
- `PyDefinition`, `DefinitionTable`: the record and the insertion-ordered
  dict.
- `DocScan`, `DocWrite`, `DocFile`: the gpt4docs file engine.
- `AutodocsScan`, `AutodocsWrite`, `AutodocsFile`: the autodocs file
  engine.
- `DocProject`: the project aggregator.

Each operation that mutates state or loops in the source is a method with
loop invariants, proved against a function that specifies it. These are:

- `ScanForDefinitions`, `HandleIndentation` and `Save` in gpt4docs;
- `ScanForDocumentation` with `GatherDocstring`, `ScanLine` and
  `ReadDefinition` in autodocs;
- the `Project` constructor and `Save`.

The classes `DocFile.File`, `AutodocsFile.File` and `DocProject.Project`
hold the mutable definition tables and the file map.

## Model

| member | source | states |
|---|---|---|
| PyDefinition.Keyword | gpt4docs/modules/datamodels/PyDefinition.py:6-8 | the kind is `Function` exactly when the keyword is `def` and `Class` exactly when it is `class` |
| PyDefinition.KindOf | gpt4docs/modules/datamodels/PyDefinition.py:6-8 | a keyword names a kind exactly when it is `def` or `class`, and then `Keyword` gives it back |
| PyDefinition.KindKeywordRoundTrip | gpt4docs/modules/datamodels/PyDefinition.py:6-8 | reading the keyword of a kind gives the kind back |
| PyDefinition.Delimit | gpt4docs/modules/datamodels/PyDefinition.py:23-26 | the result starts and ends with `"""`; a value with both delimiters is unchanged, one with neither becomes `"""\n` + value + `\n"""`, and each half-delimited case gets the missing side only |
| PyDefinition.FullDocstring | gpt4docs/modules/datamodels/PyDefinition.py:16-28 | absent exactly when the docstring is absent, and otherwise the delimited docstring |
| PyDefinition.DelimitIdempotent | gpt4docs/modules/datamodels/PyDefinition.py:23-28 | delimiting twice is delimiting once |
| DefinitionTable.Empty | gpt4docs/modules/directory/File.py:50 | the empty dict is well formed, with no keys |
| DefinitionTable.Put | gpt4docs/modules/directory/File.py:54-58 | `d[key] = value`: the value is stored; an existing key keeps its place, a new key goes last, and the keys stay distinct |
| DefinitionTable.Values | gpt4docs/modules/directory/File.py:126 | `values()` lists one value per key, in key order |
| DefinitionTable.FromSeqKeys | gpt4docs/modules/directory/File.py:53-58 | filling a dict from a sequence of definitions gives exactly one key per distinct name |
| DefinitionTable.FromSeqLastWins | gpt4docs/modules/directory/File.py:53-58 | under every key lies the last definition with that name |
| Strings.Split | gpt4docs/modules/directory/File.py:68 | `split("\n")` yields at least one piece, and no piece holds a newline |
| Strings.JoinSplit | gpt4docs/modules/directory/File.py:68 | joining the pieces of a split gives the text back |
| Strings.SplitJoin | gpt4docs/modules/directory/File.py:83 | splitting the join of newline-free lines gives the lines back |
| Strings.LStripSpec | autodocs/File.py:59 | `lstrip()` keeps a suffix after a blank prefix that does not start with whitespace |
| Strings.RStripSpec | autodocs/File.py:59 | `rstrip()` keeps a prefix before a blank suffix that does not end with whitespace |
| Strings.StripSpec | autodocs/File.py:59 | `strip()` keeps the text between a blank prefix and a blank suffix, neither starting nor ending with whitespace |
| Strings.StripQuoted | autodocs/File.py:59 | stripping a triple-quoted text between blank runs keeps exactly the quoted text |
| Strings.FindTQ | gpt4docs/modules/directory/File.py:19 | the first column at or after `from` where `"""` starts, or none |
| DocScan.LastToken | gpt4docs/modules/directory/File.py:19 | the greedy `^.*\b(def\|class)\b ` picks the last header token on the line, or none exists |
| DocScan.HeaderEnd | gpt4docs/modules/directory/File.py:19 | `[\s\S]*?:$` ends at the first line from the header on that ends in `:`, or none does |
| DocScan.HeaderAt | gpt4docs/modules/directory/File.py:19 | a header is recognised exactly when the line has a token and a colon line follows; its kind is the token's and its name is made of word characters |
| DocScan.SkipEmpty | gpt4docs/modules/directory/File.py:19 | `\n*` skips exactly the empty lines, stopping at the first non-empty one |
| DocScan.FindClose | gpt4docs/modules/directory/File.py:19 | `[\s\S]*?"""` stops at the first triple quote from the given column on, or none follows |
| DocScan.FindDocBlock | gpt4docs/modules/directory/File.py:19 | a docstring block opens on the first non-empty line after the header, right after its leading spaces, and closes at the next `"""`; otherwise there is none |
| DocScan.FoundBlockIn | gpt4docs/modules/directory/File.py:19 | a found block lies inside the text, after the header |
| DocScan.FoundAtSpec | gpt4docs/modules/directory/File.py:19 | a match starts on a line exactly when a header is recognised there; its docstring is present exactly when a block follows, and is the block's interior |
| DocScan.Candidates | gpt4docs/modules/directory/File.py:53 | one possible match per line, each for its own line and ending inside the text |
| DocScan.MatchesFromSound | gpt4docs/modules/directory/File.py:53 | every match `finditer` yields is the match of its own line |
| DocScan.MatchesFromOrdered | gpt4docs/modules/directory/File.py:53 | the matches come in text order and do not overlap |
| DocScan.MatchesFromComplete | gpt4docs/modules/directory/File.py:53 | every line with a header that no earlier match swallowed starts a match |
| DocScan.MatchesSpec | gpt4docs/modules/directory/File.py:53 | the matches of a whole text are sound, ordered and complete |
| DocScan.DefinitionsOf | gpt4docs/modules/directory/File.py:54-58 | one definition per match, with the match's kind, name and docstring |
| DocScan.CollectKeys | gpt4docs/modules/directory/File.py:50-59 | the table has exactly one key per name some match carries |
| DocScan.CollectLastWins | gpt4docs/modules/directory/File.py:50-59 | each key holds the definition of the last match with that name |
| DocScan.ScanDefsKeys | gpt4docs/modules/directory/File.py:47-59 | the scan of a text has a key exactly for each header name matched |
| DocScan.ScanDefsLastWins | gpt4docs/modules/directory/File.py:47-59 | a later header with the same name overwrites the earlier entry |
| DocScan.ScanForDefinitions | gpt4docs/modules/directory/File.py:47-59 | the loop filling the dict computes the scan of the text |
| DocWrite.IndentWidth | gpt4docs/modules/directory/File.py:62-64 | the width is 4 plus the leading spaces of the header line |
| DocWrite.IndentLineSpec | gpt4docs/modules/directory/File.py:68-81 | a blank line becomes `""`, a line already indented by the width is kept, any other line gets exactly the width in spaces in front |
| DocWrite.IndentLineIdempotent | gpt4docs/modules/directory/File.py:68-81 | indenting a line twice is indenting it once |
| DocWrite.IndentLineNoNewline | gpt4docs/modules/directory/File.py:68-81 | indenting creates no newline |
| DocWrite.IndentBlock | gpt4docs/modules/directory/File.py:67-83 | one indented line per line of the full docstring, in order |
| DocWrite.IndentBlockIdempotent | gpt4docs/modules/directory/File.py:67-83 | indenting a docstring twice is indenting it once |
| DocWrite.IndentBlockNoNewlines | gpt4docs/modules/directory/File.py:67-83 | the indented lines stay free of newlines |
| DocWrite.HandleIndentation | gpt4docs/modules/directory/File.py:61-83 | the loop's joined result splits back into exactly the indented lines, one per original line |
| DocWrite.NamedTokenFromSpec | gpt4docs/modules/directory/File.py:22-23 | the search for `\b<type>\b <name>` from a column succeeds exactly when it occurs there or later |
| DocWrite.HasNamedTokenSpec | gpt4docs/modules/directory/File.py:22-23 | a line holds the named header token exactly when it occurs at some column |
| DocWrite.FindNamed | gpt4docs/modules/directory/File.py:92-97 | `re.search` with the specific pattern finds the first line that starts a match, or none exists |
| DocWrite.FindNamedFirst | gpt4docs/modules/directory/File.py:92-97 | the first matching line is what the search returns |
| DocWrite.RestFrom | gpt4docs/modules/directory/File.py:23 | what `\n*` leaves: the lines from the first non-empty one on, or a single empty line when only empty lines remain |
| DocWrite.RestAfter | gpt4docs/modules/directory/File.py:24 | what follows a docstring block and the empty lines after it, including text after the closing quotes on their line |
| DocWrite.Following | gpt4docs/modules/directory/File.py:22-25 | the text after the whole match: after the block when there is one, otherwise after the empty lines that follow the header |
| DocWrite.WriteDocstring | gpt4docs/modules/directory/File.py:88-103 | the text is returned unchanged when the docstring is `None` and when no header matches |
| DocWrite.WriteDocstringAt | gpt4docs/modules/directory/File.py:97-111 | on a match at a line, the result is the rewrite there with the full docstring |
| DocWrite.InsertText | gpt4docs/modules/directory/File.py:105-111 | as text: the header, `\n`, the indented full docstring, `\n`, one more `\n` for a class, then what followed the old block; the empty lines and the old block are gone |
| DocWrite.InsertKeepsHeader | gpt4docs/modules/directory/File.py:105-111 | the rewrite keeps every line through the header, so the same header is found again at the same line |
| DocWrite.InsertFollowing | gpt4docs/modules/directory/File.py:22-25 | the block the rewrite wrote is recognised as the docstring block, and what follows it is what followed the old one |
| DocWrite.WriteDocstringIdempotent | gpt4docs/modules/directory/File.py:85-113 | when the full docstring holds only its own two triple quotes, writing it twice gives the same lines as writing it once |
| DocWrite.DelimitPlain | gpt4docs/modules/datamodels/PyDefinition.py:23-26 | a value with no `"` is delimited as `"""\n` + value + `\n"""` |
| DocWrite.PlainLines | gpt4docs/modules/datamodels/PyDefinition.py:23-26 | such a value's full docstring splits into a `"""` line, its own lines and a `"""` line |
| DocWrite.PlainQuotedOnce | gpt4docs/modules/datamodels/PyDefinition.py:23-26 | such a full docstring holds exactly its two delimiting triple quotes |
| DocWrite.WritePlainIdempotent | gpt4docs/modules/directory/File.py:85-113 | writing a docstring with no `"` twice gives the same lines as writing it once |
| DocWrite.WriteDocstringNoNewlines | gpt4docs/modules/directory/File.py:105-111 | the rewrite keeps the text a list of newline-free lines |
| DocFile.RenderOnLines | gpt4docs/modules/directory/File.py:124-127 | threading the text through each definition in turn equals threading its lines and joining once |
| DocFile.RenderUndocumented | gpt4docs/modules/directory/File.py:88-89 | definitions without a docstring leave the text as it was |
| DocFile.RenderOnceIdempotent | gpt4docs/modules/directory/File.py:124-127 | rendering one definition whose docstring holds no `"` a second time changes nothing |
| DocFile.SaveTarget | gpt4docs/modules/directory/File.py:129-132 | overwriting targets the file's own path; otherwise the given path, and `ValueError("Path must be specified if overwrite is False")` when there is none |
| DocFile.WithDocstring | gpt4docs/modules/directory/File.py:115-117 | only the named entry's docstring changes; keys, order, kind and name are kept |
| DocFile.File.constructor | gpt4docs/modules/directory/File.py:27-35 | the file holds its path, its content and the scan of that content |
| DocFile.File.OriginalDefinitions | gpt4docs/modules/directory/File.py:140-141 | `original_definitions` is the same mapping as `definitions` |
| DocFile.File.SetDocstring | gpt4docs/modules/directory/File.py:115-117 | a missing name fails with `KeyError` and changes nothing; otherwise only that docstring changes, and the change shows through `original_definitions` too |
| DocFile.File.SetDefinition | gpt4docs/modules/directory/File.py:119-120 | the entry for the name becomes the definition, and every other entry is unchanged |
| DocFile.File.Save | gpt4docs/modules/directory/File.py:122-135 | the written text is the content threaded through `_write_docstring` for each definition in key order; the target path and the `ValueError` are as `SaveTarget` says |
| DocFile.RerenderRewraps | gpt4docs/modules/directory/File.py:122-127 | saving `def f():\n    """text"""\n    pass\n` with the definitions its own scan found writes the docstring back over three lines, `"""`, `text`, `"""`, so the text changes |
| AutodocsScan.ReadLines | autodocs/File.py:28-29 | `readlines()` gives non-empty lines that concatenate to the text, each ending with its only newline except perhaps the last |
| AutodocsScan.ReadLinesPrefix | autodocs/File.py:28-29 | reading peels a terminated line off the front of the text |
| AutodocsScan.ReadLinesConcat | autodocs/File.py:28-29 | reading the concatenation of terminated lines gives those lines back |
| AutodocsScan.KeywordAt | autodocs/File.py:32 | the alternation `(def\|class)` matches at an index exactly when one of the two keywords occurs there |
| AutodocsScan.DefLineShape | autodocs/File.py:32 | what the recogniser captures is a match of `^\s*(def\|class)\s+(\w+)\b` |
| AutodocsScan.ShapeDefLine | autodocs/File.py:32 | every match of the expression is captured by the recogniser |
| AutodocsScan.DefLineSpec | autodocs/File.py:32 | the recogniser captures exactly the kind and name the regular expression matches |
| AutodocsScan.DocStartSpec | autodocs/File.py:33 | `^\s*"""` matches exactly when a whitespace prefix is followed by `"""` |
| AutodocsScan.EndMatchLine | autodocs/File.py:34 | on a `readlines` line, `.*"""[\n?]$` matches exactly when the line ends with `"""\n`, `"""?` or `"""?\n` |
| AutodocsScan.EndsQuoted | autodocs/File.py:34 | a line ending with `"""` and its newline closes a docstring |
| AutodocsScan.EndsAtWhole | autodocs/File.py:34 | the match covering the whole line: it ends with `"""\n` or `"""?` |
| AutodocsScan.EndsAtBeforeNewline | autodocs/File.py:34 | the match stopping before the final newline: the line ends with `"""?\n` |
| AutodocsScan.FirstEndSpec | autodocs/File.py:54-56 | no line before the one the inner loop stops at closes the docstring |
| AutodocsScan.FirstEndUnique | autodocs/File.py:54-56 | the inner loop stops at the only line that closes the docstring with none closing it earlier |
| AutodocsScan.EntryAt | autodocs/File.py:40-70 | a pass records something exactly on a header line, and always moves the loop forward |
| AutodocsScan.EntryAtHeader | autodocs/File.py:42-69 | the record has the header's kind and name; docstring, start line and end line are all present or all absent, present exactly when the next line opens with `"""`; without one the loop goes on from the next line |
| AutodocsScan.DocumentedLines | autodocs/File.py:47-60 | with a docstring, the start is the header index plus 2 and the end is never before it; an opening line that closes itself gives start equal to end; the loop goes on after the end |
| AutodocsScan.DocumentedText | autodocs/File.py:50-59 | the docstring is the `strip()` of the concatenated lines from the opening line through the closing one, quotes included |
| AutodocsScan.EntryAtDocumented | autodocs/File.py:47-69 | the documented record, stated on what the inner loop leaves |
| AutodocsScan.EntryAtUndocumented | autodocs/File.py:43-46 | without an opening line after the header, the docstring and both line numbers are `None` |
| AutodocsScan.EntriesSound | autodocs/File.py:39-70 | every recorded entry is what the pass at its header line records |
| AutodocsScan.EntriesOrdered | autodocs/File.py:39-70 | entries come in line order, each at or after where the previous pass let the loop go on |
| AutodocsScan.EntriesAdvance | autodocs/File.py:70 | every pass moves the index strictly forward |
| AutodocsScan.EntriesSkipDocstrings | autodocs/File.py:54-56 | lines consumed as part of a docstring are never examined as headers |
| AutodocsScan.EntriesComplete | autodocs/File.py:39-42 | every header line not consumed by a docstring is recorded |
| AutodocsScan.PutAllKeys | autodocs/File.py:62-69 | the keys are the start table's plus the recorded names, and other values are kept |
| AutodocsScan.PutAllLastWins | autodocs/File.py:62-69 | the last entry with a name is the one the table keeps |
| AutodocsScan.ScanKeys | autodocs/File.py:37-72 | one key per recorded name, each the name on some header line of the file |
| AutodocsScan.ScanLastWins | autodocs/File.py:62-69 | a later duplicate overwrites the earlier record |
| AutodocsScan.GatherDocstring | autodocs/File.py:50-58 | the inner loop gathers the lines from the opening line through the first closing one, or to the end when none closes |
| AutodocsScan.ReadDefinition | autodocs/File.py:42-69 | the body of the outer loop at a header computes exactly the record of that pass and where the loop goes on |
| AutodocsScan.ScanLine | autodocs/File.py:40-70 | one pass keeps the table valid, moves the index forward and preserves what the remaining passes will produce |
| AutodocsScan.RecordDefinition | autodocs/File.py:41-69 | a pass at a header records its definition under its name |
| AutodocsScan.SkipStep | autodocs/File.py:41-70 | a pass at any other line records nothing |
| AutodocsScan.ScanForDocumentation | autodocs/File.py:26-72 | the index-driven loop computes the scan of the lines |
| AutodocsWrite.BlockCloseSpec | autodocs/File.py:81 | `\n\s*"""(?P<existing_doc>.*?)"""\n` after a colon matches exactly up to where the block check says |
| AutodocsWrite.FindCloseSpec | autodocs/File.py:81 | the lazy interior stops at the first `"""\n` |
| AutodocsWrite.ExistingFromFirst | autodocs/File.py:80-86 | the lazy DOTALL `.*?:` stops at the first colon from which the docstring part matches |
| AutodocsWrite.ExistingSearchFirst | autodocs/File.py:86 | `re.search` with the first pattern finds the leftmost start, and for it the first colon that works |
| AutodocsWrite.ExistingSearchNone | autodocs/File.py:86 | when the search fails, the first pattern matches nowhere |
| AutodocsWrite.LineColonFromSpec | autodocs/File.py:84 | the lazy `.*?:\n`, without DOTALL, finds the colon that ends the current line, if it is one |
| AutodocsWrite.NoDocSearchFirst | autodocs/File.py:84-91 | the second pattern's search finds its leftmost match, or the pattern matches nowhere |
| AutodocsWrite.WriteExisting | autodocs/File.py:86-88 | with a docstring block after a header colon, the leftmost such match is rewritten: the text through the colon, the new block, then the text after the old block |
| AutodocsWrite.WriteInsert | autodocs/File.py:89-91 | with no block anywhere, a block is inserted after the leftmost header line ending in `:` and the rest is kept |
| AutodocsWrite.WriteUnmatched | autodocs/File.py:86-93 | when neither pattern matches, the text is returned unchanged |
| AutodocsWrite.WriteNoHeader | autodocs/File.py:79-93 | a text in which `<type> <name>` never occurs is unchanged |
| AutodocsWrite.WriteEmitsBlock | autodocs/File.py:86-93 | whenever a pattern matches, the result keeps the text through a colon after `<type> <name>` and puts `\n    """<docstring>"""\n` right after it |
| AutodocsWrite.WriteReplacesNext | autodocs/File.py:79-88 | a header whose next lines hold a docstring block gets that block replaced, and all the text after it is kept |
| AutodocsWrite.TestWrite | tests/test_File.py:54-67 | on the test's text, `test_func`'s docstring becomes `"""New docstring"""` and `pass` stays |
| AutodocsWrite.WriteCrossesDefinitions | autodocs/File.py:79-88 | as written: after a header without a docstring, the new docstring replaces that of the next definition that has one |
| AutodocsWrite.WriteCrossesExample | autodocs/File.py:79-88 | on `def a():` / `pass` / `def b():` / `"""b"""`, `a`'s docstring lands under `def b():` |
| AutodocsWrite.HeaderSearchFirst | autodocs/File.py:80-84 | the corrected search finds the leftmost header together with its own colon |
| AutodocsWrite.WriteFixedSpec | autodocs/File.py:78-93 | the corrected writer rewrites at the leftmost header's own colon: it replaces the block right after it, or inserts one there, and keeps the rest |
| AutodocsWrite.WriteFixedAgrees | autodocs/File.py:86-88 | where the header's own colon is followed by a docstring block, the corrected writer agrees with the one as written |
| AutodocsWrite.WriteFixedInserts | autodocs/File.py:89-91 | the corrected writer inserts the block right after a header without a docstring, keeping the body and every later docstring |
| AutodocsWrite.WriteFixedReplacesNext | autodocs/File.py:79-88 | the corrected writer replaces a block that follows the header, like the one as written |
| AutodocsWrite.WriteFixedExample | autodocs/File.py:79-88 | on the finding's text, the corrected writer gives `a` its docstring and keeps `b`'s |
| AutodocsWrite.TestWriteFixed | tests/test_File.py:54-67 | the write test holds for the corrected writer |
| AutodocsFile.WithDocumentation | autodocs/File.py:95-97 | only the named entry's docstring changes |
| AutodocsFile.File.constructor | autodocs/File.py:14-20 | the file holds its path, its content and the scan of the content's lines |
| AutodocsFile.File.Documentation | autodocs/File.py:109-113 | `get_docs` and `get_original_docs` return the one mapping |
| AutodocsFile.File.SetDocumentation | autodocs/File.py:95-97 | a missing name fails with `KeyError` and changes nothing; otherwise only that docstring changes |
| AutodocsFile.File.Save | autodocs/File.py:99-107 | the written path is the file's own, and the text is the content threaded through the writer for each definition in key order |
| AutodocsFile.TestScan | tests/test_File.py:18-23 | scanning the write test's lines records `test_func` as a `def` with docstring `"""This is a test function"""`, starting and ending on line 2 |
| AutodocsFile.TestSetAndSave | tests/test_File.py:54-67 | reading the test file, setting `test_func`'s docstring to `New docstring` and saving gives the expected text |
| DocProject.StrInjective | gpt4docs/modules/directory/Project.py:63 | `str()` of paths is one-to-one on non-empty paths of well-formed segments |
| DocProject.RelativeTo | gpt4docs/modules/directory/Project.py:63 | `relative_to` succeeds exactly when the root is a prefix, and the root plus the result is the path; otherwise `ValueError` |
| DocProject.KeyInjective | gpt4docs/modules/directory/Project.py:14-17 | files strictly under the root get distinct keys |
| DocProject.LastFoundKeys | gpt4docs/modules/directory/Project.py:14-17 | a key is kept exactly when some discovered file has it |
| DocProject.LastFoundLatest | gpt4docs/modules/directory/Project.py:14-17 | a file is the one kept under its key when no later file has the same key |
| DocProject.LastFoundIsLatest | gpt4docs/modules/directory/Project.py:14-17 | whatever is kept under a key is a discovered file with that key, and no later file has it |
| DocProject.Project.constructor | gpt4docs/modules/directory/Project.py:9-17 | the map has a key exactly for each relative path of a discovered file, and holds the last file discovered under it |
| DocProject.Project.FilePathByPath | gpt4docs/modules/directory/Project.py:61-63 | the key is the relative path, and a path outside the root fails |
| DocProject.Project.GetFile | gpt4docs/modules/directory/Project.py:65-70 | the file stored under the relative path; `ValueError` outside the root, `KeyError` for a missing key |
| DocProject.Project.GetFileMember | gpt4docs/modules/directory/Project.py:65-70 | looking up a file of the project gives it back |
| DocProject.NewRoot | gpt4docs/modules/directory/Project.py:21-24 | overwriting keeps the root; otherwise the root is the sibling `parent / (name + suffix)` |
| DocProject.DestinationLayout | gpt4docs/modules/directory/Project.py:26-35 | each file's path under the new root relative to it equals its path relative to the project root, and no two files share a destination |
| DocProject.Project.Save | gpt4docs/modules/directory/Project.py:19-38 | it returns the new root, and for every key the file's destination and its rendered text |
| DocProject.SubDirs | gpt4docs/modules/directory/Project.py:44 | the subdirectories among the entries, empty exactly when there are none |
| DocProject.FileNames | gpt4docs/modules/directory/Project.py:45 | the file names among the entries, empty exactly when there are no files |
| DocProject.FileLines | gpt4docs/modules/directory/Project.py:51 | one line `padding│   ├── name` per file |
| DocProject.TreeShape | gpt4docs/modules/directory/Project.py:43-59 | a file prints as `└── name` and an empty directory as `└── name/`; any other directory opens with `├── name/` and ends with `└──` |
| DocProject.TreeJoin | gpt4docs/modules/directory/Project.py:40-59 | the printed tree is the join of its reference lines: the header, the subdirectory trees, the file lines, the closing corner |
| DocProject.TreeLinesPadded | gpt4docs/modules/directory/Project.py:47-57 | every line of a tree starts with its padding |
| DocProject.DirLinesHold | gpt4docs/modules/directory/Project.py:50 | the lines of each subdirectory appear among its parent's lines |
| DocProject.NestedFilesListed | gpt4docs/modules/directory/Project.py:50-54 | `print_files` is not passed on, so a subdirectory's files are listed even when the top level hides its own |
| DocProject.TreeSplit | gpt4docs/modules/directory/Project.py:55-57 | with names on one line each, the printed tree splits back into exactly its lines |
| DocProject.TreeLinesFlat | gpt4docs/modules/directory/Project.py:46-57 | a directory holding only files prints its header, its file lines and the closing corner |
| DocProject.TestTreeLines | tests/test_Project.py:38-43 | a directory `test_package` holding `func1.py` and `package1.py`, the layout the expected string implies, has the four lines that string holds |
| DocProject.TestTree | tests/test_Project.py:38-43 | that layout prints as exactly the expected string |

## Left out

- File reading and writing, `mkdir`, `glob` discovery and logging are not modelled. A file's text is given to its constructor, the discovered files are given to the `Project` constructor in discovery order, and the save methods return the target path and text instead of writing them.
- `black.format_str` is a foreign formatter. The content given to `DocFile.File` is taken to be its output.
- The LLM, vector store, CLI and application wiring are not part of this model, and neither are `autodocs/Project.py`, a copy of the tree and an I/O loop.
- `iterdir` order, `is_dir` and `is_file`: a directory is a `Node` whose entries come in the order `iterdir` lists them.
- `File.__str__` and the `get_file_path` helper are not modelled apart. `get_file_path` is inlined in `GetFile`, and `Project.__str__` is `Tree` with `printFiles` true.
- DocWrite.WriteDocstring: rewrites only the first match. `re.sub` at gpt4docs/modules/directory/File.py:111 also rewrites every later non-overlapping match of the specific pattern.
- AutodocsWrite.WriteDocstring: rewrites only the first match. `re.sub` at autodocs/File.py:88 and :91 also rewrites every later match.
- DocWrite.WriteDocstring: `re.sub` reads escape sequences in the docstring as template escapes in the replacement, and this is not modelled. The docstring is inserted literally. The same holds for `AutodocsWrite.Block`.
- Strings.IsWhitespace: models the whitespace of `\s` and `strip()` on the ASCII range only. That is space, `\t`, `\n`, `\r`, `\x0b`, `\x0c` and `\x1c` to `\x1f`. Python also accepts non-ASCII whitespace such as `\x85` and `\xa0`.
- Strings.IsWordChar: `\w` is ASCII letters, digits and `_` only. Python also accepts non-ASCII letters and digits.
- AutodocsScan.ReadLines: text-mode newline translation (`\r\n` to `\n`) is not modelled.
- The `autodocs` record (autodocs/PyDefinition.py:11-14) declares no line-number fields, so pydantic drops the `docstring_start_line` and `docstring_end_line` values the scan passes. The model keeps them, as the scan computes them and tests/test_File.py:22-23 expects them.
- tests/test_File.py calls `replace_documentation` and `write`, which autodocs/File.py does not define. `AutodocsFile.TestSetAndSave` states that test with `set_documentation` and `save`.
- tests/data/test.py is not part of this model. The scan test is stated on the text of the write test.
- The `overwrite` parameter of autodocs `save` (autodocs/File.py:99) is unused by the source and left out.
- DocProject.RelativeTo: the `ValueError` message only approximates the text `pathlib` uses.
- DocProject.Project.Save: visits the keys in an arbitrary order. The result is a map from key to target, so the order does not show.
- AutodocsFile.File.Save: renders with the corrected writer `AutodocsWrite.WriteDocstringFixed`, not with the one as written (see Findings). `AutodocsWrite.WriteFixedAgrees` shows the two agree whenever the header's own colon is followed by its docstring.
- DocFile.Render: re-rendering a file with the definitions its own scan found is not the identity, and the model does not promise that it is. The gpt4docs scan keeps a docstring without its quotes, so writing it back spreads `"""text"""` over three lines. `DocFile.RerenderRewraps` shows this for `def f():\n    """text"""\n    pass\n`. The model follows the code here.
- DocWrite.WriteDocstring, DocWrite.FindNamed, AutodocsWrite.Head and AutodocsWrite.WriteDocstring: assume Python 3.10 or earlier. They build the header pattern from `Keyword(d.kind)`, which is `def` or `class`. That is what formatting a `PyDefinitionTypeEnum(str, Enum)` member gives there (gpt4docs/modules/directory/File.py:92-94, autodocs/File.py:80 and 84). From Python 3.11 on, `format()` of such a member gives `PyDefinitionTypeEnum.function`. Neither pattern then matches, so both writers return the text unchanged. The same holds for `AutodocsWrite.WriteDocstringFixed` and for the renders built on these writers. The `str | Path` annotations do not rule 3.11 out, since they need only 3.10.
- DocProject.TestTree: tests/test_Project.py imports the autodocs `Project` (line 1), and its fixture directory tests/data/test_package holds other files than the expected string names. The lemma states that string for the layout it implies.

## Findings

| source | as written | input that shows it | evidently intended | confidence | as-written member | corrected member |
|---|---|---|---|---|---|---|
| autodocs/File.py:79-82, 86-88 | under DOTALL the lazy `.*?:` in `pattern_existing_doc` runs past a header whose colon has no docstring after it, on to the colon of a later header that has one | `def a():\n    pass\ndef b():\n    """b"""\n` with docstring `a` for `a`: `a`'s docstring replaces `b`'s, and `a` gets none | the docstring is written after `a`'s own colon, and `b` keeps its docstring | not executed | AutodocsWrite.WriteCrossesDefinitions, AutodocsWrite.WriteCrossesExample | AutodocsWrite.WriteDocstringFixed, AutodocsWrite.WriteFixedInserts, AutodocsWrite.WriteFixedExample |
