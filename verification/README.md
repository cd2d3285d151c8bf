# po-localization in Dafny

This project models the core of po-localization, a Django helper that keeps
gettext PO catalogs in sync with a project's code and reloads them when the
files change. The model covers these parts:

- **Escape codec** (`strings.dfy`, module `Strings`). The backslash escaping
  of PO quoted strings and its inverse. `unescape.dfy` (module
  `LegacyUnescape`) models the older copy of the decoder as a loop and
  proves it equal to `Strings.Unescape`.
- **Catalog document** (`po_file.dfy`, module `Po`). Translation entries
  keyed by message identity (context, EOT, message), header fields with
  their index, merging of entries, cloning, and flattening to the lookup
  catalog.
- **Serializer** (`po_dump.dfy`, module `PoDump`). It reads the plural
  count from the `Plural-forms` header, sorts entries stably by their
  locations, and prints entries and headers as lines.
- **Line grammar** (`line_grammar.dfy`, module `LineGrammar`). The regular
  expression that sorts a PO line into comment or blank, keyword line,
  continuation line, or syntax error, written as a scanner.
- **Parser** (`parser.dfy`, module `Parser`). The state machine that folds
  classified lines into a document, with every error it raises, and how
  a parse error renders as text.
- **Round trip** (`round_trip.dfy`, module `RoundTrip`). Printing a document
  and parsing the printed lines gives back the document's catalog.
- **Translations updater** (`updater.dfy`, `paths.dfy`). Dispatch of files
  to extractors by extension, the walk that lists files, the printable
  file name, the path of a locale's PO file, and the merge of the base
  document with a locale's existing file.
- **Change detection** (`changes.dfy`, `file_watcher.dfy`, `loader.dfy`).
  The modification-time table, the generic file watcher's reload logic,
  and the translation loader that rebuilds the per-locale catalogs.
- **Python extractor** (`python_extractor.dfy`). Name resolution over an
  abstract syntax tree: imports bind aliases, function definitions open
  scopes, and calls to resolved translation functions with literal
  arguments add entries with their line as location.

The model stands in for the outside world as follows:

- Files are sequences of lines without their terminators.
- The file system is a map from path to modification time, with the
  time as a type parameter.
- A directory walk is a sequence of `(dirpath, filenames)` records.
- Python dictionaries are maps, or sequences in insertion order.
- Exceptions the code raises become `Err` values. The `Failure` type
  separates the parser's own `ParseError` from crashes the code does not
  catch: the `AttributeError` of a header block without a plain `msgstr`,
  and the `ValueError` of an out-of-range code point.

Behaviours of the code that the model keeps as written:

- Re-adding a header field in `add_header_field` indexes the field list
  with the whole index dictionary (po_localization/po_file.py:25), which raises
  `TypeError`, while po_localization/tests/test_po_file.py:67-71 expects the second value
  to replace the first. The model keeps both setters and the parser uses
  the overwriting one (see Findings and Left out).
- Every message prints on a single quoted line, however many line feeds
  it holds (po_localization/po_file.py:121-133).
- `get_nplurals` compares the field name with `Plural-forms`
  (po_localization/po_file.py:66), so a `Plural-Forms` field is ignored
  (`PoDump.CapitalisedFieldIgnored`); po_localization/tests/test_po_file.py:73-76 expects
  the usual capitalisation to be read.
- `int()` on the `nplurals` value can raise, so `PoDump.Dump` returns a
  `Result`.
- `clone` copies the header fields and entries but not the header index
  (po_localization/po_file.py:16-21), and `Po.Clone` states that.
- `msgctxt`, `msgid` and `msgid_plural` are escaped when printed, but
  translations and header fields are printed as they are, so the round
  trip requires those to need no escaping.

## Model

| member | source | states |
|---|---|---|
| Strings.Escape | po_localization/strings.py:17-40 | the escaped text has no control characters, grows by one character per special character, and equals the input when nothing needs escaping |
| Strings.Unescape | po_localization/strings.py:43-71 | decoding never lengthens the text, and text without a backslash decodes to itself |
| Strings.UnescapeEscape | po_localization/strings.py:17-71 | decoding the escaped form of any string gives the string back |
| Strings.UnescapeSpecial | po_localization/strings.py:21-65 | each special character escapes to a backslash and one letter that decodes back to it |
| Strings.CodePoint | po_localization/strings.py:67-69 | a numeric escape yields a character exactly when the code point is below 0x110000 and not a surrogate, and that character has the code point |
| Strings.OctalEscape | po_localization/strings.py:66-67 | a backslash and a maximal run of octal digits decodes to the character with that base-8 value, followed by the decoded rest |
| Strings.HexEscape | po_localization/strings.py:68-69 | a backslash, `x` and a maximal run of hex digits decodes to the character with that base-16 value, followed by the decoded rest |
| Strings.OctalExampleEuro | po_localization/strings.py:67 | `\20254` decodes to the euro sign |
| Strings.HexExampleEuro | po_localization/strings.py:69 | `\x20ac` in any letter case decodes to the euro sign |
| Strings.InvalidEscapes | po_localization/strings.py:70-71 | a trailing backslash, or a backslash before any other character, is an invalid escape that reports the character (none for end of text or newline) |
| LegacyUnescape.Step | po_localization/unescape.py:18-42 | one decoding step either fails exactly as the whole decoder does or emits a piece that prefixes the decoding of a shorter rest |
| LegacyUnescape.Unescape | po_localization/unescape.py:9-42 | the loop decoder of the older module gives the same result as `Strings.Unescape` on every input |
| Text.SplitAt | po_localization/po_file.py:67 | splitting a string that starts with a separator-free piece gives that piece, then the split of the rest |
| Text.PartitionAt | po_localization/parser.py:62 | partition at the first separator returns the separator-free head and everything after it |
| Text.StripUnchanged | po_localization/parser.py:63 | stripping a string that neither starts nor ends with whitespace leaves it unchanged |
| Text.ParseIntOfNatToString | po_localization/po_file.py:70 | `int()` of the decimal rendering of a natural number gives the number back |
| Paths.Ext | po_localization/translations_updater.py:64 | the extension is empty or a suffix of the path that starts with its last dot and has no slash |
| Paths.ExtOfSuffix | po_localization/translations_updater.py:64 | a file whose name has a non-dot character before a dot-led suffix has that suffix as its extension |
| Paths.Join | po_localization/translations_updater.py:67 | joining with an absolute path gives that path; otherwise the result starts with the first part and ends with the second, with one `/` between them exactly when the first part is non-empty and does not already end in `/` |
| Po.MsgIdInjective | po_localization/po_file.py:136-140 | for texts without EOT, two message identities are equal exactly when message and context are equal |
| Po.NewEntry | po_localization/po_file.py:75-80 | a new entry has the identity of its message and context, with no location and no translation |
| Po.AddLocation | po_localization/po_file.py:88-89 | the location is appended and nothing else in the entry changes |
| Po.AddPluralTranslation | po_localization/po_file.py:94-95 | the index maps to the text, every other index keeps its translation, and nothing else changes |
| Po.AddTranslation | po_localization/po_file.py:91-92 | the singular translation is stored at index 0 |
| Po.EntryCatalogKeys | po_localization/po_file.py:97-106 | an entry contributes exactly its non-empty translations: per index when it has a plural, otherwise its index-0 text under its identity |
| Po.AddEntry | po_localization/po_file.py:30-41 | a new identity appends a fresh entry; a known one gains the plural only if it had none; the result stays valid and the returned index holds the entry |
| Po.AddHeaderField | po_localization/po_file.py:23-28 | the intended behaviour: a new field is appended and indexed, and a known field is overwritten in place with the others unchanged |
| Po.AddHeaderFieldAsWritten | po_localization/po_file.py:23-28 | the code as written fails exactly when the field was added before, and otherwise appends it |
| Po.HeaderOverwrite | po_localization/po_file.py:25 | setting `Language` twice fails as written, and the intended version keeps the single field with the second value |
| Po.AddHeaderFieldAgrees | po_localization/po_file.py:23-28 | whenever the as-written version succeeds it gives the intended result |
| Po.Clone | po_localization/po_file.py:16-21 | the clone has the same header fields and entries, and an empty header index |
| Po.CatalogKeys | po_localization/po_file.py:58-62 | a key is in the document's catalog exactly when some entry contributes it, and catalog values are never empty |
| Po.CatalogValue | po_localization/po_file.py:58-62 | with unique identities, each key of an entry's contribution has that entry's value in the catalog |
| Po.CatalogOfPermutation | po_localization/po_file.py:58-62 | the catalog does not depend on entry order: re-ordered entries with the same contributions give the same catalog |
| LineGrammar.KeywordSound | po_localization/parser.py:12-31 | a line classified as a keyword line starts, after whitespace, with that keyword; only `msgstr` carries an index; the string is quoted up to the line end |
| LineGrammar.ContinuationSound | po_localization/parser.py:12-31 | a continuation line is whitespace, then the quoted string, then whitespace to the end |
| LineGrammar.ClassifyKeyword | po_localization/parser.py:12-31 | every keyword line built from whitespace, keyword, optional `msgstr` index, whitespace and a quoted string is classified as that keyword line |
| LineGrammar.ClassifyContinuation | po_localization/parser.py:12-31 | a quoted string between whitespace is classified as a continuation of that string |
| LineGrammar.IgnoredIff | po_localization/parser.py:92-94 | a line is skipped exactly when it is blank or its first non-space character is `#` |
| LineGrammar.NoClosingQuote | po_localization/parser.py:89-91 | a non-blank, non-comment line that does not end in a quote is a syntax error |
| LineGrammar.NoIndexExceptMsgStr | po_localization/parser.py:20 | `msgctxt`, `msgid` and `msgid_plural` followed by a bracket are syntax errors |
| LineGrammar.UnknownKeyword | po_localization/parser.py:12-31 | a line starting with anything other than `#`, a quote or a keyword is a syntax error |
| Parser.Decode | po_localization/parser.py:138-139 | a quoted string decodes exactly when the escape codec accepts it, and an invalid escape becomes a parse error at that line |
| Parser.AddHeaderLines | po_localization/parser.py:59-63 | every non-empty line of the header text indexes the field named by its part before the first colon, entries are untouched, and the document stays valid |
| Parser.HeaderLineNames | po_localization/parser.py:59-63 | the header index gains exactly the names of the fields the non-empty lines give, split at the first colon |
| Parser.HeaderLinesAppend | po_localization/parser.py:59-63 | when no field is named twice or named already, the fields `(name, stripped value)` of the non-empty lines are appended in order |
| Parser.AsWrittenHeaderLines | po_localization/parser.py:59-63 | with the header setter as written, reading the header fails exactly when a field is named twice or named already, and otherwise appends the fields in order |
| Parser.AddHeaderLinesAgrees | po_localization/parser.py:59-63 | whenever the as-written reading of the header succeeds it gives the same document as the overwriting one |
| Parser.SameFieldTwiceFails | po_localization/parser.py:59-63 | two header lines naming the same field fail as written |
| Parser.SameFieldTwiceOverwrites | po_localization/parser.py:59-63 | with the overwriting setter, two header lines naming the same field leave one field with the later value |
| Parser.RepeatedHeaderLine | po_localization/parser.py:59-63 | `Language: fr` then `Language: en` fails as written and gives `[("Language", "en")]` with the overwriting setter |
| Parser.Flush | po_localization/parser.py:57-79 | storing pending data crashes exactly for a header without a plain translation; otherwise it clears the pending data and keeps the state |
| Parser.StoreEntry | po_localization/parser.py:64-70 | the pending message is found in the document with its singular or plural translations stored, headers are unchanged, at most one entry is added, and every other position keeps its entry |
| Parser.StoredKnownEntry | po_localization/po_file.py:30-37 | a message seen before keeps its position and its plural form if it had one, takes the pending plural form otherwise, and keeps the translations the new ones do not replace |
| Parser.StoredNewEntry | po_localization/po_file.py:38-40 | a new message is appended with the pending plural form and only the pending translations |
| Parser.StoreKeepsOthers | po_localization/parser.py:64-70 | storing one message leaves every other message at its position with its entry |
| Parser.StepFollowsTable | po_localization/parser.py:95-137 | each line moves the parser to the state the transition table allows, and a line the table refuses is an error at that line |
| Parser.RefusedKeyword | po_localization/parser.py:107-137 | a refused keyword reports an unexpected index after `msgid`, a missing index after a plural, and otherwise an unexpected keyword |
| Parser.ContinuationFollowsTable | po_localization/parser.py:122-135 | a continuation keeps the state, and one before any keyword is an unexpected continuation |
| Parser.Finish | po_localization/parser.py:140-142 | a file parses exactly when the last flush succeeds and it does not end after `msgctxt`, `msgid` or `msgid_plural` |
| Parser.RunAppend | po_localization/parser.py:87-139 | parsing two chunks of lines in sequence is parsing their concatenation, with line numbers continuing |
| Parser.IgnoredFileIsEmpty | po_localization/parser.py:92-94 | a file of comments and blank lines parses to the empty catalog |
| Parser.FirstSyntaxError | po_localization/parser.py:89-91 | the first unparsable line fails the parse with a syntax error at its line number |
| Parser.EndInsideMessage | po_localization/parser.py:141-142 | a file ending inside a message, whatever comments follow, fails with an end-of-file error without a line |
| Parser.HeaderWithPluralsCrashes | po_localization/parser.py:59-60 | a header block with indexed translations crashes when it is stored |
| Parser.DuplicateIndex | po_localization/parser.py:117-119 | a plural index seen before in the same message is rejected |
| Parser.IndicesResetAtFlush | po_localization/parser.py:73-79 | storing pending data forgets the plural indices seen |
| Parser.Str | po_localization/parser.py:152-160 | `str()` of an error fails exactly when it has neither a truthy file name nor a truthy line and its message is an escape exception; otherwise the text ends with the message |
| Parser.FalsyPartsHidden | po_localization/parser.py:153-158 | line 0 and the empty file name render as if absent |
| Parser.StrWithNameAndLine | po_localization/parser.py:153-154 | an error with a file name and a line renders as `name:line: message` |
| Parser.StrWithLine | po_localization/parser.py:157-158 | an error with only a line renders as `line N: message` |
| PoDump.Order | po_localization/po_file.py:52 | the printing order is a sorted permutation of the entry indices |
| PoDump.SortedUnique | po_localization/po_file.py:52 | two sorted arrangements of the same indices are equal, so the stable sort by locations is determined |
| PoDump.LocationsLessTotal | po_localization/po_file.py:52 | location lists compare like Python lists of tuples: any two distinct lists are ordered one way |
| PoDump.NPlurals | po_localization/po_file.py:64-71 | without a `Plural-forms` field there is no plural count, and any count comes from a field that declares one |
| PoDump.DeclaredPluralCount | po_localization/po_file.py:64-70 | the first `Plural-forms` field with `nplurals=N;...` gives the count N |
| PoDump.CapitalisedFieldIgnored | po_localization/po_file.py:66 | a `Plural-Forms` field is not read |
| PoDump.PluralCount | po_localization/po_file.py:125-129 | a declared count is used as is; otherwise at least two forms are printed and every stored index is covered |
| PoDump.DumpEntry | po_localization/po_file.py:108-134 | an entry prints lines exactly when it is emitted, and an unpruned entry without locations starts with the obsolete marker |
| PoDump.BlocksEmpty | po_localization/po_file.py:113-115 | nothing is printed for the entries exactly when none of them is emitted |
| PoDump.DumpLayout | po_localization/po_file.py:43-56 | the document prints as its header block, then the entry blocks in sorted order, with blank lines only after a printed block |
| RoundTrip.ReadBackCatalog | po_localization/po_file.py:97-106 | a readable entry read back from its printed lines contributes the same catalog |
| RoundTrip.ReadEntry | po_localization/po_file.py:118-133 | parsing the lines of one printed entry adds its read-back to the entries read so far |
| RoundTrip.ReadHeader | po_localization/po_file.py:45-49 | the printed header block parses without error and leaves no entry |
| RoundTrip.ReadEntries | po_localization/po_file.py:52-56 | parsing the printed entry loop adds the read-backs of the emitted entries in printing order |
| RoundTrip.ReadDump | po_localization/po_file.py:43-56 | parsing a printed document gives the read-backs of its emitted entries in printing order |
| RoundTrip.DumpThenParse | po_localization/po_file.py:43-62 | printing a readable document without pruning and parsing the lines gives the document's catalog |
| Updater.ExtractorFor | po_localization/translations_updater.py:13-17 | `.py` files go to the Python extractor, and `.html` and `.txt` files to the template extractor |
| Updater.DispatchBySuffix | po_localization/translations_updater.py:64-65 | a file named with a `.py` or `.html` suffix after a real stem is dispatched by that suffix |
| Updater.HiddenFileNotDispatched | po_localization/translations_updater.py:64 | a file named just `.py` has no extension and is not dispatched |
| Updater.DirFilesIff | po_localization/translations_updater.py:62-67 | a path is listed for a directory exactly when it joins the directory with a file name that has an extractor |
| Updater.ListedIff | po_localization/translations_updater.py:37-43 | the file list is exactly the joined paths of dispatched file names across all roots and directories |
| Updater.PrintableFilename | po_localization/translations_updater.py:61-68 | the printable name is the full name without the root prefix, empty when the name is shorter |
| Updater.PrintableOfJoin | po_localization/translations_updater.py:61-68 | a relative path joined under the root prints as that relative path |
| Updater.DirJobs | po_localization/translations_updater.py:62-69 | each extraction job runs the dispatched extractor on a listed file with its printable name |
| Updater.TranslationFilename | po_localization/translations_updater.py:83 | a locale's PO file lies under the locale path: it starts with that path, ends with `LC_MESSAGES/<domain>.po`, and has a `/` between them exactly when the path is non-empty and does not end in one |
| Updater.Merged | po_localization/translations_updater.py:82-85 | without an existing file the merge is the clone of the base, and a merge result is a valid document |
| Updater.NewLocaleGetsBase | po_localization/translations_updater.py:82-93 | a locale without a PO file gets the printed base document |
| Updater.RunExtends | po_localization/translations_updater.py:85 | parsing into a document keeps each existing entry in place with its identity and locations, and the entries it adds have no locations |
| Updater.MergeExtendsBase | po_localization/translations_updater.py:82-85 | the merged document keeps the base entries in their places with the same identities and locations, and adds only entries without locations |
| Updater.PrunedMergeDropsObsolete | po_localization/translations_updater.py:85-93 | entries that come only from the existing file are not printed when pruning |
| Updater.StoreCarries | po_localization/parser.py:64-70 | storing the same message into the base's copy and into a fresh document keeps every translation of the latter in the former, and keeps the plural forms in step |
| Updater.RunTwins | po_localization/parser.py:87-139 | reading the same lines from readers that differ only in their documents fails the same way or succeeds with the documents still related |
| Updater.MergeKeepsTranslations | po_localization/translations_updater.py:82-85 | reading the existing file into the base's copy fails exactly when reading it alone does, with the same failure, and every translation of the file reaches the merged catalog with its text, except a singular one for a message the base gives a plural form |
| Changes.Refresh | po_localization/file_watcher.py:38-46 | the loop leaves the table refreshed for the listed paths and reports a change exactly when some listed path was stale |
| Changes.Forget | po_localization/file_watcher.py:34-37 | the loop drops the unlisted paths and reports a change exactly when one was tracked |
| Changes.RefreshedSettles | po_localization/file_watcher.py:38-46 | a second look at an unchanged file system changes nothing |
| Changes.ForgetThenRefresh | po_localization/file_watcher.py:32-46 | a full check leaves exactly the current times of the listed existing files, and changes the table exactly when it differed |
| FileWatcher.New | po_localization/file_watcher.py:13-16 | a new watcher is dirty and tracks nothing |
| FileWatcher.CheckForChanges | po_localization/file_watcher.py:32-46 | a check tracks the observed times and becomes dirty exactly when the table changed |
| FileWatcher.Reload | po_localization/file_watcher.py:18-24 | a reload loads exactly when the watcher was dirty or the observed times differ from the tracked ones |
| FileWatcher.SecondReloadLoadsAgain | po_localization/file_watcher.py:18-24 | the first reload skips the check, so the second reload loads again even when nothing changed |
| FileWatcher.ReloadSettles | po_localization/file_watcher.py:18-46 | after two reloads, a further reload of an unchanged file system does nothing |
| FileWatcher.ReloadOnChange | po_localization/file_watcher.py:18-46 | a clean watcher loads exactly when a listed file is stale or a tracked file is no longer listed |
| Loader.TranslationFilesIff | po_localization/loader.py:55-59 | a path is among a locale's translation files exactly when it is the `LC_MESSAGES/django.po` path of the locale under some locale path, and exists unless missing ones are asked for |
| Loader.ExistingAppend | po_localization/loader.py:56-59 | keeping the existing candidates of two lists in turn is keeping those of their concatenation, so the filter keeps the candidates' order |
| Loader.TranslationFilesInOrder | po_localization/loader.py:55-59 | no locale paths give no files, and one more locale path appends its file at the end, when it exists or missing files are asked for, and nothing otherwise |
| Loader.LastDirectoryWins | po_localization/loader.py:36-40 | after a successful load, a key takes its value from the file of the last locale path whose file defines it |
| Loader.CheckForChanges | po_localization/loader.py:43-53 | a check refreshes the candidate paths and becomes dirty exactly when one was stale |
| Loader.Overlay | po_localization/loader.py:38-40 | merging the parsed files fails exactly when one fails, and otherwise has exactly their keys |
| Loader.LaterFileWins | po_localization/loader.py:39-40 | a key takes its value from the last file that defines it |
| Loader.LoadCovers | po_localization/loader.py:33-41 | a successful load holds a catalog for every locale and leaves other locales' catalogs unchanged |
| Loader.LoadedCatalog | po_localization/loader.py:33-41 | a locale's catalog is the overlay of its existing translation files |
| Loader.Reloaded | po_localization/loader.py:25-31 | a reload always refreshes the tracked times and stays dirty exactly when the load failed |
| Loader.ReloadSettles | po_localization/loader.py:25-53 | after a successful reload, a second one without force on the same files does nothing |
| Loader.ReloadOnChange | po_localization/loader.py:25-53 | a clean loader changes its catalogs only when a candidate file is stale, and reloads them when one is |
| PythonExtractor.DottedAttribute | po_localization/python_extractor.py:138-144 | an attribute access is named by the object's name, a dot and the attribute, and has a name exactly when the object does |
| PythonExtractor.KindOf | po_localization/python_extractor.py:10-13 | each translation function name maps to its family, and no other name does |
| PythonExtractor.CallEntry | po_localization/python_extractor.py:76-83 | the intended behaviour: a call yields an entry exactly when its first arity arguments are literals, with the message, context and plural at the family's positions |
| PythonExtractor.CallEntryAsWritten | po_localization/python_extractor.py:80-83 | the code as written can only fail for the plural families |
| PythonExtractor.CallEntryAgrees | po_localization/python_extractor.py:76-83 | the as-written code agrees with the intended one where it succeeds, and fails exactly when the last needed argument is not a literal |
| PythonExtractor.PluralVariableCrashes | po_localization/python_extractor.py:80-81 | `ngettext("apple", plural, n)` crashes as written and is skipped in the intended version |
| PythonExtractor.LookupAfterBind | po_localization/python_extractor.py:123-131 | a name bound in the innermost scope resolves to its binding, and other names resolve as before |
| PythonExtractor.InnerShadows | po_localization/python_extractor.py:123-128 | an inner scope's binding hides outer ones, and names it lacks resolve in the outer scopes |
| PythonExtractor.ModuleBinding | po_localization/python_extractor.py:54-63 | binding a module alias makes `alias.f` resolve to the family of every translation function `f` |
| PythonExtractor.ImportBindsModule | po_localization/python_extractor.py:31-34 | importing `django.utils.translation` binds its functions under the visible name |
| PythonExtractor.ImportOthersBindNothing | po_localization/python_extractor.py:31-34 | importing other modules binds nothing |
| PythonExtractor.ImportFromBinds | po_localization/python_extractor.py:36-48 | `from django.utils.translation import f as g` makes `g` resolve to `f`'s family unless a later name rebinds it |
| PythonExtractor.VisitImportFrom | po_localization/python_extractor.py:36-52 | relative imports bind nothing, and imports only touch the innermost scope |
| PythonExtractor.Visit | po_localization/python_extractor.py:65-86 | a visit keeps the document valid and only grows it, a function body's bindings do not outlive it, and a call's own entry is added before its parts are visited |
| PythonExtractor.GrowsKeepsRecorded | po_localization/python_extractor.py:70-86 | an entry and a location the catalog records stay recorded as later visits add to it |
| PythonExtractor.VisitAllExtracts | po_localization/python_extractor.py:94-102 | in a sequence of statements, every call that resolves under the bindings the earlier statements leave is recorded with its line |
| PythonExtractor.CallArgExtracts | po_localization/python_extractor.py:70-86 | a call nested as a positional argument that resolves under the bindings the walk has reached is recorded with its line |
| PythonExtractor.BodyExtracts | po_localization/python_extractor.py:65-68 | a call in a function body that resolves with the body's scope on top of the enclosing ones is recorded with its line |
| PythonExtractor.NothingWithoutImport | po_localization/python_extractor.py:16-63 | a module with no import of `django.utils.translation` or from `django.utils` leaves the catalog unchanged |
| PythonExtractor.LocalImportOnly | po_localization/python_extractor.py:36-68 | a function that imports `gettext` locally extracts exactly its own call, while calls of `gettext` outside it are not translations |
| PythonExtractor.ScopingSampleExtracts | po_localization/tests/test_python_extractor.py:94-100 | the scoping part of the package's sample module yields only "a translation", at line 94 of `sample.py` |
| PythonExtractor.ResolvedCallExtracted | po_localization/python_extractor.py:70-85 | a resolved call with literal arguments leaves its entry with the call's file and line as a location |
| PythonExtractor.ExtractMessages | po_localization/python_extractor.py:16-22 | extraction keeps the document valid, keeps the headers, and only adds entries or locations; the lemmas above state which calls it records |

## Left out

- File and network I/O, `os.walk`, `os.makedirs`, `io.open` and the final write are not modelled. Directory listings, file contents and modification times are parameters.
- Threading locks are left out. The model is sequential.
- Modification times are not modelled as floats, and the win32 `st_ctime` subtraction is left out. A time is an opaque value compared for equality.
- Python 2 versus 3 details are left out: `unichr`, dictionary iteration order, and byte versus text reads.
- Universal-newline handling of `\r` when reading files is left out. A line never contains a line break.
- Surrogate code points are left out because Dafny characters cannot hold them. A numeric escape that names one is an error.
- The template extractor is not part of this model. Files dispatched to it are only named.
- Django's `to_language` and translation objects are left out. The loader keeps one catalog per locale name.
- `do_load` and `list_files` of the generic watcher are left out, because subclasses supply them. The listing is a parameter and a reload counts its loads.
- The `generic_visit` and `visit` overrides in the Python extractor are left out. The code says they only speed things up, so the model walks nodes in field order.
- Keyword arguments and starred arguments of extractor calls are left out, as the code ignores them.
- Merge idempotence (merging the base twice equals merging once) is not stated.
- RoundTrip.DumpThenParse: requires translations and header fields that need no escaping, because the code prints them without escaping. It also requires non-empty messages and a plural count that covers every stored index.
- PoDump.Dump: its own contract only states when it fails. The content is stated by PoDump.DumpLayout.
- Loader.Load: carries no contract of its own. Loader.LoadCovers and Loader.LoadedCatalog state what it computes.
- Updater.UpdateLocale: its own contract only states that a read failure needs an existing file. Updater.NewLocaleGetsBase and the merge lemmas state the rest.
- Parser.Run: its contract only keeps the reader consistent. Parser.RunAppend and the table lemmas state what it computes.
- Parser.AddHeaderLines: uses the overwriting header setter, so a header that names a field twice, or names a field a merged document already indexes, keeps the later value where the code raises `TypeError` (po_localization/po_file.py:25, reached from po_localization/parser.py:63). Parser.AddHeaderLinesAsWritten and Parser.AsWrittenHeaderLines model the code as written and state exactly when it fails.
- Parser.Flush: for the same reason does not list that `TypeError` among its failures, and neither do Parser.Finish, Loader.Load and Updater.UpdateLocale, which read files through it.
- Text.IsSpace: whitespace is the ASCII set, and Text.IsDigit takes the ASCII digits. Python's `str.strip` and the regular expressions' `\s` and `\d` also accept other Unicode whitespace and digits.
- Text.ParseInt: accepts ASCII digits only. Python's `int()` also accepts other Unicode digits and underscores between digits, so a few `nplurals` values it reads are refused here.
- PythonExtractor.Visit: walks with the corrected PythonExtractor.CallEntry, so where `visit_Call` raises `AttributeError` on a non-literal plural argument (po_localization/python_extractor.py:80-83) the walk skips the call and goes on. The same holds for PythonExtractor.ExtractMessages and for the updater's extraction jobs, which use it. The code as written is modelled by PythonExtractor.CallEntryAsWritten alone. The walk's own contract states validity, growth and scopes, and the extraction lemmas state which calls it records.
- PythonExtractor.ExtractMessages: never fails, where the code raises for the call above. Beyond the lemmas named in the table, it does not state that nothing other than resolved calls is recorded.
- Updater.MergeKeepsTranslations: does not state which base translations survive next to the file's; the file's translations override the base's at the same index.

## Findings

| source | as written | input that shows it | evidently intended | confidence | as-written member | corrected member |
|---|---|---|---|---|---|---|
| po_localization/po_file.py:25 | re-adding a header field indexes `header_fields` with the whole `header_index` dictionary, which raises `TypeError` | `add_header_field("Language", "fr")` then `add_header_field("Language", "en")` | overwrite the field at `header_index[field]` | high (not executed) | Po.AddHeaderFieldAsWritten | Po.AddHeaderField |
| po_localization/python_extractor.py:80-83 | `ngettext` and `npgettext` check one and two literal arguments but read two and three, so a non-literal plural raises `AttributeError` | `ngettext("apple", plural, n)` | require as many literals as are read, and skip the call otherwise | high (not executed) | PythonExtractor.CallEntryAsWritten | PythonExtractor.CallEntry |
