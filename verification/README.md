# author-tagger in Dafny

A model of the core of **author-tagger**, a tool that rewrites the `@author`
tags in the type-level Javadoc of every `.java` file of a project. The tool
works as a pipeline over a list of `JavaFile` records:

1. **Analysis** (`JavaFileAnalyzer`). Each file is scanned once. The scan
   finds the package line, then the existing `@author` lines, the annotations
   and the first public type declaration after it. It sets the record's
   qualified type name, old authors and declaration start line. Records whose
   analysis fails are dropped from the list.
2. **Configuration** (`AuthorTaggerConfig`). The configuration file is
   interpreted line by line:
   - a `$<TAB>filter[<TAB>mode]` header selects records by class-name filter
     and may set their tagging mode;
   - an `@<TAB>author` header picks an author;
   - tab-indented lines add authors to records.
   `JavaFiles.addAuthor` and `JavaFiles.skip` act on the same list through
   `ClassNameFilter`.
3. **Writing** (`AuthorTagWriter`). For every typed, non-skipped record the
   final author list is built: the old authors then the new ones under MERGE,
   the new ones only under OVERWRITE, each author once. The file's lines up
   to the declaration start are rewritten. The result is routed through the
   temp, backup and test companion files according to the run's
   `BackupingMode`.

The modules follow the Java packages:

| module | models |
|---|---|
| `Strings` | `String.trim`, literal `replaceAll`, ASCII case folding of `Pattern.CASE_INSENSITIVE` |
| `FileSystem` | files as a map from path to lines; `File.delete`, `File.renameTo` |
| `Model` | `JavaFile`, `AuthorTaggingMode`, `BackupingMode`, the `Filenames` suffixes |
| `Patterns` | the four patterns of `JavaFilePatterns` as string predicates and extractors |
| `Regex` | the regular-expression engine as a parameter; the slash-enclosed filter test |
| `ClassNameFilters` | `ClassNameFilter`: the glob-to-regex translation and `accept` |
| `StringFilters` | `AbstractStringFilter` and `SimpleStringFilter` |
| `FilterExamples` | the translations the filter unit tests expect, in general form |
| `Analyzer` | `JavaFileAnalyzer.analyzeJavaFile` and `analyzeJavaFiles` |
| `JavaFileList` | `JavaFiles.addAuthor`, `delAuthor`, `skip` |
| `Config` | `AuthorTaggerConfig.loadAndApply` and its helpers |
| `Writer` | `AuthorTagWriter.writeAuthorTags`: author list, line transform, file routing |
| `Reanalysis` | analysing a rewritten file finds the authors written into it |

Every operation has a partner: a reference definition read off the input as a
whole, an inverse, or an invariant it keeps. The line transform of the writer
is the main example. It is stated twice:
- `Rewrite` follows the two loops line by line;
- `ExpectedRewrite` describes the same output as one splice.

`Writer.RewriteMatchesReference` proves the two agree on every input.

The four line patterns of `JavaFilePatterns` are written out exactly. They are
anchored and used with `find`, and lines from `Scanner.nextLine` contain no
line terminator. The regular expressions built from user filters are handed
to an engine that is a parameter (`Regex.RegexEngine`). The model proves what
text those expressions are, not how an engine matches them.

Where the design description of the tool and the code disagree, the model
follows the code:

- The declaration start line is the **last** annotation line before the type
  declaration, because each annotation line overwrites it. It is not the first.
- A file without a package line, or without a public type after it, is a
  failed analysis. It is dropped; no type name is made up for it.
- Neither the analyzer nor the configuration removes duplicate authors. Only
  the writer's ordered set does.
- The writer's first loop reads the lines with indices `0 .. start + 1`, one
  more than the declaration start line.
- `JavaFileAnalyzer.java:111` and `JavaFiles.java:85` call
  `javaFile.getAuthors()`, which `JavaFile.java` does not declare; it only has
  `getOldAuthors` and `getNewAuthors`. The model sends the analyzer's call to
  the old authors (the authors found in the file) and the call in
  `JavaFiles.addAuthor` to the new authors, as `AuthorTaggerConfig.addAuthor`
  does at `AuthorTaggerConfig.java:78`. This choice decides what MERGE merges:
  the found authors first, then the configured ones.
- When the first doc comment before the type has no author line and no line
  of its own holding `*/` (a one-line `/** ... */`, say), no author is
  written and the file is left as it is. `Writer.RewriteWithoutTrigger`
  states this.

## Model

| member | source | states |
|---|---|---|
| Model.CompanionPathsDistinct | src/main/java/hu/juranyi/zsolt/jauthortagger/model/Filenames.java:31-56 | the live file and its backup, temp and test companions are four different paths |
| Model.NewJavaFile | src/main/java/hu/juranyi/zsolt/jauthortagger/model/JavaFile.java:42-59 | a new record has the given file, no type name, MERGE mode, no old or new authors, start line -1 |
| Model.SetTaggingMode | src/main/java/hu/juranyi/zsolt/jauthortagger/model/JavaFile.java:138-140 | the setter changes the tagging mode and no other field |
| Model.SetTypeDeclarationStartLine | src/main/java/hu/juranyi/zsolt/jauthortagger/model/JavaFile.java:148-150 | the setter changes the start line and no other field |
| Model.SetTypeName | src/main/java/hu/juranyi/zsolt/jauthortagger/model/JavaFile.java:160-162 | the setter sets the type name and no other field |
| Patterns.AuthorCapture | src/main/java/hu/juranyi/zsolt/jauthortagger/model/JavaFilePatterns.java:45 | a line is an author line exactly when it starts with ` * @author `; the capture is the whole rest of the line, including any `//` comment |
| Patterns.AuthorLineIsNoAnnotation | src/main/java/hu/juranyi/zsolt/jauthortagger/model/JavaFilePatterns.java:39-45 | no author line is an annotation line |
| Patterns.AuthorPatternIsCaseSensitive | src/main/java/hu/juranyi/zsolt/jauthortagger/model/JavaFilePatterns.java:45 | ` * @Author x` is not an author line; ` * @author x` is |
| Patterns.AuthorLineRoundTrip | src/main/java/hu/juranyi/zsolt/jauthortagger/output/AuthorTagWriter.java:161 | the line the writer emits for an author is recognised again with that exact name |
| Patterns.PackageCapture | src/main/java/hu/juranyi/zsolt/jauthortagger/model/JavaFilePatterns.java:51 | a captured package name is non-empty, holds no space or `;`, follows `package ` in any letter case, and is followed by `;` |
| Patterns.PackageLineComplete | src/main/java/hu/juranyi/zsolt/jauthortagger/model/JavaFilePatterns.java:51 | every line of the form `package <name>;` is recognised, with the whole name captured |
| Patterns.PackagePatternIgnoresKeywordCase | src/main/java/hu/juranyi/zsolt/jauthortagger/model/JavaFilePatterns.java:51 | changing the letter case of the keyword does not change the capture |
| Patterns.DeclarationFromSound | src/main/java/hu/juranyi/zsolt/jauthortagger/model/JavaFilePatterns.java:57-59 | every name the backtracking search returns comes from a real parse: modifiers, then keyword and name |
| Patterns.DeclarationFromComplete | src/main/java/hu/juranyi/zsolt/jauthortagger/model/JavaFilePatterns.java:57-59 | if some run of modifiers followed by keyword and name parses, the search succeeds |
| Patterns.TypeLineCharacterization | src/main/java/hu/juranyi/zsolt/jauthortagger/model/JavaFilePatterns.java:57-59 | a line is a type declaration line iff it starts with `public` (any case) and has a parse of modifiers, keyword and name |
| Patterns.LineKindsDisjoint | src/main/java/hu/juranyi/zsolt/jauthortagger/model/JavaFilePatterns.java:39-59 | author, annotation and type declaration lines are mutually exclusive |
| Regex.SlashInterior | src/main/java/hu/juranyi/zsolt/jauthortagger/util/ClassNameFilter.java:75-76 | a slash-enclosed filter is its interior between two slashes |
| ClassNameFilters.ShortNameRegex | src/main/java/hu/juranyi/zsolt/jauthortagger/util/ClassNameFilter.java:84-87 | a filter without a dot and not between slashes becomes the optional dotted prefix, the filter with `?` as `[^.]` and `*` as `[^.]*`, and an end anchor |
| ClassNameFilters.DottedNameRegex | src/main/java/hu/juranyi/zsolt/jauthortagger/util/ClassNameFilter.java:77-83 | a dotted filter becomes `^`, the filter with `.` escaped, `?` as `[^.]`, `**` as `.*` and a lone `*` as `[^.]*`, then `$` |
| ClassNameFilters.PlainWordTranslations | src/main/java/hu/juranyi/zsolt/jauthortagger/util/ClassNameFilter.java:77-87 | text free of `.`, `?` and `*` is translated to itself by both translations |
| ClassNameFilters.NewClassNameFilter | src/main/java/hu/juranyi/zsolt/jauthortagger/util/ClassNameFilter.java:101-104 | the filter keeps its text and the regex translated from it |
| ClassNameFilters.Accept | src/main/java/hu/juranyi/zsolt/jauthortagger/util/ClassNameFilter.java:113-115 | a missing class name is rejected; a present one is accepted iff it matches the regex as a whole |
| StringFilters.SimpleFilterToPattern | src/main/java/hu/juranyi/zsolt/jauthortagger/util/SimpleStringFilter.java:46-54 | a slash-enclosed search term yields the text between the slashes |
| StringFilters.SimplePatternIsSimpleBody | src/main/java/hu/juranyi/zsolt/jauthortagger/util/SimpleStringFilter.java:50-51 | outside slashes each `?` becomes `.`, each `*` becomes `.*`, other characters stay, with no anchors |
| StringFilters.SimplePatternLength | src/main/java/hu/juranyi/zsolt/jauthortagger/util/SimpleStringFilter.java:50-51 | outside slashes the pattern is one character longer than the term per `*` |
| StringFilters.NewSimpleStringFilter | src/main/java/hu/juranyi/zsolt/jauthortagger/util/AbstractStringFilter.java:45-48 | the filter keeps its text and the pattern derived from it at construction |
| StringFilters.GetFilterOfNew | src/main/java/hu/juranyi/zsolt/jauthortagger/util/AbstractStringFilter.java:77-79 | `getFilter` gives back the string the filter was built from |
| StringFilters.Accept | src/main/java/hu/juranyi/zsolt/jauthortagger/util/AbstractStringFilter.java:59-61 | a missing string is rejected; a present one is accepted iff the pattern is found somewhere in it |
| FilterExamples.ShortNameShape | src/main/java/hu/juranyi/zsolt/jauthortagger/util/ClassNameFilter.java:84-87 | `a??b*` for any plain words `a`, `b` becomes `(.*\.)?a[^.][^.]b[^.]*$` |
| FilterExamples.ShortNameExample | src/test/java/hu/juranyi/zsolt/jauthortagger/test/ClassNameFilterTest.java:38-41 | `Cla??Name*` becomes `(.*\.)?Cla[^.][^.]Name[^.]*$` |
| FilterExamples.DottedShape | src/main/java/hu/juranyi/zsolt/jauthortagger/util/ClassNameFilter.java:77-83 | `p*.n?.**c` for any plain words becomes `^p[^.]*\.n[^.]\..*c$` |
| FilterExamples.DottedExample | src/test/java/hu/juranyi/zsolt/jauthortagger/test/ClassNameFilterTest.java:59-62 | `package*.name?.**ClassName` becomes `^package[^.]*\.name[^.]\..*ClassName$` |
| FilterExamples.SlashShape | src/main/java/hu/juranyi/zsolt/jauthortagger/util/ClassNameFilter.java:75-76 | any text without line terminators put between slashes comes out of both translations unchanged |
| FilterExamples.SlashExample | src/test/java/hu/juranyi/zsolt/jauthortagger/test/ClassNameFilterTest.java:51-54 | `/Will this remain a regular expression?/` yields its interior, `?` included, in both filter kinds |
| FilterExamples.SlashBeforeDot | src/main/java/hu/juranyi/zsolt/jauthortagger/util/ClassNameFilter.java:75-77 | the slash test is made before the dot test: `/a.b/` yields `a.b` |
| FilterExamples.SearchTermShape | src/main/java/hu/juranyi/zsolt/jauthortagger/util/SimpleStringFilter.java:50-51 | `a?b*c*d` for any plain words becomes `a.b.*c.*d` |
| FilterExamples.SearchTermExample | src/test/java/hu/juranyi/zsolt/jauthortagger/test/SimpleStringFilterTest.java:52-55 | `Search? Term* With Multiple J*kers` becomes `Search. Term.* With Multiple J.*kers` |
| Analyzer.Classify | src/main/java/hu/juranyi/zsolt/jauthortagger/input/JavaFileAnalyzer.java:105-120 | a line reads as an author tag (with the trimmed name), an annotation, or a type declaration (with its short name) exactly when the matching pattern finds it |
| Analyzer.PackageScanFirst | src/main/java/hu/juranyi/zsolt/jauthortagger/input/JavaFileAnalyzer.java:91-98 | the first loop stops at the first package line and keeps its trimmed name |
| Analyzer.ScanCharacterization | src/main/java/hu/juranyi/zsolt/jauthortagger/input/JavaFileAnalyzer.java:101-121 | the second loop appends the authors of the lines up to the first type line, sets the qualified type name from that line, and leaves the start line at the last annotation before it, else at the type line if it was -1 |
| Analyzer.AnalyzeLines | src/main/java/hu/juranyi/zsolt/jauthortagger/input/JavaFileAnalyzer.java:78-133 | success is having a type name afterwards; file, tagging mode and new authors never change |
| Analyzer.AnalyzeJavaFile | src/main/java/hu/juranyi/zsolt/jauthortagger/input/JavaFileAnalyzer.java:125-126 | a file that does not exist leaves the record unchanged and fails |
| Analyzer.AnalyzeWithoutPackage | src/main/java/hu/juranyi/zsolt/jauthortagger/input/JavaFileAnalyzer.java:91-124 | without a package line the record is unchanged, and only a type name it already had counts as success |
| Analyzer.AnalyzeAlreadyTyped | src/main/java/hu/juranyi/zsolt/jauthortagger/input/JavaFileAnalyzer.java:101-124 | a record that already has a type name is not changed and succeeds |
| Analyzer.AnalyzeWithPackage | src/main/java/hu/juranyi/zsolt/jauthortagger/input/JavaFileAnalyzer.java:78-133 | the whole analysis read off the file: authors after the first package line, type name, start line, and success iff a type line follows the package line |
| Analyzer.KeptBySpec | src/main/java/hu/juranyi/zsolt/jauthortagger/input/JavaFileAnalyzer.java:144-154 | the kept records are exactly the successful analyses of input records |
| Analyzer.KeptAnalyzedSpec | src/main/java/hu/juranyi/zsolt/jauthortagger/input/JavaFileAnalyzer.java:144-154 | every kept record has a type name, and every successful analysis is kept |
| Analyzer.AnalyzeJavaFiles | src/main/java/hu/juranyi/zsolt/jauthortagger/input/JavaFileAnalyzer.java:144-154 | the in-place index walk with removal gives the successful analyses, in input order |
| JavaFileList.UntypedNeverSelected | src/main/java/hu/juranyi/zsolt/jauthortagger/model/JavaFiles.java:83 | a record without a type name is never selected by any filter |
| JavaFileList.WithNewAuthor | src/main/java/hu/juranyi/zsolt/jauthortagger/model/JavaFiles.java:85 | the author is appended to the new authors, and every other field stays |
| JavaFileList.AddAuthor | src/main/java/hu/juranyi/zsolt/jauthortagger/model/JavaFiles.java:80-88 | every selected record gets the author appended; every other record, untyped ones included, is unchanged |
| JavaFileList.DelAuthor | src/main/java/hu/juranyi/zsolt/jauthortagger/model/JavaFiles.java:90-99 | the unfinished operation leaves the list as it is |
| JavaFileList.RejectedSpec | src/main/java/hu/juranyi/zsolt/jauthortagger/model/JavaFiles.java:109-121 | a removal pass keeps exactly the input records the predicate rejects |
| JavaFileList.Skip | src/main/java/hu/juranyi/zsolt/jauthortagger/model/JavaFiles.java:109-121 | the in-place index walk with removal keeps the unselected records, in order |
| JavaFileList.SkipSpec | src/main/java/hu/juranyi/zsolt/jauthortagger/model/JavaFiles.java:109-121 | after `skip` no remaining record is selected, every unselected one remains, and every untyped one remains |
| Config.StripComment | src/main/java/hu/juranyi/zsolt/jauthortagger/input/AuthorTaggerConfig.java:143 | the result is the prefix of the line before its first `#` |
| Config.StripTrailingSpace | src/main/java/hu/juranyi/zsolt/jauthortagger/input/AuthorTaggerConfig.java:143 | the result is a prefix that ends in no whitespace, and only whitespace was removed |
| Config.NormalizeIdempotent | src/main/java/hu/juranyi/zsolt/jauthortagger/input/AuthorTaggerConfig.java:143 | normalising a normalised line changes nothing |
| Config.CommentLineIgnored | src/main/java/hu/juranyi/zsolt/jauthortagger/input/AuthorTaggerConfig.java:143-161 | a line starting with `#` changes neither the records nor the scope |
| Config.ParseMode | src/main/java/hu/juranyi/zsolt/jauthortagger/input/AuthorTaggerConfig.java:187-193 | a word names a mode iff it equals that mode's name ignoring case; otherwise no mode |
| Config.FilterHeader | src/main/java/hu/juranyi/zsolt/jauthortagger/input/AuthorTaggerConfig.java:46-47 | a recognised header is `$`, tab, a non-empty tab-free filter, then the end of the line or a tab and a mode word |
| Config.FilterHeaderRoundTrip | src/main/java/hu/juranyi/zsolt/jauthortagger/input/AuthorTaggerConfig.java:46-47 | `$<TAB>filter` is read back as that filter without a mode |
| Config.FilterHeaderWithModeRoundTrip | src/main/java/hu/juranyi/zsolt/jauthortagger/input/AuthorTaggerConfig.java:46-47 | `$<TAB>filter<TAB>mode` is read back as that filter and mode, in any letter case |
| Config.FilterHeaderRejectsUnknownMode | src/main/java/hu/juranyi/zsolt/jauthortagger/input/AuthorTaggerConfig.java:46-47 | a header whose third field is not a mode name is no header |
| Config.AuthorHeader | src/main/java/hu/juranyi/zsolt/jauthortagger/input/AuthorTaggerConfig.java:48 | a line is an author header iff it starts with `@` and a tab; the author is the trimmed rest |
| Config.Selected | src/main/java/hu/juranyi/zsolt/jauthortagger/input/AuthorTaggerConfig.java:99-112 | a blank filter selects nothing; otherwise exactly the records the class-name filter accepts |
| Config.SetModes | src/main/java/hu/juranyi/zsolt/jauthortagger/input/AuthorTaggerConfig.java:187-201 | with a mode every selected record takes it and the others keep theirs; without one no mode changes; every other field of every record stays |
| Config.AddNewAuthor | src/main/java/hu/juranyi/zsolt/jauthortagger/input/AuthorTaggerConfig.java:74-80 | the author is appended to the new authors of exactly the selected records; every other field, and the unselected records, stay |
| Config.FilterHeaderLine | src/main/java/hu/juranyi/zsolt/jauthortagger/input/AuthorTaggerConfig.java:147-150 | a filter header replaces the scope by its selection and sets the mode of the selected records only |
| Config.AuthorHeaderLine | src/main/java/hu/juranyi/zsolt/jauthortagger/input/AuthorTaggerConfig.java:151-153 | an author header changes no record and makes its trimmed author the scope |
| Config.IndentedLineUnderFilter | src/main/java/hu/juranyi/zsolt/jauthortagger/input/AuthorTaggerConfig.java:154-157 | under a filter header an indented line adds its trimmed text as an author to exactly the selected records; the scope, the list length and every other field (tagging mode included) stay |
| Config.IndentedLineUnderAuthor | src/main/java/hu/juranyi/zsolt/jauthortagger/input/AuthorTaggerConfig.java:154-159 | under an author header an indented line adds that author to exactly the records its trimmed text selects; the scope, the list length and every other field (tagging mode included) stay |
| Config.IndentedLineWithoutHeader | src/main/java/hu/juranyi/zsolt/jauthortagger/input/AuthorTaggerConfig.java:154-160 | before any header an indented line does nothing |
| Config.OtherLineIgnored | src/main/java/hu/juranyi/zsolt/jauthortagger/input/AuthorTaggerConfig.java:144-161 | a line that is no header and not indented changes nothing |
| Config.ApplyLineGrows | src/main/java/hu/juranyi/zsolt/jauthortagger/input/AuthorTaggerConfig.java:142-161 | one line keeps each record's place, file, type name, old authors and start line, only appends new authors, and leaves untyped records alone |
| Config.ApplyLinesGrows | src/main/java/hu/juranyi/zsolt/jauthortagger/input/AuthorTaggerConfig.java:142-162 | the same holds for any sequence of lines |
| Config.LoadAndApply | src/main/java/hu/juranyi/zsolt/jauthortagger/input/AuthorTaggerConfig.java:136-170 | a configuration file that cannot be opened changes nothing; the list keeps its length |
| Config.LoadAndApplyGrows | src/main/java/hu/juranyi/zsolt/jauthortagger/input/AuthorTaggerConfig.java:136-170 | applying a whole configuration only sets modes and appends new authors on typed records |
| Writer.AddAllSpec | src/main/java/hu/juranyi/zsolt/jauthortagger/output/AuthorTagWriter.java:121-125 | insertion into the ordered set keeps its elements in front, adds each new element once, in order of first occurrence |
| Writer.FinalAuthorsSpec | src/main/java/hu/juranyi/zsolt/jauthortagger/output/AuthorTagWriter.java:121-125 | the final list has no repeats, holds an author iff it is new or (under MERGE) old, and under MERGE starts with the old authors |
| Writer.TriggerIsNoDocStart | src/main/java/hu/juranyi/zsolt/jauthortagger/output/AuthorTagWriter.java:143-146 | a line that ends a doc comment or is an author line never starts a doc comment |
| Writer.FlagsOf | src/main/java/hu/juranyi/zsolt/jauthortagger/output/AuthorTagWriter.java:143-147 | the per-line tests the writer's loop makes, and that a trigger is no opener |
| Writer.AuthorBlock | src/main/java/hu/juranyi/zsolt/jauthortagger/output/AuthorTagWriter.java:160-163 | one line per author, each read back by the author pattern as that author |
| Writer.Processed | src/main/java/hu/juranyi/zsolt/jauthortagger/output/AuthorTagWriter.java:140-141 | the first loop reads exactly `start + 2` lines, or all of them when the file is shorter, and none when `start < -1`, so it always reaches the start line if it exists |
| Writer.RewriteMatchesReference | src/main/java/hu/juranyi/zsolt/jauthortagger/output/AuthorTagWriter.java:140-185 | the line-by-line rewrite equals the whole-file reference: fresh doc comment, block at the first trigger with later author lines dropped, or no change |
| Writer.RewriteWithoutDocComment | src/main/java/hu/juranyi/zsolt/jauthortagger/output/AuthorTagWriter.java:149-170 | with no doc comment up to the start line, a fresh doc comment with the authors goes right before it and nothing else changes |
| Writer.RewriteBeforeClosingLine | src/main/java/hu/juranyi/zsolt/jauthortagger/output/AuthorTagWriter.java:144-178 | a doc comment with no author line gets the authors inserted before its closing line, with every line kept |
| Writer.RewriteWithoutTrigger | src/main/java/hu/juranyi/zsolt/jauthortagger/output/AuthorTagWriter.java:140-185 | a doc comment with neither an author line nor a closing line in the first part leaves the file unchanged |
| Writer.WriteFrame | src/main/java/hu/juranyi/zsolt/jauthortagger/output/AuthorTagWriter.java:87-91 | only the live file and its three companions are touched |
| Writer.RestoreSpec | src/main/java/hu/juranyi/zsolt/jauthortagger/output/AuthorTagWriter.java:94-100 | RESTORE moves an existing backup over the live file, and without a backup does nothing |
| Writer.StaleFilesRemoved | src/main/java/hu/juranyi/zsolt/jauthortagger/output/AuthorTagWriter.java:102-110 | BACKUP and NO_BACKUP remove the test file, and NO_BACKUP the backup, rewritten or not |
| Writer.NotRewrittenKeepsLiveFile | src/main/java/hu/juranyi/zsolt/jauthortagger/output/AuthorTagWriter.java:112-116 | an untyped or skipped record keeps its live file and gets no temp file |
| Writer.TestModeSpec | src/main/java/hu/juranyi/zsolt/jauthortagger/output/AuthorTagWriter.java:88-89 | TEST puts the new content in the test file and leaves the live file and backup as they were |
| Writer.BackupModeSpec | src/main/java/hu/juranyi/zsolt/jauthortagger/output/AuthorTagWriter.java:198-208 | BACKUP saves the old content as the backup and puts the new content live, leaving no temp or test file |
| Writer.NoBackupModeSpec | src/main/java/hu/juranyi/zsolt/jauthortagger/output/AuthorTagWriter.java:102-110 | NO_BACKUP puts the new content live and leaves no companion file |
| Writer.BackupThenRestore | src/main/java/hu/juranyi/zsolt/jauthortagger/output/AuthorTagWriter.java:94-100 | BACKUP then RESTORE gives the live file its original content and leaves no companion file |
| Reanalysis.ReanalyzeFreshDocComment | src/test/java/hu/juranyi/zsolt/jauthortagger/test/AuthorTagWriterTest.java:193-197 | analysing a file that got a fresh doc comment finds the written authors, between the author lines before and after the start line |

## Left out

- The regular-expression engine is a parameter. `ClassNameFilter.accept`, `AbstractStringFilter.accept` and `filterJavaFiles` are stated in terms of its `matches` and `find`. The model proves what expression text is built, not how it matches.
- `Pattern.compile` failures are not modelled. A user filter between slashes that is no valid regular expression makes the Java code throw; here the engine simply receives the text.
- ClassNameFilters.DottedNameRegex: assumes the filter does not itself contain the placeholder `×` (U+00D7). The code uses that character internally, so a filter holding it gets a `*` in its place; `FilterStringToRegex` models that behaviour as written.
- I/O errors are not modelled: `FileNotFoundException` and `IOException` in the analyzer, the configuration reader and the writer, and the writer's `finally` path after a failed write. A missing file is modelled where the code checks for it. The writer assumes the temp file can always be written.
- Scanner line splitting is not modelled. A file is its sequence of lines, and the writer's output is that sequence; the trailing newline the writer always adds is not represented.
- The null record and null file check at the top of `writeAuthorTags` is left out, because a record always has a file in the model.
- `JavaFile.diffResult`, `DiffCalculator`, `DiffReportWriter`, `JavaFileEnumerator`, `IOUtils`, `Log` and the command-line entry point `JAuthorTagger` are outside the modelled core. Logging calls are dropped everywhere.
- `toString` methods and plain getters are not modelled; the record's fields are read directly.
- Reanalysis.ReanalyzeFreshDocComment: proved for the case where the writer adds a fresh doc comment only. Re-analysis after an insertion into an existing doc comment is not proved.
- Config.ParseMode: assumes a default locale whose upper-casing is ASCII-like. `AuthorTaggerConfig.java:190` calls `toUpperCase()` in the JVM's default locale; under a Turkish or Azeri locale `skip` and `overwrite` become `SKİP` and `OVERWRİTE` with a dotted capital I, `valueOf` throws, the exception is caught and no mode is set. The model folds ASCII letters only, so it always recognises those words.
- JavaFileList.DelAuthor: the source method is unfinished and removes nothing, so the model is the identity.
