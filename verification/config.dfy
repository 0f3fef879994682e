/**
  `AuthorTaggerConfig`: the interpreter of the project configuration file. The
  file is read line by line; filter headers select records and may set their
  tagging mode, author headers pick an author, and tab-indented lines add
  authors to records.
 */
module Config {
  import opened Strings
  import opened Regex
  import opened Model
  import ClassNameFilters

  // ------------------------------------------------------------ line syntax

  /** `replaceAll("#.*$", "")`: everything from the first `#` on is dropped. */
  function StripComment(line: string): (r: string)
    ensures StartsWith(line, r) && !Contains(r, '#')
    ensures |r| < |line| ==> line[|r|] == '#'
  {
    if |line| == 0 || line[0] == '#' then ""
    else [line[0]] + StripComment(line[1..])
  }

  /** `replaceAll("\\s+$", "")`: the longest run of whitespace at the end is dropped. */
  function StripTrailingSpace(s: string): (r: string)
    ensures StartsWith(s, r)
    ensures forall i :: |r| <= i < |s| ==> IsRegexSpace(s[i])
    ensures |r| > 0 ==> !IsRegexSpace(r[|r| - 1])
  {
    if |s| > 0 && IsRegexSpace(s[|s| - 1]) then StripTrailingSpace(s[..|s| - 1]) else s
  }

  /** The line the interpreter works on. */
  function Normalize(line: string): string {
    StripTrailingSpace(StripComment(line))
  }

  const FilterHeaderPrefix := "$\t"
  const AuthorHeaderPrefix := "@\t"

  function IsNotTab(c: char): bool {
    c != '\t'
  }

  /** The lower-case spelling of a mode in a filter header. */
  function ModeName(m: AuthorTaggingMode): string {
    match m
    case Merge => "merge"
    case Overwrite => "overwrite"
    case Skip => "skip"
  }

  /** `merge|overwrite|skip` in any letter case, followed by the end of the line. */
  function ParseMode(word: string): (r: Option<AuthorTaggingMode>)
    ensures r.Some? ==> EqualsIgnoreCase(word, ModeName(r.value))
    ensures r.None? ==> forall m: AuthorTaggingMode :: !EqualsIgnoreCase(word, ModeName(m))
  {
    if EqualsIgnoreCase(word, "merge") then Some(Merge)
    else if EqualsIgnoreCase(word, "overwrite") then Some(Overwrite)
    else if EqualsIgnoreCase(word, "skip") then Some(Skip)
    else None
  }

  /**
    `^\$\t(?<f>[^\t]+)(\t(?<m>merge|overwrite|skip))?$`: the filter is the run of
    non-tab characters after `$` and a tab; after it the line ends, or a tab and
    a mode word end it.
   */
  function FilterHeader(line: string): (r: Option<(string, Option<AuthorTaggingMode>)>)
    ensures r.Some? ==> |r.value.0| > 0 && !Contains(r.value.0, '\t')
    ensures r.Some? && r.value.1.None? ==> line == FilterHeaderPrefix + r.value.0
    ensures r.Some? && r.value.1.Some? ==>
      var n := |FilterHeaderPrefix| + |r.value.0|;
      && n < |line| && line[..n] == FilterHeaderPrefix + r.value.0
      && line[n] == '\t'
      && EqualsIgnoreCase(line[n + 1..], ModeName(r.value.1.value))
  {
    if StartsWith(line, FilterHeaderPrefix) then
      var rest := line[|FilterHeaderPrefix|..];
      var n := SpanWhile(rest, IsNotTab);
      if n == 0 then None
      else if n == |rest| then
        assert line == FilterHeaderPrefix + rest;
        Some((rest, None))
      else match ParseMode(rest[n + 1..])
        case Some(m) => Some((rest[..n], Some(m)))
        case None => None
    else
      None
  }

  /** `^@\t(?<a>.*)$`, case-sensitive: the trimmed rest of the line. */
  function AuthorHeader(line: string): (r: Option<string>)
    ensures r.Some? <==> StartsWith(line, AuthorHeaderPrefix)
    ensures r.Some? ==> r.value == Trim(line[|AuthorHeaderPrefix|..])
  {
    if StartsWith(line, AuthorHeaderPrefix) then Some(Trim(line[|AuthorHeaderPrefix|..])) else None
  }

  // --------------------------------------------------------------- effects

  /**
    `filterJavaFiles`: a blank filter selects nothing; otherwise the records
    whose type name exists and matches the translated filter as a whole.
   */
  function Selected(engine: RegexEngine, files: seq<JavaFile>, filter: string): (sel: set<nat>)
    ensures forall i :: i in sel ==> i < |files|
    ensures forall i :: i in sel ==> files[i].typeName.Some?
    ensures forall i :: 0 <= i < |files| ==>
      (i in sel <==> Trim(filter) != ""
                     && ClassNameFilters.Accept(engine, ClassNameFilters.NewClassNameFilter(filter), files[i].typeName))
  {
    if Trim(filter) == "" then {}
    else
      var regex := ClassNameFilters.FilterStringToRegex(filter);
      set i: nat | i < |files| && files[i].typeName.Some? && engine.matches(regex, files[i].typeName.value)
  }

  /** `setTaggingMode`: with a mode, every selected record takes it; without one, nothing changes. */
  function SetModes(files: seq<JavaFile>, sel: set<nat>, mode: Option<AuthorTaggingMode>): (r: seq<JavaFile>)
    ensures |r| == |files|
    ensures forall i :: 0 <= i < |files| ==>
      && SameExceptTaggingMode(r[i], files[i])
      && r[i].taggingMode == (if mode.Some? && i in sel then mode.value else files[i].taggingMode)
  {
    seq(|files|, i requires 0 <= i < |files| =>
      if mode.Some? && i in sel then SetTaggingMode(files[i], mode.value) else files[i])
  }

  /** `addAuthor`: every selected record gets the author appended to its new authors. */
  function AddNewAuthor(files: seq<JavaFile>, sel: set<nat>, author: string): (r: seq<JavaFile>)
    ensures |r| == |files|
    ensures forall i :: 0 <= i < |files| ==>
      && SameExceptNewAuthors(r[i], files[i])
      && r[i].newAuthors == files[i].newAuthors + (if i in sel then [author] else [])
  {
    seq(|files|, i requires 0 <= i < |files| =>
      if i in sel then files[i].(newAuthors := files[i].newAuthors + [author]) else files[i])
  }

  // ------------------------------------------------------------ interpreter

  /**
    The interpreter's state between lines: the selection of the last filter
    header, or the author of the last author header, or neither (before any
    header). The two never hold at once.
   */
  datatype Scope = NoScope | Selection(indices: set<nat>) | AuthorScope(author: string)

  /** One line of the configuration file. */
  function ApplyLine(engine: RegexEngine, files: seq<JavaFile>, scope: Scope, raw: string)
    : (r: (seq<JavaFile>, Scope))
    ensures |r.0| == |files|
  {
    var line := Normalize(raw);
    match FilterHeader(line)
    case Some((filter, mode)) =>
      var sel := Selected(engine, files, filter);
      (SetModes(files, sel, mode), Selection(sel))
    case None =>
      match AuthorHeader(line)
      case Some(author) => (files, AuthorScope(author))
      case None =>
        if StartsWith(line, "\t") then
          var text := Trim(line);
          match scope
          case Selection(sel) => (AddNewAuthor(files, sel, text), scope)
          case AuthorScope(author) => (AddNewAuthor(files, Selected(engine, files, text), author), scope)
          case NoScope => (files, scope)
        else
          (files, scope)
  }

  function ApplyLines(engine: RegexEngine, files: seq<JavaFile>, scope: Scope, lines: seq<string>)
    : (r: seq<JavaFile>)
    ensures |r| == |files|
    decreases |lines|
  {
    if |lines| == 0 then files
    else
      var (files', scope') := ApplyLine(engine, files, scope, lines[0]);
      ApplyLines(engine, files', scope', lines[1..])
  }

  /** `loadAndApply`: a configuration file that cannot be opened changes nothing. */
  function LoadAndApply(engine: RegexEngine, config: Option<seq<string>>, files: seq<JavaFile>)
    : (r: seq<JavaFile>)
    ensures config.None? ==> r == files
    ensures |r| == |files|
  {
    match config
    case None => files
    case Some(lines) => ApplyLines(engine, files, NoScope, lines)
  }

  // ------------------------------------------------------------ properties

  /** Normalising twice changes nothing more. */
  lemma NormalizeIdempotent(line: string)
    ensures Normalize(Normalize(line)) == Normalize(line)
  {
    var n := Normalize(line);
    StripCommentOfClean(n);
    StripTrailingSpaceOfClean(n);
  }

  lemma {:induction false} StripCommentOfClean(s: string)
    requires !Contains(s, '#')
    ensures StripComment(s) == s
    decreases |s|
  {
    if |s| > 0 {
      assert s[0] != '#';
      assert !Contains(s[1..], '#') by {
        forall i | 0 <= i < |s[1..]| ensures s[1..][i] != '#' {
          assert s[1..][i] == s[i + 1];
        }
      }
      StripCommentOfClean(s[1..]);
      assert s == [s[0]] + s[1..];
    }
  }

  lemma StripTrailingSpaceOfClean(s: string)
    requires |s| > 0 ==> !IsRegexSpace(s[|s| - 1])
    ensures StripTrailingSpace(s) == s
  {
  }

  /** A line whose first character is `#` is a comment and changes nothing. */
  lemma CommentLineIgnored(engine: RegexEngine, files: seq<JavaFile>, scope: Scope, raw: string)
    requires |raw| > 0 && raw[0] == '#'
    ensures ApplyLine(engine, files, scope, raw) == (files, scope)
  {
    assert Normalize(raw) == "";
  }

  /** The header written for a filter without a mode is read back as that filter. */
  lemma FilterHeaderRoundTrip(filter: string)
    requires |filter| > 0 && !Contains(filter, '\t')
    ensures FilterHeader(FilterHeaderPrefix + filter) == Some((filter, None))
  {
    var line := FilterHeaderPrefix + filter;
    assert line[|FilterHeaderPrefix|..] == filter;
    SpanWhileUnique(filter, IsNotTab, |filter|);
  }

  /** A mode word after the filter is read back in any letter case. */
  lemma FilterHeaderWithModeRoundTrip(filter: string, word: string, m: AuthorTaggingMode)
    requires |filter| > 0 && !Contains(filter, '\t')
    requires EqualsIgnoreCase(word, ModeName(m))
    ensures FilterHeader(FilterHeaderPrefix + filter + "\t" + word) == Some((filter, Some(m)))
  {
    var line := FilterHeaderPrefix + filter + "\t" + word;
    var rest := line[|FilterHeaderPrefix|..];
    assert rest == filter + "\t" + word;
    assert rest[|filter|] == '\t';
    SpanWhileUnique(rest, IsNotTab, |filter|);
    assert rest[..|filter|] == filter;
    assert rest[|filter| + 1..] == word;
    match m
    case Merge =>
    case Overwrite =>
      assert !EqualsIgnoreCase(word, "merge");
    case Skip =>
      assert !EqualsIgnoreCase(word, "merge");
      assert !EqualsIgnoreCase(word, "overwrite");
  }

  /** A filter followed by a tab and anything but a mode word is no header at all. */
  lemma FilterHeaderRejectsUnknownMode(filter: string, word: string)
    requires |filter| > 0 && !Contains(filter, '\t')
    requires forall m: AuthorTaggingMode :: !EqualsIgnoreCase(word, ModeName(m))
    ensures FilterHeader(FilterHeaderPrefix + filter + "\t" + word) == None
  {
    var line := FilterHeaderPrefix + filter + "\t" + word;
    var rest := line[|FilterHeaderPrefix|..];
    assert rest == filter + "\t" + word;
    assert rest[|filter|] == '\t';
    SpanWhileUnique(rest, IsNotTab, |filter|);
    assert rest[|filter| + 1..] == word;
  }

  /** The selection of the last filter header refers to typed records of the list. */
  predicate ScopeFits(files: seq<JavaFile>, scope: Scope) {
    scope.Selection? ==> TypedSelection(files, scope.indices)
  }

  /**
    What the configuration may do to the list: records keep their place, file,
    type name, old authors and start line; new authors are only ever appended;
    a record without a type name is not touched at all.
   */
  predicate Grows(before: seq<JavaFile>, after: seq<JavaFile>) {
    && |after| == |before|
    && forall i :: 0 <= i < |before| ==>
      && after[i].file == before[i].file
      && after[i].typeName == before[i].typeName
      && after[i].oldAuthors == before[i].oldAuthors
      && after[i].startLine == before[i].startLine
      && StartsWithSeq(after[i].newAuthors, before[i].newAuthors)
      && (before[i].typeName.None? ==> after[i] == before[i])
  }

  predicate StartsWithSeq(s: seq<string>, prefix: seq<string>) {
    |prefix| <= |s| && s[..|prefix|] == prefix
  }

  lemma GrowsTransitive(a: seq<JavaFile>, b: seq<JavaFile>, c: seq<JavaFile>)
    requires Grows(a, b) && Grows(b, c)
    ensures Grows(a, c)
  {
    forall i | 0 <= i < |a|
      ensures StartsWithSeq(c[i].newAuthors, a[i].newAuthors)
    {
      assert c[i].newAuthors[..|a[i].newAuthors|] == b[i].newAuthors[..|a[i].newAuthors|];
    }
  }

  /** A selection of typed records. */
  predicate TypedSelection(files: seq<JavaFile>, sel: set<nat>) {
    forall i :: i in sel ==> i < |files| && files[i].typeName.Some?
  }

  lemma SetModesGrows(files: seq<JavaFile>, sel: set<nat>, mode: Option<AuthorTaggingMode>)
    requires TypedSelection(files, sel)
    ensures Grows(files, SetModes(files, sel, mode))
  {
    var r := SetModes(files, sel, mode);
    forall i | 0 <= i < |files| ensures StartsWithSeq(r[i].newAuthors, files[i].newAuthors) {
      assert r[i].newAuthors[..|files[i].newAuthors|] == files[i].newAuthors;
    }
  }

  lemma AddNewAuthorGrows(files: seq<JavaFile>, sel: set<nat>, author: string)
    requires TypedSelection(files, sel)
    ensures Grows(files, AddNewAuthor(files, sel, author))
  {
    var r := AddNewAuthor(files, sel, author);
    forall i | 0 <= i < |files| ensures StartsWithSeq(r[i].newAuthors, files[i].newAuthors) {
      assert r[i].newAuthors[..|files[i].newAuthors|] == files[i].newAuthors;
    }
  }

  lemma GrowsReflexive(files: seq<JavaFile>)
    ensures Grows(files, files)
  {
    assert forall i :: 0 <= i < |files| ==> files[i].newAuthors[..|files[i].newAuthors|] == files[i].newAuthors;
  }

  /** One line keeps the list growing and the scope fitting it. */
  lemma ApplyLineGrows(engine: RegexEngine, files: seq<JavaFile>, scope: Scope, raw: string)
    requires ScopeFits(files, scope)
    ensures Grows(files, ApplyLine(engine, files, scope, raw).0)
    ensures ScopeFits(ApplyLine(engine, files, scope, raw).0, ApplyLine(engine, files, scope, raw).1)
  {
    var line := Normalize(raw);
    var r := ApplyLine(engine, files, scope, raw);
    match FilterHeader(line)
    case Some((filter, mode)) =>
      SetModesGrows(files, Selected(engine, files, filter), mode);
    case None =>
      if AuthorHeader(line).None? && StartsWith(line, "\t") {
        match scope
        case Selection(sel) => AddNewAuthorGrows(files, sel, Trim(line));
        case AuthorScope(author) => AddNewAuthorGrows(files, Selected(engine, files, Trim(line)), author);
        case NoScope => GrowsReflexive(files);
      } else {
        GrowsReflexive(files);
      }
  }

  lemma {:induction false} ApplyLinesGrows(engine: RegexEngine, files: seq<JavaFile>, scope: Scope, lines: seq<string>)
    requires ScopeFits(files, scope)
    ensures Grows(files, ApplyLines(engine, files, scope, lines))
    decreases |lines|
  {
    if |lines| == 0 {
      GrowsReflexive(files);
    } else {
      var (files', scope') := ApplyLine(engine, files, scope, lines[0]);
      ApplyLineGrows(engine, files, scope, lines[0]);
      ApplyLinesGrows(engine, files', scope', lines[1..]);
      GrowsTransitive(files, files', ApplyLines(engine, files', scope', lines[1..]));
    }
  }

  /**
    Whatever the configuration file says, applying it only adds new authors and
    changes tagging modes, and only of records that have a type name.
   */
  lemma LoadAndApplyGrows(engine: RegexEngine, config: Option<seq<string>>, files: seq<JavaFile>)
    ensures Grows(files, LoadAndApply(engine, config, files))
  {
    if config.Some? {
      ApplyLinesGrows(engine, files, NoScope, config.value);
    } else {
      GrowsReflexive(files);
    }
  }

  /**
    A filter header selects the matching records, forgets the current author,
    and gives the selected records its mode, if it names one; nobody gains an
    author.
   */
  lemma FilterHeaderLine(engine: RegexEngine, files: seq<JavaFile>, scope: Scope, raw: string,
                         filter: string, mode: Option<AuthorTaggingMode>)
    requires FilterHeader(Normalize(raw)) == Some((filter, mode))
    ensures var (files', scope') := ApplyLine(engine, files, scope, raw);
      && scope' == Selection(Selected(engine, files, filter))
      && forall i :: 0 <= i < |files| ==>
        && SameExceptTaggingMode(files'[i], files[i])
        && files'[i].taggingMode ==
             (if mode.Some? && i in Selected(engine, files, filter) then mode.value else files[i].taggingMode)
  {
  }

  /** An author header names the author of the following lines and ends the selection. */
  lemma AuthorHeaderLine(engine: RegexEngine, files: seq<JavaFile>, scope: Scope, raw: string)
    requires FilterHeader(Normalize(raw)).None?
    requires StartsWith(Normalize(raw), AuthorHeaderPrefix)
    ensures ApplyLine(engine, files, scope, raw)
         == (files, AuthorScope(Trim(Normalize(raw)[|AuthorHeaderPrefix|..])))
  {
  }

  /** Under a filter header, an indented line is an author given to every selected record. */
  lemma IndentedLineUnderFilter(engine: RegexEngine, files: seq<JavaFile>, sel: set<nat>, raw: string)
    requires StartsWith(Normalize(raw), "\t")
    ensures var (files', scope') := ApplyLine(engine, files, Selection(sel), raw);
      && scope' == Selection(sel)
      && |files'| == |files|
      && forall i :: 0 <= i < |files| ==>
        && SameExceptNewAuthors(files'[i], files[i])
        && files'[i].newAuthors == files[i].newAuthors + (if i in sel then [Trim(Normalize(raw))] else [])
  {
    var line := Normalize(raw);
    assert line[0] == '\t';
    assert FilterHeader(line).None? by {
      assert !StartsWith(line, FilterHeaderPrefix) by { assert FilterHeaderPrefix[0] == '$'; }
    }
    assert AuthorHeader(line).None? by { assert AuthorHeaderPrefix[0] == '@'; }
  }

  /** Under an author header, an indented line is a filter whose records gain that author. */
  lemma IndentedLineUnderAuthor(engine: RegexEngine, files: seq<JavaFile>, author: string, raw: string)
    requires StartsWith(Normalize(raw), "\t")
    ensures var (files', scope') := ApplyLine(engine, files, AuthorScope(author), raw);
      && scope' == AuthorScope(author)
      && |files'| == |files|
      && forall i :: 0 <= i < |files| ==>
        && SameExceptNewAuthors(files'[i], files[i])
        && files'[i].newAuthors
           == files[i].newAuthors + (if i in Selected(engine, files, Trim(Normalize(raw))) then [author] else [])
  {
    var line := Normalize(raw);
    assert line[0] == '\t';
    assert FilterHeader(line).None? by {
      assert !StartsWith(line, FilterHeaderPrefix) by { assert FilterHeaderPrefix[0] == '$'; }
    }
    assert AuthorHeader(line).None? by { assert AuthorHeaderPrefix[0] == '@'; }
  }

  /** Before any header, indented lines have nothing to attach to. */
  lemma IndentedLineWithoutHeader(engine: RegexEngine, files: seq<JavaFile>, raw: string)
    requires StartsWith(Normalize(raw), "\t")
    ensures ApplyLine(engine, files, NoScope, raw) == (files, NoScope)
  {
    var line := Normalize(raw);
    assert line[0] == '\t';
    assert FilterHeader(line).None? by {
      assert !StartsWith(line, FilterHeaderPrefix) by { assert FilterHeaderPrefix[0] == '$'; }
    }
    assert AuthorHeader(line).None? by { assert AuthorHeaderPrefix[0] == '@'; }
  }

  /** A line that is neither header nor indented (a blank line, say) changes nothing. */
  lemma OtherLineIgnored(engine: RegexEngine, files: seq<JavaFile>, scope: Scope, raw: string)
    requires FilterHeader(Normalize(raw)).None?
    requires !StartsWith(Normalize(raw), AuthorHeaderPrefix)
    requires !StartsWith(Normalize(raw), "\t")
    ensures ApplyLine(engine, files, scope, raw) == (files, scope)
  {
  }
}
