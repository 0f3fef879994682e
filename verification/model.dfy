/**
  The record the whole pipeline passes around (`JavaFile`), the two enumerations
  that steer tagging and file routing, and the fixed file-name suffixes.
 */
module Model {
  import opened Strings
  import opened FileSystem

  /** How old and new authors combine for one file. */
  datatype AuthorTaggingMode = Merge | Overwrite | Skip

  /** Run-wide routing of the writer's output. */
  datatype BackupingMode = Backup | NoBackup | Restore | Test

  const BackupFileSuffix := ".at-save"
  const TempFileSuffix := ".at-temp"
  const TestFileSuffix := ".at-test"

  function BackupFileOf(p: Path): Path { p + BackupFileSuffix }
  function TempFileOf(p: Path): Path { p + TempFileSuffix }
  function TestFileOf(p: Path): Path { p + TestFileSuffix }

  /** The live file and its three companions are four different paths. */
  lemma CompanionPathsDistinct(p: Path)
    ensures p != BackupFileOf(p) && p != TempFileOf(p) && p != TestFileOf(p)
    ensures BackupFileOf(p) != TempFileOf(p) && BackupFileOf(p) != TestFileOf(p)
    ensures TempFileOf(p) != TestFileOf(p)
  {
    assert BackupFileOf(p)[|p| + 4] == 's';
    assert TempFileOf(p)[|p| + 4] == 't';
    assert TestFileOf(p)[|p| + 4] == 't';
    assert TestFileOf(p)[|p| + 6] == 's';
    assert TempFileOf(p)[|p| + 6] == 'm';
  }

  /**
    One `.java` file. `typeName` is `None` until the analyzer finds a public type;
    `oldAuthors` are the tags found in the file, `newAuthors` those the
    configuration adds; `startLine` is the zero-based anchor line, -1 if unknown.
   */
  datatype JavaFile = JavaFile(
    file: Path,
    typeName: Option<string>,
    taggingMode: AuthorTaggingMode,
    oldAuthors: seq<string>,
    newAuthors: seq<string>,
    startLine: int)

  /** `new JavaFile(file)` with every field at its declared default. */
  function NewJavaFile(file: Path): (jf: JavaFile)
    ensures jf.file == file
    ensures jf.typeName == None
    ensures jf.taggingMode == Merge
    ensures jf.oldAuthors == [] && jf.newAuthors == []
    ensures jf.startLine == -1
  {
    JavaFile(file, None, Merge, [], [], -1)
  }

  // ----------------------------------- in-place list walks (remove, set, step)

  /** `List.remove(i)` where the list from `i` on is `rest`: the prefix stays, the tail moves on by one. */
  lemma RemoveAtSplit<T>(list: seq<T>, i: nat, rest: seq<T>)
    requires i < |list| && list[i..] == rest
    ensures list[i] == rest[0]
    ensures (list[..i] + list[i + 1..])[..i] == list[..i]
    ensures (list[..i] + list[i + 1..])[i..] == rest[1..]
  {
  }

  /** `List.set(i, x)` followed by a step past `i`: the prefix grows by `x`, the tail moves on by one. */
  lemma SetAtSplit<T>(list: seq<T>, i: nat, x: T, rest: seq<T>)
    requires i < |list| && list[i..] == rest
    ensures list[i] == rest[0]
    ensures (list[..i] + [x] + list[i + 1..])[..i + 1] == list[..i] + [x]
    ensures (list[..i] + [x] + list[i + 1..])[i + 1..] == rest[1..]
  {
  }

  /** Stepping past `i` without changing the list. */
  lemma StepPastSplit<T>(list: seq<T>, i: nat, rest: seq<T>)
    requires i < |list| && list[i..] == rest
    ensures list[i] == rest[0]
    ensures list[..i + 1] == list[..i] + [list[i]]
    ensures list[i + 1..] == rest[1..]
  {
  }

  /** The fields a setter may not touch are the same in both records. */
  predicate SameExceptTaggingMode(a: JavaFile, b: JavaFile) {
    a.file == b.file && a.typeName == b.typeName && a.oldAuthors == b.oldAuthors
    && a.newAuthors == b.newAuthors && a.startLine == b.startLine
  }

  predicate SameExceptStartLine(a: JavaFile, b: JavaFile) {
    a.file == b.file && a.typeName == b.typeName && a.taggingMode == b.taggingMode
    && a.oldAuthors == b.oldAuthors && a.newAuthors == b.newAuthors
  }

  predicate SameExceptNewAuthors(a: JavaFile, b: JavaFile) {
    a.file == b.file && a.typeName == b.typeName && a.taggingMode == b.taggingMode
    && a.oldAuthors == b.oldAuthors && a.startLine == b.startLine
  }

  predicate SameExceptTypeName(a: JavaFile, b: JavaFile) {
    a.file == b.file && a.taggingMode == b.taggingMode && a.oldAuthors == b.oldAuthors
    && a.newAuthors == b.newAuthors && a.startLine == b.startLine
  }

  function SetTaggingMode(jf: JavaFile, mode: AuthorTaggingMode): (r: JavaFile)
    ensures r.taggingMode == mode && SameExceptTaggingMode(jf, r)
  {
    jf.(taggingMode := mode)
  }

  function SetTypeDeclarationStartLine(jf: JavaFile, line: int): (r: JavaFile)
    ensures r.startLine == line && SameExceptStartLine(jf, r)
  {
    jf.(startLine := line)
  }

  function SetTypeName(jf: JavaFile, name: string): (r: JavaFile)
    ensures r.typeName == Some(name) && SameExceptTypeName(jf, r)
  {
    jf.(typeName := Some(name))
  }
}
