/**
  `JavaFileAnalyzer`: one forward pass over a file's lines that finds the
  package, the existing author tags, the first public type and the line where
  that type's declaration (annotations included) begins.
 */
module Analyzer {
  import opened Strings
  import opened FileSystem
  import opened Model
  import opened Patterns

  // ------------------------------------------------------------ package scan

  /** The package pattern's capture on every line. */
  function PackageCaptures(lines: seq<string>): (caps: seq<Option<string>>)
    ensures |caps| == |lines|
    ensures forall i :: 0 <= i < |lines| ==> caps[i] == PackageCapture(lines[i])
  {
    seq(|lines|, i requires 0 <= i < |lines| => PackageCapture(lines[i]))
  }

  /**
    The first loop: the zero-based index of the first package line at or after
    `ln` and its trimmed package name, or `None` when every line is consumed
    without one.
   */
  function PackageScan(caps: seq<Option<string>>, ln: nat): (r: Option<(nat, string)>)
    requires ln <= |caps|
    ensures r.Some? ==> ln <= r.value.0 < |caps| && caps[r.value.0].Some?
    ensures r.Some? ==> r.value.1 == Trim(caps[r.value.0].value)
    ensures r.Some? ==> forall k :: ln <= k < r.value.0 ==> caps[k].None?
    ensures r.None? <==> forall k :: ln <= k < |caps| ==> caps[k].None?
    decreases |caps| - ln
  {
    if ln == |caps| then None
    else match caps[ln]
      case Some(name) => Some((ln, Trim(name)))
      case None => PackageScan(caps, ln + 1)
  }

  // ------------------------------------------------------- declaration scan

  /** How the second loop reads one line: the three matchers, tried in this order. */
  datatype LineKind = AuthorTag(author: string) | Annotation | TypeDeclaration(name: string) | Other

  /** Author first, then annotation, then type declaration; a line matching an earlier test is not tried later. */
  function Classify(line: string): (k: LineKind)
    ensures k.AuthorTag? <==> IsAuthorLine(line)
    ensures k.AuthorTag? ==> k.author == Trim(AuthorCapture(line).value)
    ensures k.Annotation? <==> IsAnnotationLine(line)
    ensures k.TypeDeclaration? <==> IsTypeLine(line)
    ensures k.TypeDeclaration? ==> k.name == TypeCapture(line).value
  {
    LineKindsDisjoint(line);
    match AuthorCapture(line)
    case Some(author) => AuthorTag(Trim(author))
    case None =>
      if IsAnnotationLine(line) then Annotation
      else match TypeCapture(line)
        case Some(name) => TypeDeclaration(name)
        case None => Other
  }

  function ClassifyAll(lines: seq<string>): (ks: seq<LineKind>)
    ensures |ks| == |lines|
    ensures forall i :: 0 <= i < |lines| ==> ks[i] == Classify(lines[i])
  {
    seq(|lines|, i requires 0 <= i < |lines| => Classify(lines[i]))
  }

  /** What one line after the package line does to the record. */
  function ScanLine(jf: JavaFile, kind: LineKind, ln: nat, pkg: string): JavaFile {
    match kind
    case AuthorTag(author) => jf.(oldAuthors := jf.oldAuthors + [author])
    case Annotation => SetTypeDeclarationStartLine(jf, ln)
    case TypeDeclaration(name) =>
      var marked := if jf.startLine == -1 then SetTypeDeclarationStartLine(jf, ln) else jf;
      SetTypeName(marked, pkg + "." + name)
    case Other => jf
  }

  /** The second loop: runs from line `ln` until a type name is set or the lines run out. */
  function ScanDeclarations(jf: JavaFile, kinds: seq<LineKind>, ln: nat, pkg: string): (r: JavaFile)
    requires ln <= |kinds|
    ensures r.file == jf.file && r.taggingMode == jf.taggingMode && r.newAuthors == jf.newAuthors
    decreases |kinds| - ln
  {
    if jf.typeName.Some? || ln == |kinds| then jf
    else ScanDeclarations(ScanLine(jf, kinds[ln], ln, pkg), kinds, ln + 1, pkg)
  }

  /** Outcome of `analyzeJavaFile`: the updated record and the returned flag. */
  datatype Analysis = Analysis(file: JavaFile, success: bool)

  /** `analyzeJavaFile` on the lines of an existing file. */
  function AnalyzeLines(jf: JavaFile, lines: seq<string>): (a: Analysis)
    ensures a.success <==> a.file.typeName.Some?
    ensures a.file.file == jf.file && a.file.taggingMode == jf.taggingMode
    ensures a.file.newAuthors == jf.newAuthors
  {
    match PackageScan(PackageCaptures(lines), 0)
    case None => Analysis(jf, jf.typeName.Some?)
    case Some((p, pkg)) =>
      var r := ScanDeclarations(jf, ClassifyAll(lines), p + 1, pkg);
      Analysis(r, r.typeName.Some?)
  }

  /** `analyzeJavaFile`: a file that cannot be opened leaves the record alone and fails. */
  function AnalyzeJavaFile(fs: Fs, jf: JavaFile): (a: Analysis)
    ensures jf.file !in fs ==> a == Analysis(jf, false)
    ensures jf.file in fs ==> a == AnalyzeLines(jf, fs[jf.file])
  {
    if jf.file in fs then AnalyzeLines(jf, fs[jf.file]) else Analysis(jf, false)
  }

  // ------------------------------------------------------ reference reading

  /** The names of the author lines among `ks`, in file order, repeats kept. */
  function AuthorsIn(ks: seq<LineKind>): seq<string> {
    if |ks| == 0 then []
    else (if ks[0].AuthorTag? then [ks[0].author] else []) + AuthorsIn(ks[1..])
  }

  /** The first type-declaration line at or after `from`. */
  function FirstTypeLine(ks: seq<LineKind>, from: nat): (r: Option<nat>)
    requires from <= |ks|
    ensures r.Some? ==> from <= r.value < |ks| && ks[r.value].TypeDeclaration?
    ensures r.Some? ==> forall k :: from <= k < r.value ==> !ks[k].TypeDeclaration?
    ensures r.None? ==> forall k :: from <= k < |ks| ==> !ks[k].TypeDeclaration?
    decreases |ks| - from
  {
    if from == |ks| then None
    else if ks[from].TypeDeclaration? then Some(from)
    else FirstTypeLine(ks, from + 1)
  }

  /** The last annotation line in `[lo, hi)`. */
  function LastAnnotation(ks: seq<LineKind>, lo: nat, hi: nat): (r: Option<nat>)
    requires lo <= hi <= |ks|
    ensures r.Some? ==> lo <= r.value < hi && ks[r.value].Annotation?
    ensures r.Some? ==> forall k :: r.value < k < hi ==> !ks[k].Annotation?
    ensures r.None? ==> forall k :: lo <= k < hi ==> !ks[k].Annotation?
    decreases hi - lo
  {
    if lo == hi then None
    else if ks[hi - 1].Annotation? then Some(hi - 1)
    else LastAnnotation(ks, lo, hi - 1)
  }

  /** Where the second loop stops: just after the first type line, or at the end. */
  function ScanEnd(ks: seq<LineKind>, from: nat): (e: nat)
    requires from <= |ks|
    ensures from <= e <= |ks|
  {
    match FirstTypeLine(ks, from)
    case Some(k) => k + 1
    case None => |ks|
  }

  /** The start line the scan leaves behind, read off the lines it examined. */
  function ExpectedStartLine(jf: JavaFile, ks: seq<LineKind>, from: nat): int
    requires from <= |ks|
  {
    var t := FirstTypeLine(ks, from);
    var upTo := if t.Some? then t.value else |ks|;
    match LastAnnotation(ks, from, upTo)
    case Some(a) => a
    case None => if t.Some? && jf.startLine == -1 then t.value else jf.startLine
  }

  /** The type name the scan sets, read off the first type line. */
  function ExpectedTypeName(ks: seq<LineKind>, from: nat, pkg: string): Option<string>
    requires from <= |ks|
  {
    match FirstTypeLine(ks, from)
    case Some(k) => Some(pkg + "." + ks[k].name)
    case None => None
  }

  /** The scan from line `ln` ends as the reference reading of the lines predicts. */
  predicate ScanAsExpected(jf: JavaFile, ks: seq<LineKind>, ln: nat, pkg: string)
    requires ln <= |ks|
  {
    var r := ScanDeclarations(jf, ks, ln, pkg);
    && r.oldAuthors == jf.oldAuthors + AuthorsIn(ks[ln..ScanEnd(ks, ln)])
    && r.typeName == ExpectedTypeName(ks, ln, pkg)
    && r.startLine == ExpectedStartLine(jf, ks, ln)
  }

  // ------------------------------------------------------------------ proofs

  lemma {:induction false} LastAnnotationSplit(ks: seq<LineKind>, lo: nat, hi: nat)
    requires lo < hi <= |ks|
    ensures LastAnnotation(ks, lo, hi) ==
      (if LastAnnotation(ks, lo + 1, hi).Some? then LastAnnotation(ks, lo + 1, hi)
       else if ks[lo].Annotation? then Some(lo) else None)
    decreases hi - lo
  {
    if hi > lo + 1 {
      LastAnnotationSplit(ks, lo, hi - 1);
    }
  }

  /** The scan from a type line: that line ends it. */
  lemma ScanAtTypeLine(jf: JavaFile, ks: seq<LineKind>, ln: nat, pkg: string)
    requires ln < |ks| && jf.typeName.None? && ks[ln].TypeDeclaration?
    ensures ScanAsExpected(jf, ks, ln, pkg)
  {
    assert FirstTypeLine(ks, ln) == Some(ln);
    assert ks[ln..ScanEnd(ks, ln)] == [ks[ln]];
  }

  /** A line that declares no type: the prediction from the next line carries back. */
  lemma ScanPastNonType(jf: JavaFile, ks: seq<LineKind>, ln: nat, pkg: string)
    requires ln < |ks| && jf.typeName.None? && !ks[ln].TypeDeclaration?
    requires ScanAsExpected(ScanLine(jf, ks[ln], ln, pkg), ks, ln + 1, pkg)
    ensures ScanAsExpected(jf, ks, ln, pkg)
  {
    var next := ScanLine(jf, ks[ln], ln, pkg);
    assert ScanDeclarations(jf, ks, ln, pkg) == ScanDeclarations(next, ks, ln + 1, pkg);
    assert FirstTypeLine(ks, ln) == FirstTypeLine(ks, ln + 1);
    AuthorsPastNonType(jf, ks, ln, pkg);
    StartLinePastNonType(jf, ks, ln, pkg);
  }

  /** The authors the scan collects from line `ln` on: this line's, then the rest. */
  lemma AuthorsPastNonType(jf: JavaFile, ks: seq<LineKind>, ln: nat, pkg: string)
    requires ln < |ks| && !ks[ln].TypeDeclaration?
    ensures ScanLine(jf, ks[ln], ln, pkg).oldAuthors + AuthorsIn(ks[ln + 1..ScanEnd(ks, ln + 1)])
         == jf.oldAuthors + AuthorsIn(ks[ln..ScanEnd(ks, ln)])
  {
    var e := ScanEnd(ks, ln);
    assert FirstTypeLine(ks, ln) == FirstTypeLine(ks, ln + 1);
    var head := if ks[ln].AuthorTag? then [ks[ln].author] else [];
    assert ScanLine(jf, ks[ln], ln, pkg).oldAuthors == jf.oldAuthors + head;
    assert AuthorsIn(ks[ln..e]) == head + AuthorsIn(ks[ln + 1..e]) by {
      assert ks[ln..e][0] == ks[ln];
      assert ks[ln..e][1..] == ks[ln + 1..e];
    }
    AppendAssoc(jf.oldAuthors, head, AuthorsIn(ks[ln + 1..e]));
  }

  /** The start line the scan predicts from line `ln` on, past a line that declares no type. */
  lemma StartLinePastNonType(jf: JavaFile, ks: seq<LineKind>, ln: nat, pkg: string)
    requires ln < |ks| && !ks[ln].TypeDeclaration?
    ensures ExpectedStartLine(ScanLine(jf, ks[ln], ln, pkg), ks, ln + 1) == ExpectedStartLine(jf, ks, ln)
  {
    var t := FirstTypeLine(ks, ln);
    assert t == FirstTypeLine(ks, ln + 1);
    var upTo := if t.Some? then t.value else |ks|;
    LastAnnotationSplit(ks, ln, upTo);
  }


  /**
    The second loop, read declaratively: starting from a record with no type
    name, it appends the authors of the examined lines, sets the type name from
    the first type line, and leaves the start line at the last annotation before
    that line, else at the type line if it was still -1.
   */
  lemma {:induction false} ScanCharacterization(jf: JavaFile, ks: seq<LineKind>, ln: nat, pkg: string)
    requires ln <= |ks| && jf.typeName.None?
    ensures ScanAsExpected(jf, ks, ln, pkg)
    decreases |ks| - ln
  {
    if ln == |ks| {
      assert ks[ln..ScanEnd(ks, ln)] == [];
    } else if ks[ln].TypeDeclaration? {
      ScanAtTypeLine(jf, ks, ln, pkg);
    } else {
      ScanCharacterization(ScanLine(jf, ks[ln], ln, pkg), ks, ln + 1, pkg);
      ScanPastNonType(jf, ks, ln, pkg);
    }
  }

  // ------------------------------------------------------ analyzeJavaFile

  /** Without a package line every line is consumed, nothing is changed, and only a type name the record already had counts as success. */
  lemma AnalyzeWithoutPackage(jf: JavaFile, lines: seq<string>)
    requires forall k :: 0 <= k < |lines| ==> !IsPackageLine(lines[k])
    ensures AnalyzeLines(jf, lines) == Analysis(jf, jf.typeName.Some?)
  {
    var caps := PackageCaptures(lines);
    assert forall k :: 0 <= k < |caps| ==> caps[k].None?;
  }

  /** A record that already has a type name is not scanned again and is reported a success. */
  lemma AnalyzeAlreadyTyped(jf: JavaFile, lines: seq<string>)
    requires jf.typeName.Some?
    ensures AnalyzeLines(jf, lines) == Analysis(jf, true)
  {
  }

  lemma PackageScanFirst(caps: seq<Option<string>>, p: nat)
    requires p < |caps| && caps[p].Some?
    requires forall k :: 0 <= k < p ==> caps[k].None?
    ensures PackageScan(caps, 0) == Some((p, Trim(caps[p].value)))
  {
    assert PackageScan(caps, 0).Some?;
  }

  /**
    With its first package line at `p`, a file is read from line `p + 1` on only:
    the record collects the authors up to the first type line, takes the type's
    name qualified by the trimmed package name, and anchors the start line at the
    last annotation before the type line, else at the type line when it was -1.
    The analysis succeeds exactly when a type line follows the package line.
   */
  lemma AnalyzeWithPackage(jf: JavaFile, lines: seq<string>, p: nat)
    requires jf.typeName.None?
    requires p < |lines| && IsPackageLine(lines[p])
    requires forall k :: 0 <= k < p ==> !IsPackageLine(lines[k])
    ensures var a := AnalyzeLines(jf, lines);
      var ks := ClassifyAll(lines);
      var pkg := Trim(PackageCapture(lines[p]).value);
      && a.file.oldAuthors == jf.oldAuthors + AuthorsIn(ks[p + 1..ScanEnd(ks, p + 1)])
      && a.file.typeName == ExpectedTypeName(ks, p + 1, pkg)
      && a.file.startLine == ExpectedStartLine(jf, ks, p + 1)
      && (a.success <==> exists k :: p < k < |lines| && IsTypeLine(lines[k]))
  {
    var ks := ClassifyAll(lines);
    var pkg := Trim(PackageCapture(lines[p]).value);
    PackageScanFirst(PackageCaptures(lines), p);
    ScanCharacterization(jf, ks, p + 1, pkg);
    var t := FirstTypeLine(ks, p + 1);
    if t.Some? {
      assert IsTypeLine(lines[t.value]);
    } else {
      assert forall k :: p < k < |lines| ==> !IsTypeLine(lines[k]) by {
        forall k | p < k < |lines| ensures !IsTypeLine(lines[k]) {
          assert !ks[k].TypeDeclaration?;
        }
      }
    }
  }

  // ----------------------------------------------------- analyzeJavaFiles

  /** The analysed records that succeeded, in input order. */
  function KeptBy(analyze: JavaFile -> Analysis, files: seq<JavaFile>): seq<JavaFile> {
    if |files| == 0 then []
    else
      (if analyze(files[0]).success then [analyze(files[0]).file] else [])
      + KeptBy(analyze, files[1..])
  }

  lemma {:induction false} KeptByAppend(analyze: JavaFile -> Analysis, files: seq<JavaFile>, jf: JavaFile)
    ensures KeptBy(analyze, files + [jf])
         == KeptBy(analyze, files) + (if analyze(jf).success then [analyze(jf).file] else [])
    decreases |files|
  {
    if |files| == 0 {
      assert files + [jf] == [jf];
    } else {
      var head := if analyze(files[0]).success then [analyze(files[0]).file] else [];
      assert KeptBy(analyze, files + [jf]) == head + KeptBy(analyze, files[1..] + [jf]) by {
        assert (files + [jf])[0] == files[0];
        assert (files + [jf])[1..] == files[1..] + [jf];
      }
      KeptByAppend(analyze, files[1..], jf);
    }
  }

  /**
    Exactly the records whose analysis succeeds are kept: each kept record is
    the successful analysis of an input record, and each successful analysis
    is kept.
   */
  lemma {:induction false} KeptBySpec(analyze: JavaFile -> Analysis, files: seq<JavaFile>)
    ensures |KeptBy(analyze, files)| <= |files|
    ensures forall r :: r in KeptBy(analyze, files) <==>
      exists i :: 0 <= i < |files| && analyze(files[i]) == Analysis(r, true)
    decreases |files|
  {
    if |files| > 0 {
      KeptBySpec(analyze, files[1..]);
      forall r ensures r in KeptBy(analyze, files) <==>
        exists i :: 0 <= i < |files| && analyze(files[i]) == Analysis(r, true)
      {
        if r in KeptBy(analyze, files[1..]) {
          var i :| 0 <= i < |files[1..]| && analyze(files[1..][i]) == Analysis(r, true);
          assert files[i + 1] == files[1..][i];
        }
        if exists i :: 0 <= i < |files| && analyze(files[i]) == Analysis(r, true) {
          var i :| 0 <= i < |files| && analyze(files[i]) == Analysis(r, true);
          if i > 0 {
            assert files[1..][i - 1] == files[i];
          }
        }
      }
    }
  }

  /** The reference result of `analyzeJavaFiles` on a file system. */
  function KeptAnalyzed(fs: Fs, files: seq<JavaFile>): seq<JavaFile> {
    KeptBy(jf => AnalyzeJavaFile(fs, jf), files)
  }

  /** Every record `analyzeJavaFiles` keeps carries a type name, and none is lost that succeeded. */
  lemma KeptAnalyzedSpec(fs: Fs, files: seq<JavaFile>)
    ensures |KeptAnalyzed(fs, files)| <= |files|
    ensures forall r :: r in KeptAnalyzed(fs, files) ==> r.typeName.Some?
    ensures forall i :: 0 <= i < |files| && AnalyzeJavaFile(fs, files[i]).success ==>
      AnalyzeJavaFile(fs, files[i]).file in KeptAnalyzed(fs, files)
  {
    var analyze := jf => AnalyzeJavaFile(fs, jf);
    KeptBySpec(analyze, files);
    forall r | r in KeptAnalyzed(fs, files) ensures r.typeName.Some? {
      var i :| 0 <= i < |files| && analyze(files[i]) == Analysis(r, true);
    }
    forall i | 0 <= i < |files| && AnalyzeJavaFile(fs, files[i]).success
      ensures AnalyzeJavaFile(fs, files[i]).file in KeptAnalyzed(fs, files)
    {
      assert analyze(files[i]) == Analysis(AnalyzeJavaFile(fs, files[i]).file, true);
    }
  }

  /**
    `analyzeJavaFiles`: walks the list with an index, replacing each record by
    its analysed version and removing it in place when the analysis fails.
   */
  method AnalyzeJavaFiles(fs: Fs, files: seq<JavaFile>) returns (list: seq<JavaFile>)
    ensures list == KeptAnalyzed(fs, files)
  {
    list := files;
    var i := 0;
    ghost var done := 0;
    while i < |list|
      invariant 0 <= done <= |files| && 0 <= i <= |list|
      invariant list[..i] == KeptAnalyzed(fs, files[..done])
      invariant list[i..] == files[done..]
      decreases |list| - i
    {
      var a := AnalyzeJavaFile(fs, list[i]);
      assert files[..done + 1] == files[..done] + [files[done]];
      KeptByAppend(jf => AnalyzeJavaFile(fs, jf), files[..done], files[done]);
      if !a.success {
        RemoveAtSplit(list, i, files[done..]);
        list := list[..i] + list[i + 1..];
      } else {
        SetAtSplit(list, i, a.file, files[done..]);
        list := list[..i] + [a.file] + list[i + 1..];
        i := i + 1;
      }
      done := done + 1;
    }
    assert files[..done] == files;
  }
}
