/**
  What the analyzer reads back from a file the writer has given a fresh doc
  comment: the authors the writer put in, after those already present.
 */
module Reanalysis {
  import opened Strings
  import opened Model
  import opened Patterns
  import opened Analyzer
  import opened Writer

  /** The kinds of the lines of a written author block. */
  function Tags(authors: seq<string>): (ks: seq<LineKind>)
    ensures |ks| == |authors|
    ensures forall i :: 0 <= i < |authors| ==> ks[i] == AuthorTag(authors[i])
  {
    seq(|authors|, i requires 0 <= i < |authors| => AuthorTag(authors[i]))
  }

  lemma ClassifyOpener()
    ensures Classify(DocCommentStart) == Other
  {
    assert !IsAuthorLine(DocCommentStart) by {
      assert DocCommentStart[0] != AuthorPrefix[0];
    }
  }

  lemma ClassifyBlockEnd()
    ensures Classify(BlockEnd) == Other
  {
    assert !IsAuthorLine(BlockEnd) by {
      assert |BlockEnd| < |AuthorPrefix|;
    }
  }

  /** A written author line is read back as the same (already trimmed) name. */
  lemma ClassifyAuthorLine(author: string)
    requires IsTrimmed(author)
    ensures Classify(AuthorPrefix + author) == AuthorTag(author)
  {
    AuthorLineRoundTrip(author);
    TrimOfTrimmed(author);
  }

  /** The kinds of a file with a fresh doc comment before line `start`. */
  lemma KindsOfFreshDocComment(lines: seq<string>, start: nat, authors: seq<string>)
    requires start <= |lines|
    requires forall i :: 0 <= i < |authors| ==> IsTrimmed(authors[i])
    ensures ClassifyAll(lines[..start] + [DocCommentStart] + AuthorBlock(authors) + [BlockEnd] + lines[start..])
         == ClassifyAll(lines)[..start] + [Other] + Tags(authors) + [Other] + ClassifyAll(lines)[start..]
  {
    var out := lines[..start] + [DocCommentStart] + AuthorBlock(authors) + [BlockEnd] + lines[start..];
    var ks := ClassifyAll(lines);
    var expected := ks[..start] + [Other] + Tags(authors) + [Other] + ks[start..];
    var m := |authors|;
    ClassifyOpener();
    ClassifyBlockEnd();
    forall i | 0 <= i < |out| ensures ClassifyAll(out)[i] == expected[i] {
      if i < start {
        assert out[i] == lines[i];
      } else if i == start {
        assert out[i] == DocCommentStart;
      } else if i <= start + m {
        assert out[i] == AuthorBlock(authors)[i - start - 1] == AuthorPrefix + authors[i - start - 1];
        ClassifyAuthorLine(authors[i - start - 1]);
      } else if i == start + m + 1 {
        assert out[i] == BlockEnd;
      } else {
        assert out[i] == lines[i - m - 2];
      }
    }
  }

  lemma {:induction false} AuthorsInAppend(a: seq<LineKind>, b: seq<LineKind>)
    ensures AuthorsIn(a + b) == AuthorsIn(a) + AuthorsIn(b)
    decreases |a|
  {
    if |a| == 0 {
      assert a + b == b;
    } else {
      var head := if a[0].AuthorTag? then [a[0].author] else [];
      assert (a + b)[0] == a[0];
      assert (a + b)[1..] == a[1..] + b;
      assert AuthorsIn(a + b) == head + AuthorsIn(a[1..] + b);
      AuthorsInAppend(a[1..], b);
      assert AuthorsIn(a) == head + AuthorsIn(a[1..]);
    }
  }

  lemma {:induction false} AuthorsInTags(authors: seq<string>)
    ensures AuthorsIn(Tags(authors)) == authors
    decreases |authors|
  {
    if |authors| > 0 {
      assert Tags(authors)[1..] == Tags(authors[1..]);
      AuthorsInTags(authors[1..]);
    }
  }

  /**
    The kinds after the package line `p` up to and including the type line `t`
    of the rewritten file, and the authors among them.
   */
  lemma AuthorsAroundBlock(ks: seq<LineKind>, p: nat, start: nat, t: nat, authors: seq<string>)
    requires p < start <= t < |ks|
    ensures var out := ks[..start] + [Other] + Tags(authors) + [Other] + ks[start..];
      AuthorsIn(out[p + 1..t + |authors| + 3])
      == AuthorsIn(ks[p + 1..start]) + authors + AuthorsIn(ks[start..t + 1])
  {
    var out := ks[..start] + [Other] + Tags(authors) + [Other] + ks[start..];
    assert out[p + 1..t + |authors| + 3]
        == ks[p + 1..start] + ([Other] + Tags(authors) + [Other]) + ks[start..t + 1];
    AuthorsInAppend(ks[p + 1..start] + ([Other] + Tags(authors) + [Other]), ks[start..t + 1]);
    AuthorsInAppend(ks[p + 1..start], [Other] + Tags(authors) + [Other]);
    AuthorsInAppend([Other] + Tags(authors), [Other]);
    AuthorsInAppend([Other], Tags(authors));
    AuthorsInTags(authors);
  }

  /** The type line of the rewritten file is the old one, shifted past the block. */
  lemma TypeLineAfterBlock(ks: seq<LineKind>, p: nat, start: nat, t: nat, authors: seq<string>)
    requires p < start <= t < |ks| && ks[t].TypeDeclaration?
    requires forall k :: p < k < t ==> !ks[k].TypeDeclaration?
    ensures var kout := ks[..start] + [Other] + Tags(authors) + [Other] + ks[start..];
      FirstTypeLine(kout, p + 1) == Some(t + |authors| + 2)
  {
    var m := |authors|;
    var kout := ks[..start] + [Other] + Tags(authors) + [Other] + ks[start..];
    assert kout[t + m + 2] == ks[t];
    forall k | p + 1 <= k < t + m + 2 ensures !kout[k].TypeDeclaration? {
      if k < start {
        assert kout[k] == ks[k];
      } else if k >= start + m + 2 {
        assert kout[k] == ks[k - m - 2];
      }
    }
    var r := FirstTypeLine(kout, p + 1);
    assert r.Some?;
  }

  /** The declaration scan over the kinds of the rewritten file. */
  lemma ScanAfterFreshDocComment(jf: JavaFile, ks: seq<LineKind>, p: nat, start: nat, t: nat,
                                 authors: seq<string>, pkg: string)
    requires jf.typeName.None?
    requires p < start <= t < |ks| && ks[t].TypeDeclaration?
    requires forall k :: p < k < t ==> !ks[k].TypeDeclaration?
    ensures var r := ScanDeclarations(jf, ks[..start] + [Other] + Tags(authors) + [Other] + ks[start..], p + 1, pkg);
      && r.typeName.Some?
      && r.oldAuthors == jf.oldAuthors + AuthorsIn(ks[p + 1..start]) + authors + AuthorsIn(ks[start..t])
  {
    TypeLineAfterBlock(ks, p, start, t, authors);
    AuthorsThroughTypeLine(ks, p, start, t, authors);
    ScanToTypeLine(jf, ks[..start] + [Other] + Tags(authors) + [Other] + ks[start..], p + 1, t + |authors| + 2, pkg,
                   AuthorsIn(ks[p + 1..start]), authors, AuthorsIn(ks[start..t]));
  }

  /** The authors the scan reads from the rewritten file, up to and including its type line. */
  lemma AuthorsThroughTypeLine(ks: seq<LineKind>, p: nat, start: nat, t: nat, authors: seq<string>)
    requires p < start <= t < |ks| && ks[t].TypeDeclaration?
    ensures var kout := ks[..start] + [Other] + Tags(authors) + [Other] + ks[start..];
      AuthorsIn(kout[p + 1..t + |authors| + 2 + 1])
      == AuthorsIn(ks[p + 1..start]) + authors + AuthorsIn(ks[start..t])
  {
    AuthorsAroundBlock(ks, p, start, t, authors);
    assert ks[start..t + 1] == ks[start..t] + [ks[t]];
    TypeLineHasNoAuthor(ks[start..t], ks[t]);
  }

  /** A scan that meets its first type line at `t` has read exactly the authors up to `t`. */
  lemma ScanToTypeLine(jf: JavaFile, ks: seq<LineKind>, from: nat, t: nat, pkg: string,
                       a: seq<string>, b: seq<string>, c: seq<string>)
    requires from <= t < |ks| && jf.typeName.None?
    requires FirstTypeLine(ks, from) == Some(t)
    requires AuthorsIn(ks[from..t + 1]) == a + b + c
    ensures ScanDeclarations(jf, ks, from, pkg).typeName.Some?
    ensures ScanDeclarations(jf, ks, from, pkg).oldAuthors == jf.oldAuthors + a + b + c
  {
    ScanCharacterization(jf, ks, from, pkg);
  }

  /** A type line adds no author to those before it. */
  lemma TypeLineHasNoAuthor(ks: seq<LineKind>, k: LineKind)
    requires k.TypeDeclaration?
    ensures AuthorsIn(ks + [k]) == AuthorsIn(ks)
  {
    AuthorsInAppend(ks, [k]);
    assert AuthorsIn([k]) == [];
  }

  /** `ReanalyzeFreshDocComment` on the rewritten lines written out. */
  lemma AnalyzeFreshDocComment(jf: JavaFile, lines: seq<string>, start: nat, t: nat, p: nat,
                               authors: seq<string>)
    requires jf.typeName.None?
    requires p < start <= t < |lines|
    requires IsPackageLine(lines[p]) && forall k :: 0 <= k < p ==> !IsPackageLine(lines[k])
    requires IsTypeLine(lines[t]) && forall k :: p < k < t ==> !IsTypeLine(lines[k])
    requires forall i :: 0 <= i < |authors| ==> IsTrimmed(authors[i])
    ensures var a := AnalyzeLines(jf, lines[..start] + [DocCommentStart] + AuthorBlock(authors) + [BlockEnd] + lines[start..]);
      var ks := ClassifyAll(lines);
      && a.success
      && a.file.oldAuthors == jf.oldAuthors + AuthorsIn(ks[p + 1..start]) + authors + AuthorsIn(ks[start..t])
  {
    var out := lines[..start] + [DocCommentStart] + AuthorBlock(authors) + [BlockEnd] + lines[start..];
    var ks := ClassifyAll(lines);
    var caps := PackageCaptures(lines);
    var capsOut := PackageCaptures(out);
    var pkg := Trim(caps[p].value);
    assert PackageScan(capsOut, 0) == Some((p, pkg)) by {
      assert capsOut[p] == caps[p] by {
        assert out[p] == lines[p];
      }
      forall k | 0 <= k < p ensures capsOut[k].None? {
        assert out[k] == lines[k];
      }
      PackageScanFirst(capsOut, p);
    }
    assert ClassifyAll(out) == ks[..start] + [Other] + Tags(authors) + [Other] + ks[start..] by {
      KindsOfFreshDocComment(lines, start, authors);
    }
    assert ks[t].TypeDeclaration? && forall k :: p < k < t ==> !ks[k].TypeDeclaration?;
    ScanAfterFreshDocComment(jf, ks, p, start, t, authors, pkg);
  }

  /**
    Analysing a file the writer gave a fresh doc comment finds the written
    authors, after any author lines that stood between the package line and
    the anchor and before any between the anchor and the type line. The type
    line `t` is the one the analysis of the original file stopped at.
   */
  lemma ReanalyzeFreshDocComment(jf: JavaFile, lines: seq<string>, start: nat, t: nat, p: nat,
                                 authors: seq<string>)
    requires jf.typeName.None?
    requires p < start <= t < |lines|
    requires IsPackageLine(lines[p]) && forall k :: 0 <= k < p ==> !IsPackageLine(lines[k])
    requires IsTypeLine(lines[t]) && forall k :: p < k < t ==> !IsTypeLine(lines[k])
    requires forall j :: 0 <= j <= start ==> !IsDocCommentStart(lines[j])
    requires forall i :: 0 <= i < |authors| ==> IsTrimmed(authors[i])
    ensures var a := AnalyzeLines(jf, Rewrite(lines, start, authors));
      var ks := ClassifyAll(lines);
      && a.success
      && a.file.oldAuthors == jf.oldAuthors + AuthorsIn(ks[p + 1..start]) + authors + AuthorsIn(ks[start..t])
  {
    RewriteWithoutDocComment(lines, start, authors);
    AnalyzeFreshDocComment(jf, lines, start, t, p, authors);
  }
}
