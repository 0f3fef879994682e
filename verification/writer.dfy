/**
  `AuthorTagWriter`: the final author list, the line transform that replaces the
  `@author` tags in front of the type declaration, and the routing of the
  result through the backup modes.
 */
module Writer {
  import opened Strings
  import opened FileSystem
  import opened Model
  import opened Patterns

  // ---------------------------------------------------------- author list

  predicate NoDuplicates(s: seq<string>) {
    forall i, j :: 0 <= i < j < |s| ==> s[i] != s[j]
  }

  /** Position of the first occurrence of `x` in `s`. */
  function IndexOf(s: seq<string>, x: string): (k: nat)
    requires x in s
    ensures k < |s| && s[k] == x
    ensures forall j :: 0 <= j < k ==> s[j] != x
  {
    if s[0] == x then 0 else 1 + IndexOf(s[1..], x)
  }

  /** `LinkedHashSet.addAll`: each element not yet present is appended, in order. */
  function AddAll(acc: seq<string>, s: seq<string>): seq<string>
    decreases |s|
  {
    if |s| == 0 then acc
    else AddAll(if s[0] in acc then acc else acc + [s[0]], s[1..])
  }

  /** The set keeps what it had, in front. */
  lemma {:induction false} AddAllPrefix(acc: seq<string>, s: seq<string>)
    ensures |acc| <= |AddAll(acc, s)| && AddAll(acc, s)[..|acc|] == acc
    decreases |s|
  {
    if |s| > 0 {
      var acc' := if s[0] in acc then acc else acc + [s[0]];
      AddAllPrefix(acc', s[1..]);
      var r := AddAll(acc', s[1..]);
      assert r[..|acc'|][..|acc|] == acc'[..|acc|];
    }
  }

  /** The set holds exactly what it had and what was added. */
  lemma {:induction false} AddAllMembers(acc: seq<string>, s: seq<string>)
    ensures forall x :: x in AddAll(acc, s) <==> x in acc || x in s
    decreases |s|
  {
    if |s| > 0 {
      var acc' := if s[0] in acc then acc else acc + [s[0]];
      AddAllMembers(acc', s[1..]);
      forall x ensures x in AddAll(acc, s) <==> x in acc || x in s {
        assert x in s <==> x == s[0] || x in s[1..];
      }
    }
  }

  /** No element is held twice. */
  lemma {:induction false} AddAllNoDuplicates(acc: seq<string>, s: seq<string>)
    requires NoDuplicates(acc)
    ensures NoDuplicates(AddAll(acc, s))
    decreases |s|
  {
    if |s| > 0 {
      var acc' := if s[0] in acc then acc else acc + [s[0]];
      AddAllNoDuplicates(acc', s[1..]);
    }
  }

  /** Everything after the old elements comes from the added sequence. */
  lemma {:induction false} AddAllTail(acc: seq<string>, s: seq<string>)
    ensures forall i :: |acc| <= i < |AddAll(acc, s)| ==> AddAll(acc, s)[i] in s
    decreases |s|
  {
    if |s| > 0 {
      var acc' := if s[0] in acc then acc else acc + [s[0]];
      AddAllTail(acc', s[1..]);
      AddAllPrefix(acc', s[1..]);
      var r := AddAll(acc', s[1..]);
      forall i | |acc| <= i < |r| ensures r[i] in s {
        if i >= |acc'| {
          assert r[i] in s[1..];
        } else {
          assert r[i] == r[..|acc'|][i];
        }
      }
    }
  }

  /** The added elements appear in the order of their first occurrence. */
  lemma {:induction false} AddAllOrder(acc: seq<string>, s: seq<string>)
    requires NoDuplicates(acc)
    ensures forall i, j :: |acc| <= i < j < |AddAll(acc, s)| ==>
      && AddAll(acc, s)[i] in s && AddAll(acc, s)[j] in s
      && IndexOf(s, AddAll(acc, s)[i]) < IndexOf(s, AddAll(acc, s)[j])
    decreases |s|
  {
    AddAllTail(acc, s);
    if |s| > 0 {
      var acc' := if s[0] in acc then acc else acc + [s[0]];
      AddAllOrder(acc', s[1..]);
      AddAllPrefix(acc', s[1..]);
      AddAllNoDuplicates(acc', s[1..]);
      AddAllTail(acc', s[1..]);
      var r := AddAll(acc', s[1..]);
      forall i, j | |acc| <= i < j < |r| ensures IndexOf(s, r[i]) < IndexOf(s, r[j]) {
        assert r[j] !in acc' by {
          assert r[j] !in r[..|acc'|];
        }
        IndexOfTail(s, r[j]);
        if i >= |acc'| {
          assert r[i] !in acc' by {
            assert r[i] !in r[..|acc'|];
          }
          IndexOfTail(s, r[i]);
        } else {
          assert r[i] == r[..|acc'|][i];
        }
      }
    }
  }

  /**
    What insertion into an ordered set guarantees: the set keeps what it had,
    in front; it gains exactly the new elements, once each, in the order of
    their first occurrence.
   */
  lemma AddAllSpec(acc: seq<string>, s: seq<string>)
    requires NoDuplicates(acc)
    ensures var r := AddAll(acc, s);
      && NoDuplicates(r)
      && |acc| <= |r| && r[..|acc|] == acc
      && (forall x :: x in r <==> x in acc || x in s)
      && (forall i :: |acc| <= i < |r| ==> r[i] in s)
      && (forall i, j :: |acc| <= i < j < |r| ==> IndexOf(s, r[i]) < IndexOf(s, r[j]))
  {
    AddAllPrefix(acc, s);
    AddAllMembers(acc, s);
    AddAllNoDuplicates(acc, s);
    AddAllTail(acc, s);
    AddAllOrder(acc, s);
  }

  lemma IndexOfTail(s: seq<string>, x: string)
    requires |s| > 0 && x in s && x != s[0]
    ensures x in s[1..] && IndexOf(s, x) == 1 + IndexOf(s[1..], x)
  {
  }

  /** `authorsToWrite`: old then new authors under MERGE, new ones only otherwise. */
  function FinalAuthors(jf: JavaFile): seq<string> {
    AddAll(if jf.taggingMode == Merge then AddAll([], jf.oldAuthors) else [], jf.newAuthors)
  }

  /**
    The final list holds every author once: under MERGE the old ones first, in
    file order, then the new ones not already among them; under OVERWRITE only
    the new ones.
   */
  lemma FinalAuthorsSpec(jf: JavaFile)
    ensures NoDuplicates(FinalAuthors(jf))
    ensures forall x :: x in FinalAuthors(jf) <==>
      (jf.taggingMode == Merge && x in jf.oldAuthors) || x in jf.newAuthors
    ensures jf.taggingMode == Merge ==>
      var olds := AddAll([], jf.oldAuthors);
      |olds| <= |FinalAuthors(jf)| && FinalAuthors(jf)[..|olds|] == olds
  {
    if jf.taggingMode == Merge {
      AddAllSpec([], jf.oldAuthors);
      AddAllSpec(AddAll([], jf.oldAuthors), jf.newAuthors);
    } else {
      AddAllSpec([], jf.newAuthors);
    }
  }

  // -------------------------------------------------------- line transform

  const DocCommentStart := "/**"
  const DocCommentEnd := "*/"
  const BlockEnd := " */"

  predicate IsDocCommentStart(line: string) {
    StartsWith(line, DocCommentStart)
  }

  /** A line that makes the writer emit the author block once a doc comment has begun. */
  predicate IsTrigger(line: string) {
    IsAuthorLine(line) || Trim(line) == DocCommentEnd
  }

  /** A trigger never opens a doc comment: the two are mutually exclusive. */
  lemma TriggerIsNoDocStart(line: string)
    ensures IsTrigger(line) ==> !IsDocCommentStart(line)
  {
    if |line| > 0 && line[0] == '/' {
      assert !IsAuthorLine(line) by {
        assert AuthorPrefix[0] == ' ';
      }
      assert TrimStart(line) == line;
      assert Trim(line) != DocCommentEnd by {
        var r := Trim(line);
        if |r| > 0 {
          assert r[0] == '/';
        }
      }
    } else {
      assert !IsDocCommentStart(line) by {
        assert DocCommentStart[0] == '/';
      }
    }
  }

  /** What the writer's loop asks of one line, computed once per line. */
  datatype LineFlags = LineFlags(opensDoc: bool, isAuthor: bool, closesDoc: bool)

  function FlagsOf(line: string): (f: LineFlags)
    ensures f.opensDoc == IsDocCommentStart(line)
    ensures f.isAuthor == IsAuthorLine(line)
    ensures f.isAuthor || f.closesDoc <==> IsTrigger(line)
    ensures f.isAuthor || f.closesDoc ==> !f.opensDoc
  {
    TriggerIsNoDocStart(line);
    LineFlags(IsDocCommentStart(line), IsAuthorLine(line), Trim(line) == DocCommentEnd)
  }

  function AllFlags(lines: seq<string>): (flags: seq<LineFlags>)
    ensures |flags| == |lines|
    ensures forall i :: 0 <= i < |lines| ==> flags[i] == FlagsOf(lines[i])
  {
    seq(|lines|, i requires 0 <= i < |lines| => FlagsOf(lines[i]))
  }

  /** One `" * @author "` line per author, in list order. */
  function AuthorBlock(authors: seq<string>): (block: seq<string>)
    ensures |block| == |authors|
    ensures forall i :: 0 <= i < |authors| ==> AuthorCapture(block[i]) == Some(authors[i])
  {
    seq(|authors|, i requires 0 <= i < |authors| => AuthorLineRoundTrip(authors[i]); AuthorPrefix + authors[i])
  }

  datatype RewriteState = RewriteState(javadocFound: bool, authorsWritten: bool)

  /** The loop body for one line of the first part: what is written, and the next state. */
  function Step(line: string, f: LineFlags, atTypeDeclaration: bool, block: seq<string>, st: RewriteState)
    : (seq<string>, RewriteState)
  {
    var atJavadocStart := f.opensDoc;
    var atJavadocEnd := st.javadocFound && f.closesDoc;
    var isAuthorLine := st.javadocFound && f.isAuthor;
    var noJavadoc := atTypeDeclaration && !st.javadocFound;
    var kept := if isAuthorLine then [] else [line];
    if atJavadocStart then
      (kept, st.(javadocFound := true))
    else if st.authorsWritten then
      (kept, st)
    else if noJavadoc then
      ([DocCommentStart] + block + [BlockEnd] + kept, st.(authorsWritten := true))
    else if atJavadocEnd || isAuthorLine then
      (block + kept, st.(authorsWritten := true))
    else
      (kept, st)
  }

  /** Both loops from line `i` on: the first part runs while `i <= start + 1`. */
  function RewriteFrom(lines: seq<string>, flags: seq<LineFlags>, i: nat, start: int, block: seq<string>,
                       st: RewriteState): seq<string>
    requires |flags| == |lines| && i <= |lines|
    decreases |lines| - i
  {
    if i < |lines| && i <= start + 1 then
      var (out, st') := Step(lines[i], flags[i], i == start, block, st);
      out + RewriteFrom(lines, flags, i + 1, start, block, st')
    else
      lines[i..]
  }

  /** The rewritten content of a file whose anchor line is `start`. */
  function Rewrite(lines: seq<string>, start: int, authors: seq<string>): seq<string> {
    RewriteFrom(lines, AllFlags(lines), 0, start, AuthorBlock(authors), RewriteState(false, false))
  }

  // ------------------------------------------------ reference line transform

  /** How many lines the first loop consumes: indices `0 .. start + 1`. */
  function Processed(lines: seq<string>, start: int): (n: nat)
    ensures n <= |lines|
    ensures 0 <= start < |lines| ==> start < n
    ensures n > 0 ==> n <= start + 2
    ensures start >= -1 ==> n == start + 2 || n == |lines|
  {
    if start < -1 then 0 else if start + 2 < |lines| then start + 2 else |lines|
  }

  predicate Triggers(f: LineFlags) {
    f.isAuthor || f.closesDoc
  }

  /** A trigger line never opens a doc comment; `FlagsOf` guarantees it. */
  predicate Coherent(flags: seq<LineFlags>) {
    forall j :: 0 <= j < |flags| && Triggers(flags[j]) ==> !flags[j].opensDoc
  }

  lemma AllFlagsCoherent(lines: seq<string>)
    ensures Coherent(AllFlags(lines))
  {
  }

  function FirstDocStart(flags: seq<LineFlags>, from: nat, hi: nat): (r: Option<nat>)
    requires from <= hi <= |flags|
    ensures r.Some? ==> from <= r.value < hi && flags[r.value].opensDoc
    ensures r.Some? ==> forall j :: from <= j < r.value ==> !flags[j].opensDoc
    ensures r.None? ==> forall j :: from <= j < hi ==> !flags[j].opensDoc
    decreases hi - from
  {
    if from == hi then None
    else if flags[from].opensDoc then Some(from)
    else FirstDocStart(flags, from + 1, hi)
  }

  function FirstTrigger(flags: seq<LineFlags>, from: nat, hi: nat): (r: Option<nat>)
    requires from <= hi <= |flags|
    ensures r.Some? ==> from <= r.value < hi && Triggers(flags[r.value])
    ensures r.Some? ==> forall j :: from <= j < r.value ==> !Triggers(flags[j])
    ensures r.None? ==> forall j :: from <= j < hi ==> !Triggers(flags[j])
    decreases hi - from
  {
    if from == hi then None
    else if Triggers(flags[from]) then Some(from)
    else FirstTrigger(flags, from + 1, hi)
  }

  /** The lines not flagged as author tags, in order. */
  function DropAuthorLines(lines: seq<string>, flags: seq<LineFlags>): (r: seq<string>)
    requires |flags| == |lines|
    ensures |r| <= |lines|
  {
    if |lines| == 0 then []
    else (if flags[0].isAuthor then [] else [lines[0]]) + DropAuthorLines(lines[1..], flags[1..])
  }

  /**
    The transform read off the file as a whole. Without a line opening a doc
    comment up to the anchor, a fresh doc comment holding the block goes right
    before it. Otherwise the block replaces the first author line after the
    first opener, or goes before the first closing line after it, whichever
    comes first; later author lines of the first part are dropped. With no
    such line the file is left as it is.
   */
  function ExpectedRewrite(lines: seq<string>, flags: seq<LineFlags>, start: int, block: seq<string>)
    : seq<string>
    requires |flags| == |lines|
  {
    var n := Processed(lines, start);
    if 0 <= start < |lines| && FirstDocStart(flags, 0, start + 1).None? then
      lines[..start] + [DocCommentStart] + block + [BlockEnd] + lines[start..]
    else match FirstDocStart(flags, 0, n)
      case None => lines
      case Some(d) =>
        match FirstTrigger(flags, d + 1, n)
        case None => lines
        case Some(e) => lines[..e] + block + DropAuthorLines(lines[e..n], flags[e..n]) + lines[n..]
  }

  // --------------------------------------------------------------- proofs

  /** Output `r0` is line `i` then `r1`, and `r1` is lines `i + 1 .. k` then `t`. */
  lemma PrependLine(s: seq<string>, i: nat, k: nat, t: seq<string>, r1: seq<string>, r0: seq<string>)
    requires i < k <= |s|
    requires r1 == s[i + 1..k] + t && r0 == [s[i]] + r1
    ensures r0 == s[i..k] + t
  {
    assert s[i..k] == [s[i]] + s[i + 1..k];
  }

  /** Two copied stretches of lines, `i .. j` and `j .. k`, join into one. */
  lemma JoinSlices(s: seq<string>, i: nat, j: nat, k: nat, t: seq<string>, r1: seq<string>, r0: seq<string>)
    requires i <= j <= k <= |s|
    requires r1 == s[j..k] + t && r0 == s[i..j] + r1
    ensures r0 == s[i..k] + t
  {
    assert s[i..j] + s[j..k] == s[i..k];
  }

  /** A kept line in front of the rest of the copy regroups with the dropped lines. */
  lemma PrependKept(kept: seq<string>, dropped: seq<string>, t: seq<string>, d0: seq<string>,
                    r1: seq<string>, r0: seq<string>)
    requires d0 == kept + dropped && r1 == dropped + t && r0 == kept + r1
    ensures r0 == d0 + t
  {
  }

  /** The block, a kept line and the rest regroup around the dropped lines. */
  lemma BlockRegroup(block: seq<string>, kept: seq<string>, dropped: seq<string>, t: seq<string>,
                     d0: seq<string>, rest: seq<string>, r: seq<string>)
    requires d0 == kept + dropped && rest == dropped + t && r == block + kept + rest
    ensures r == block + d0 + t
  {
  }

  /** A copied prefix in front of block, kept lines and tail. */
  lemma PrefixRegroup(p: seq<string>, block: seq<string>, d: seq<string>, t: seq<string>,
                      r1: seq<string>, r0: seq<string>)
    requires r1 == block + d + t && r0 == p + r1
    ensures r0 == p + block + d + t
  {
  }

  /** A copied prefix in front of a fresh doc comment and the remaining lines. */
  lemma FreshRegroup(p: seq<string>, block: seq<string>, t: seq<string>, r1: seq<string>, r0: seq<string>)
    requires r1 == [DocCommentStart] + block + [BlockEnd] + t && r0 == p + r1
    ensures r0 == p + [DocCommentStart] + block + [BlockEnd] + t
  {
  }

  /** Before any doc-comment opener and away from the anchor, lines are copied as they are. */
  lemma {:induction false} CopyBeforeDocComment(lines: seq<string>, flags: seq<LineFlags>, i: nat, k: nat,
                                                start: int, block: seq<string>)
    requires |flags| == |lines| && i <= k <= Processed(lines, start)
    requires forall j :: i <= j < k ==> !flags[j].opensDoc
    requires !(i <= start < k)
    ensures RewriteFrom(lines, flags, i, start, block, RewriteState(false, false))
         == lines[i..k] + RewriteFrom(lines, flags, k, start, block, RewriteState(false, false))
    decreases k - i
  {
    if i < k {
      var st := RewriteState(false, false);
      var tail := RewriteFrom(lines, flags, k, start, block, st);
      assert RewriteFrom(lines, flags, i + 1, start, block, st) == lines[i + 1..k] + tail by {
        CopyBeforeDocComment(lines, flags, i + 1, k, start, block);
      }
      assert RewriteFrom(lines, flags, i, start, block, st)
          == [lines[i]] + RewriteFrom(lines, flags, i + 1, start, block, st) by {
        assert Step(lines[i], flags[i], i == start, block, st) == ([lines[i]], st);
      }
      PrependLine(lines, i, k, tail, RewriteFrom(lines, flags, i + 1, start, block, st),
                  RewriteFrom(lines, flags, i, start, block, st));
    }
  }

  /** Inside the doc comment, until the first trigger, lines are copied as they are. */
  lemma {:induction false} CopyInsideDocComment(lines: seq<string>, flags: seq<LineFlags>, i: nat, k: nat,
                                                start: int, block: seq<string>)
    requires |flags| == |lines| && i <= k <= Processed(lines, start)
    requires forall j :: i <= j < k ==> !Triggers(flags[j])
    ensures RewriteFrom(lines, flags, i, start, block, RewriteState(true, false))
         == lines[i..k] + RewriteFrom(lines, flags, k, start, block, RewriteState(true, false))
    decreases k - i
  {
    if i < k {
      var st := RewriteState(true, false);
      var tail := RewriteFrom(lines, flags, k, start, block, st);
      assert RewriteFrom(lines, flags, i + 1, start, block, st) == lines[i + 1..k] + tail by {
        CopyInsideDocComment(lines, flags, i + 1, k, start, block);
      }
      assert RewriteFrom(lines, flags, i, start, block, st)
          == [lines[i]] + RewriteFrom(lines, flags, i + 1, start, block, st) by {
        assert Step(lines[i], flags[i], i == start, block, st) == ([lines[i]], st);
      }
      PrependLine(lines, i, k, tail, RewriteFrom(lines, flags, i + 1, start, block, st),
                  RewriteFrom(lines, flags, i, start, block, st));
    }
  }

  /** Once the block is out, the first part only loses its author lines. */
  lemma {:induction false} CopyAfterBlock(lines: seq<string>, flags: seq<LineFlags>, i: nat, start: int,
                                          block: seq<string>)
    requires |flags| == |lines| && Coherent(flags) && i <= Processed(lines, start)
    ensures var n := Processed(lines, start);
      RewriteFrom(lines, flags, i, start, block, RewriteState(true, true))
      == DropAuthorLines(lines[i..n], flags[i..n]) + lines[n..]
    decreases |lines| - i
  {
    var n := Processed(lines, start);
    if i < n {
      var st := RewriteState(true, true);
      var kept := if flags[i].isAuthor then [] else [lines[i]];
      var dropped := DropAuthorLines(lines[i + 1..n], flags[i + 1..n]);
      assert RewriteFrom(lines, flags, i + 1, start, block, st) == dropped + lines[n..] by {
        CopyAfterBlock(lines, flags, i + 1, start, block);
      }
      assert RewriteFrom(lines, flags, i, start, block, st)
          == kept + RewriteFrom(lines, flags, i + 1, start, block, st) by {
        assert Step(lines[i], flags[i], i == start, block, st) == (kept, st);
      }
      DropAuthorLinesHead(lines, flags, i, n);
      PrependKept(kept, dropped, lines[n..], DropAuthorLines(lines[i..n], flags[i..n]),
                  RewriteFrom(lines, flags, i + 1, start, block, st), RewriteFrom(lines, flags, i, start, block, st));
    }
  }

  /** The reference's dropping of author lines, one line at a time. */
  lemma DropAuthorLinesHead(lines: seq<string>, flags: seq<LineFlags>, i: nat, n: nat)
    requires |flags| == |lines| && i < n <= |lines|
    ensures DropAuthorLines(lines[i..n], flags[i..n])
         == (if flags[i].isAuthor then [] else [lines[i]]) + DropAuthorLines(lines[i + 1..n], flags[i + 1..n])
  {
    assert lines[i..n][1..] == lines[i + 1..n];
    assert flags[i..n][1..] == flags[i + 1..n];
  }

  /** At the anchor, with no doc comment seen, the whole fresh doc comment is written. */
  lemma FreshDocCommentAtAnchor(lines: seq<string>, flags: seq<LineFlags>, start: nat, block: seq<string>)
    requires |flags| == |lines| && start < |lines| && !flags[start].opensDoc
    ensures RewriteFrom(lines, flags, start, start, block, RewriteState(false, false))
         == [DocCommentStart] + block + [BlockEnd] + lines[start..]
  {
    var written := RewriteState(false, true);
    assert RewriteFrom(lines, flags, start, start, block, RewriteState(false, false))
        == [DocCommentStart] + block + [BlockEnd] + [lines[start]]
           + RewriteFrom(lines, flags, start + 1, start, block, written);
    assert lines[start..] == [lines[start]] + lines[start + 1..];
    if start + 1 < |lines| {
      var st := Step(lines[start + 1], flags[start + 1], false, block, written).1;
      assert RewriteFrom(lines, flags, start + 1, start, block, written)
          == [lines[start + 1]] + RewriteFrom(lines, flags, start + 2, start, block, st);
      assert lines[start + 1..] == [lines[start + 1]] + lines[start + 2..];
    }
  }

  /** The line that triggers the block: the block, then the line unless it is an author line. */
  lemma TriggerStep(lines: seq<string>, flags: seq<LineFlags>, e: nat, start: int, block: seq<string>)
    requires |flags| == |lines| && Coherent(flags)
    requires e < Processed(lines, start) && Triggers(flags[e])
    ensures RewriteFrom(lines, flags, e, start, block, RewriteState(true, false))
         == block + (if flags[e].isAuthor then [] else [lines[e]])
            + RewriteFrom(lines, flags, e + 1, start, block, RewriteState(true, true))
  {
    var kept := if flags[e].isAuthor then [] else [lines[e]];
    assert Step(lines[e], flags[e], e == start, block, RewriteState(true, false))
        == (block + kept, RewriteState(true, true));
  }

  /** The first trigger inside the doc comment gets the block. */
  lemma BlockAtTrigger(lines: seq<string>, flags: seq<LineFlags>, e: nat, start: int, block: seq<string>)
    requires |flags| == |lines| && Coherent(flags)
    requires e < Processed(lines, start) && Triggers(flags[e])
    ensures var n := Processed(lines, start);
      RewriteFrom(lines, flags, e, start, block, RewriteState(true, false))
      == block + DropAuthorLines(lines[e..n], flags[e..n]) + lines[n..]
  {
    var n := Processed(lines, start);
    var kept := if flags[e].isAuthor then [] else [lines[e]];
    var written := RewriteState(true, true);
    var rest := RewriteFrom(lines, flags, e + 1, start, block, written);
    var dropped := DropAuthorLines(lines[e + 1..n], flags[e + 1..n]);
    TriggerStep(lines, flags, e, start, block);
    DropAuthorLinesHead(lines, flags, e, n);
    assert rest == dropped + lines[n..] by {
      CopyAfterBlock(lines, flags, e + 1, start, block);
    }
    BlockRegroup(block, kept, dropped, lines[n..], DropAuthorLines(lines[e..n], flags[e..n]), rest,
                 RewriteFrom(lines, flags, e, start, block, RewriteState(true, false)));
  }

  /** The opener at `d` is copied and switches the loop into the doc comment. */
  lemma OpenerStep(lines: seq<string>, flags: seq<LineFlags>, start: int, block: seq<string>, d: nat)
    requires |flags| == |lines| && d < Processed(lines, start) && flags[d].opensDoc
    ensures RewriteFrom(lines, flags, d, start, block, RewriteState(false, false))
         == [lines[d]] + RewriteFrom(lines, flags, d + 1, start, block, RewriteState(true, false))
  {
    assert Step(lines[d], flags[d], d == start, block, RewriteState(false, false))
        == ([lines[d]], RewriteState(true, false));
  }

  /** From the opener at `d` up to line `k`, everything is copied. */
  lemma OpenerThrough(lines: seq<string>, flags: seq<LineFlags>, start: int, block: seq<string>, d: nat, k: nat)
    requires |flags| == |lines|
    requires d < k <= Processed(lines, start) && flags[d].opensDoc
    requires forall j :: d < j < k ==> !Triggers(flags[j])
    ensures RewriteFrom(lines, flags, d, start, block, RewriteState(false, false))
         == lines[d..k] + RewriteFrom(lines, flags, k, start, block, RewriteState(true, false))
  {
    var tail := RewriteFrom(lines, flags, k, start, block, RewriteState(true, false));
    assert RewriteFrom(lines, flags, d + 1, start, block, RewriteState(true, false)) == lines[d + 1..k] + tail by {
      CopyInsideDocComment(lines, flags, d + 1, k, start, block);
    }
    assert RewriteFrom(lines, flags, d, start, block, RewriteState(false, false))
        == [lines[d]] + RewriteFrom(lines, flags, d + 1, start, block, RewriteState(true, false)) by {
      OpenerStep(lines, flags, start, block, d);
    }
    PrependLine(lines, d, k, tail, RewriteFrom(lines, flags, d + 1, start, block, RewriteState(true, false)),
                RewriteFrom(lines, flags, d, start, block, RewriteState(false, false)));
  }

  /** Up to line `k` inside the doc comment opened at `d`, everything is copied. */
  lemma CopyThroughOpener(lines: seq<string>, flags: seq<LineFlags>, start: int, block: seq<string>, d: nat, k: nat)
    requires |flags| == |lines|
    requires d < k <= Processed(lines, start) && flags[d].opensDoc
    requires forall j :: 0 <= j < d ==> !flags[j].opensDoc
    requires forall j :: d < j < k ==> !Triggers(flags[j])
    requires !(0 <= start < d)
    ensures RewriteFrom(lines, flags, 0, start, block, RewriteState(false, false))
         == lines[..k] + RewriteFrom(lines, flags, k, start, block, RewriteState(true, false))
  {
    var tail := RewriteFrom(lines, flags, k, start, block, RewriteState(true, false));
    var fromOpener := RewriteFrom(lines, flags, d, start, block, RewriteState(false, false));
    assert fromOpener == lines[d..k] + tail by {
      OpenerThrough(lines, flags, start, block, d, k);
    }
    assert RewriteFrom(lines, flags, 0, start, block, RewriteState(false, false)) == lines[0..d] + fromOpener by {
      CopyBeforeDocComment(lines, flags, 0, d, start, block);
    }
    JoinSlices(lines, 0, d, k, tail, fromOpener, RewriteFrom(lines, flags, 0, start, block, RewriteState(false, false)));
    assert lines[0..k] == lines[..k];
  }

  /** The doc comment opened at `d` reaches a trigger at `e`. */
  lemma TriggeredCase(lines: seq<string>, flags: seq<LineFlags>, start: int, block: seq<string>, d: nat, e: nat)
    requires |flags| == |lines| && Coherent(flags)
    requires d < e < Processed(lines, start) && flags[d].opensDoc && Triggers(flags[e])
    requires forall j :: 0 <= j < d ==> !flags[j].opensDoc
    requires forall j :: d < j < e ==> !Triggers(flags[j])
    requires !(0 <= start < d)
    ensures var n := Processed(lines, start);
      RewriteFrom(lines, flags, 0, start, block, RewriteState(false, false))
      == lines[..e] + block + DropAuthorLines(lines[e..n], flags[e..n]) + lines[n..]
  {
    var n := Processed(lines, start);
    var fromTrigger := RewriteFrom(lines, flags, e, start, block, RewriteState(true, false));
    CopyThroughOpener(lines, flags, start, block, d, e);
    BlockAtTrigger(lines, flags, e, start, block);
    PrefixRegroup(lines[..e], block, DropAuthorLines(lines[e..n], flags[e..n]), lines[n..], fromTrigger,
                  RewriteFrom(lines, flags, 0, start, block, RewriteState(false, false)));
  }

  /** The doc comment opened at `d` reaches no trigger in the first part. */
  lemma UntriggeredCase(lines: seq<string>, flags: seq<LineFlags>, start: int, block: seq<string>, d: nat)
    requires |flags| == |lines|
    requires d < Processed(lines, start) && flags[d].opensDoc
    requires forall j :: 0 <= j < d ==> !flags[j].opensDoc
    requires forall j :: d < j < Processed(lines, start) ==> !Triggers(flags[j])
    requires !(0 <= start < d)
    ensures RewriteFrom(lines, flags, 0, start, block, RewriteState(false, false)) == lines
  {
    var n := Processed(lines, start);
    assert RewriteFrom(lines, flags, n, start, block, RewriteState(true, false)) == lines[n..];
    CopyThroughOpener(lines, flags, start, block, d, n);
    assert lines[..n] + lines[n..] == lines;
  }

  /** No opener up to the anchor: everything before it is copied, then the fresh doc comment. */
  lemma FreshCase(lines: seq<string>, flags: seq<LineFlags>, start: int, block: seq<string>)
    requires |flags| == |lines| && 0 <= start < |lines|
    requires FirstDocStart(flags, 0, start + 1).None?
    ensures RewriteFrom(lines, flags, 0, start, block, RewriteState(false, false))
         == lines[..start] + [DocCommentStart] + block + [BlockEnd] + lines[start..]
  {
    CopyBeforeDocComment(lines, flags, 0, start, start, block);
    FreshDocCommentAtAnchor(lines, flags, start, block);
    assert lines[0..start] == lines[..start];
    FreshRegroup(lines[..start], block, lines[start..],
                 RewriteFrom(lines, flags, start, start, block, RewriteState(false, false)),
                 RewriteFrom(lines, flags, 0, start, block, RewriteState(false, false)));
  }

  /** No opener in the whole first part: the file is copied as it is. */
  lemma NoOpenerCase(lines: seq<string>, flags: seq<LineFlags>, start: int, block: seq<string>)
    requires |flags| == |lines|
    requires !(0 <= start < |lines|)
    requires FirstDocStart(flags, 0, Processed(lines, start)).None?
    ensures RewriteFrom(lines, flags, 0, start, block, RewriteState(false, false)) == lines
  {
    var n := Processed(lines, start);
    CopyBeforeDocComment(lines, flags, 0, n, start, block);
    assert lines[0..n] + lines[n..] == lines;
  }

  /** The loop over coherent flags agrees with the whole-file reading. */
  lemma RewriteFromMatches(lines: seq<string>, flags: seq<LineFlags>, start: int, block: seq<string>)
    requires |flags| == |lines| && Coherent(flags)
    ensures RewriteFrom(lines, flags, 0, start, block, RewriteState(false, false))
         == ExpectedRewrite(lines, flags, start, block)
  {
    var n := Processed(lines, start);
    if 0 <= start < |lines| && FirstDocStart(flags, 0, start + 1).None? {
      FreshCase(lines, flags, start, block);
    } else {
      match FirstDocStart(flags, 0, n)
      case None =>
        NoOpenerCase(lines, flags, start, block);
      case Some(d) =>
        match FirstTrigger(flags, d + 1, n)
        case None => UntriggeredCase(lines, flags, start, block, d);
        case Some(e) => TriggeredCase(lines, flags, start, block, d, e);
    }
  }


  /** The loop-by-loop transform and the whole-file reading agree on every input. */
  lemma RewriteMatchesReference(lines: seq<string>, start: int, authors: seq<string>)
    ensures Rewrite(lines, start, authors) == ExpectedRewrite(lines, AllFlags(lines), start, AuthorBlock(authors))
  {
    AllFlagsCoherent(lines);
    RewriteFromMatches(lines, AllFlags(lines), start, AuthorBlock(authors));
  }

  // ---------------------------------------------------- whole-file cases

  /**
    Without a doc-comment opener up to the anchor, the file gains a fresh doc
    comment holding one author line per author right before the anchor line,
    and nothing else changes.
   */
  lemma RewriteWithoutDocComment(lines: seq<string>, start: int, authors: seq<string>)
    requires 0 <= start < |lines|
    requires forall j :: 0 <= j <= start ==> !IsDocCommentStart(lines[j])
    ensures Rewrite(lines, start, authors)
         == lines[..start] + [DocCommentStart] + AuthorBlock(authors) + [BlockEnd] + lines[start..]
  {
    RewriteMatchesReference(lines, start, authors);
    var flags := AllFlags(lines);
    assert FirstDocStart(flags, 0, start + 1).None? by {
      assert forall j :: 0 <= j <= start ==> !flags[j].opensDoc;
    }
  }

  lemma {:induction false} DropAuthorLinesNone(lines: seq<string>, flags: seq<LineFlags>)
    requires |flags| == |lines|
    requires forall j :: 0 <= j < |flags| ==> !flags[j].isAuthor
    ensures DropAuthorLines(lines, flags) == lines
    decreases |lines|
  {
    if |lines| > 0 {
      DropAuthorLinesNone(lines[1..], flags[1..]);
      assert lines == [lines[0]] + lines[1..];
    }
  }

  /** `TriggeredCase` when the trigger is a closing line and no author line follows the opener. */
  lemma ClosingLineCase(lines: seq<string>, flags: seq<LineFlags>, start: int, block: seq<string>, d: nat, e: nat)
    requires |flags| == |lines| && Coherent(flags)
    requires d < e < Processed(lines, start) && flags[d].opensDoc && Triggers(flags[e])
    requires forall j :: 0 <= j < d ==> !flags[j].opensDoc
    requires forall j :: d < j < e ==> !Triggers(flags[j])
    requires forall j :: d < j < Processed(lines, start) ==> !flags[j].isAuthor
    requires !(0 <= start < d)
    ensures RewriteFrom(lines, flags, 0, start, block, RewriteState(false, false)) == lines[..e] + block + lines[e..]
  {
    var n := Processed(lines, start);
    var dropped := DropAuthorLines(lines[e..n], flags[e..n]);
    assert dropped == lines[e..n] by {
      DropAuthorLinesNone(lines[e..n], flags[e..n]);
    }
    TriggeredCase(lines, flags, start, block, d, e);
    assert lines[e..n] + lines[n..] == lines[e..];
  }

  /**
    A doc comment that holds no author line gets the authors right before its
    closing line; every line of the file is kept.
   */
  lemma RewriteBeforeClosingLine(lines: seq<string>, start: int, authors: seq<string>, d: nat, e: nat)
    requires d < e < Processed(lines, start)
    requires IsDocCommentStart(lines[d]) && Trim(lines[e]) == DocCommentEnd
    requires forall j :: 0 <= j < d ==> !IsDocCommentStart(lines[j])
    requires forall j :: d < j < e ==> Trim(lines[j]) != DocCommentEnd
    requires forall j :: d < j < Processed(lines, start) ==> !IsAuthorLine(lines[j])
    requires start < 0 || d <= start
    ensures Rewrite(lines, start, authors) == lines[..e] + AuthorBlock(authors) + lines[e..]
  {
    var n := Processed(lines, start);
    var flags := AllFlags(lines);
    AllFlagsCoherent(lines);
    assert flags[d] == FlagsOf(lines[d]);
    assert flags[e] == FlagsOf(lines[e]);
    assert forall j :: 0 <= j < d ==> !flags[j].opensDoc by {
      forall j | 0 <= j < d ensures !flags[j].opensDoc {
        assert flags[j] == FlagsOf(lines[j]);
      }
    }
    assert forall j :: d < j < n ==> !flags[j].isAuthor by {
      forall j | d < j < n ensures !flags[j].isAuthor {
        assert flags[j] == FlagsOf(lines[j]);
      }
    }
    assert forall j :: d < j < e ==> !Triggers(flags[j]) by {
      forall j | d < j < e ensures !Triggers(flags[j]) {
        assert flags[j] == FlagsOf(lines[j]);
      }
    }
    ClosingLineCase(lines, flags, start, AuthorBlock(authors), d, e);
  }

  /**
    A doc comment that neither holds an author line nor closes on a line of its
    own within the first part (a one-line comment, say) leaves the file as it
    is: no author is written.
   */
  lemma RewriteWithoutTrigger(lines: seq<string>, start: int, authors: seq<string>, d: nat)
    requires d < Processed(lines, start) && IsDocCommentStart(lines[d])
    requires forall j :: 0 <= j < d ==> !IsDocCommentStart(lines[j])
    requires forall j :: d < j < Processed(lines, start) ==> !IsTrigger(lines[j])
    requires start < 0 || d <= start
    ensures Rewrite(lines, start, authors) == lines
  {
    var n := Processed(lines, start);
    var flags := AllFlags(lines);
    assert forall j :: d < j < n ==> !Triggers(flags[j]) by {
      forall j | d < j < n ensures !Triggers(flags[j]) {
        assert flags[j] == FlagsOf(lines[j]);
      }
    }
    UntriggeredCase(lines, flags, start, AuthorBlock(authors), d);
  }

  // -------------------------------------------------------------- routing

  /**
    The file moves of `writeAuthorTags`, given the `content` the rewrite
    produces for the live file. RESTORE puts a backup back; every other mode
    first removes a stale test file (and, under NO_BACKUP, a stale backup),
    then, for a typed record that is not skipped and whose file exists, writes
    the content to the temp file, saves the live file under BACKUP, and moves
    the temp file onto the output: the test file under TEST, the live file
    otherwise.
   */
  function Route(fs: Fs, jf: JavaFile, mode: BackupingMode, content: seq<string>): Fs {
    var live := jf.file;
    var test := TestFileOf(live);
    var backup := BackupFileOf(live);
    var temp := TempFileOf(live);
    var output := if mode == Test then test else live;
    CompanionPathsDistinct(live);
    if mode == Restore then
      if backup in fs then Rename(Delete(fs, output), backup, output) else fs
    else
      var cleaned := if mode != Test then Delete(fs, test) else fs;
      var cleaned' := if mode == NoBackup then Delete(cleaned, backup) else cleaned;
      if jf.typeName.None? || jf.taggingMode == Skip || live !in cleaned' then cleaned'
      else
        var written := cleaned'[temp := content];
        var saved := if mode == Backup then Rename(Delete(written, backup), output, backup) else written;
        Rename(Delete(saved, output), temp, output)
  }

  /** The record is rewritten: it has a type name, is not skipped, and its file exists. */
  predicate Rewritten(fs: Fs, jf: JavaFile) {
    jf.typeName.Some? && jf.taggingMode != Skip && jf.file in fs
  }

  /** The rewritten lines of the record's live file, with the final author list. */
  function NewContent(fs: Fs, jf: JavaFile): seq<string>
    requires jf.file in fs
  {
    Rewrite(fs[jf.file], jf.startLine, FinalAuthors(jf))
  }

  /** `writeAuthorTags` for one record under one backup mode. */
  function WriteAuthorTags(fs: Fs, jf: JavaFile, mode: BackupingMode): Fs {
    Route(fs, jf, mode, if jf.file in fs then NewContent(fs, jf) else [])
  }

  // ------------------------------------------------- routing, any content

  lemma RouteFrame(fs: Fs, jf: JavaFile, mode: BackupingMode, content: seq<string>, q: Path)
    requires q != jf.file && q != TestFileOf(jf.file) && q != BackupFileOf(jf.file) && q != TempFileOf(jf.file)
    ensures SameFile(fs, Route(fs, jf, mode, content), q)
  {
  }

  lemma RouteRestore(fs: Fs, jf: JavaFile, content: seq<string>)
    ensures var r := Route(fs, jf, Restore, content);
      && (BackupFileOf(jf.file) in fs ==>
            && jf.file in r && r[jf.file] == fs[BackupFileOf(jf.file)]
            && BackupFileOf(jf.file) !in r
            && SameFile(fs, r, TestFileOf(jf.file)) && SameFile(fs, r, TempFileOf(jf.file)))
      && (BackupFileOf(jf.file) !in fs ==> r == fs)
  {
    CompanionPathsDistinct(jf.file);
  }

  lemma RouteStaleFiles(fs: Fs, jf: JavaFile, mode: BackupingMode, content: seq<string>)
    ensures mode != Restore && mode != Test ==> TestFileOf(jf.file) !in Route(fs, jf, mode, content)
    ensures mode == NoBackup ==> BackupFileOf(jf.file) !in Route(fs, jf, mode, content)
  {
    CompanionPathsDistinct(jf.file);
  }

  lemma RouteNotRewritten(fs: Fs, jf: JavaFile, mode: BackupingMode, content: seq<string>)
    requires mode != Restore && !Rewritten(fs, jf)
    ensures SameFile(fs, Route(fs, jf, mode, content), jf.file)
    ensures SameFile(fs, Route(fs, jf, mode, content), TempFileOf(jf.file))
  {
    CompanionPathsDistinct(jf.file);
  }

  lemma RouteTest(fs: Fs, jf: JavaFile, content: seq<string>)
    requires Rewritten(fs, jf)
    ensures var r := Route(fs, jf, Test, content);
      && TestFileOf(jf.file) in r && r[TestFileOf(jf.file)] == content
      && SameFile(fs, r, jf.file) && SameFile(fs, r, BackupFileOf(jf.file))
      && TempFileOf(jf.file) !in r
  {
    CompanionPathsDistinct(jf.file);
  }

  lemma RouteBackup(fs: Fs, jf: JavaFile, content: seq<string>)
    requires Rewritten(fs, jf)
    ensures var r := Route(fs, jf, Backup, content);
      && jf.file in r && r[jf.file] == content
      && BackupFileOf(jf.file) in r && r[BackupFileOf(jf.file)] == fs[jf.file]
      && TestFileOf(jf.file) !in r && TempFileOf(jf.file) !in r
  {
    CompanionPathsDistinct(jf.file);
  }

  lemma RouteNoBackup(fs: Fs, jf: JavaFile, content: seq<string>)
    requires Rewritten(fs, jf)
    ensures var r := Route(fs, jf, NoBackup, content);
      && jf.file in r && r[jf.file] == content
      && BackupFileOf(jf.file) !in r && TestFileOf(jf.file) !in r && TempFileOf(jf.file) !in r
  {
    CompanionPathsDistinct(jf.file);
  }

  // ------------------------------------------------- routing, the rewrite

  /** Only the live file and its three companions are ever touched. */
  lemma WriteFrame(fs: Fs, jf: JavaFile, mode: BackupingMode, q: Path)
    requires q != jf.file && q != TestFileOf(jf.file) && q != BackupFileOf(jf.file) && q != TempFileOf(jf.file)
    ensures SameFile(fs, WriteAuthorTags(fs, jf, mode), q)
  {
    RouteFrame(fs, jf, mode, if jf.file in fs then NewContent(fs, jf) else [], q);
  }

  /** RESTORE moves an existing backup over the live file, and otherwise does nothing. */
  lemma RestoreSpec(fs: Fs, jf: JavaFile)
    ensures var r := WriteAuthorTags(fs, jf, Restore);
      && (BackupFileOf(jf.file) in fs ==>
            && jf.file in r && r[jf.file] == fs[BackupFileOf(jf.file)]
            && BackupFileOf(jf.file) !in r
            && SameFile(fs, r, TestFileOf(jf.file)) && SameFile(fs, r, TempFileOf(jf.file)))
      && (BackupFileOf(jf.file) !in fs ==> r == fs)
  {
    RouteRestore(fs, jf, if jf.file in fs then NewContent(fs, jf) else []);
  }

  /**
    Every mode but RESTORE and TEST removes the test file, and NO_BACKUP the
    backup, whether or not the record is then rewritten.
   */
  lemma StaleFilesRemoved(fs: Fs, jf: JavaFile, mode: BackupingMode)
    ensures mode != Restore && mode != Test ==> TestFileOf(jf.file) !in WriteAuthorTags(fs, jf, mode)
    ensures mode == NoBackup ==> BackupFileOf(jf.file) !in WriteAuthorTags(fs, jf, mode)
  {
    RouteStaleFiles(fs, jf, mode, if jf.file in fs then NewContent(fs, jf) else []);
  }

  /** A record that is not rewritten keeps its live file, and no temp file appears. */
  lemma NotRewrittenKeepsLiveFile(fs: Fs, jf: JavaFile, mode: BackupingMode)
    requires mode != Restore && !Rewritten(fs, jf)
    ensures SameFile(fs, WriteAuthorTags(fs, jf, mode), jf.file)
    ensures SameFile(fs, WriteAuthorTags(fs, jf, mode), TempFileOf(jf.file))
  {
    RouteNotRewritten(fs, jf, mode, if jf.file in fs then NewContent(fs, jf) else []);
  }

  /** TEST writes the new content to the test file only; live file and backup stay. */
  lemma TestModeSpec(fs: Fs, jf: JavaFile)
    requires Rewritten(fs, jf)
    ensures var r := WriteAuthorTags(fs, jf, Test);
      && TestFileOf(jf.file) in r && r[TestFileOf(jf.file)] == NewContent(fs, jf)
      && SameFile(fs, r, jf.file) && SameFile(fs, r, BackupFileOf(jf.file))
      && TempFileOf(jf.file) !in r
  {
    RouteTest(fs, jf, NewContent(fs, jf));
  }

  /** BACKUP saves the old live content to the backup and puts the new content live. */
  lemma BackupModeSpec(fs: Fs, jf: JavaFile)
    requires Rewritten(fs, jf)
    ensures var r := WriteAuthorTags(fs, jf, Backup);
      && jf.file in r && r[jf.file] == NewContent(fs, jf)
      && BackupFileOf(jf.file) in r && r[BackupFileOf(jf.file)] == fs[jf.file]
      && TestFileOf(jf.file) !in r && TempFileOf(jf.file) !in r
  {
    RouteBackup(fs, jf, NewContent(fs, jf));
  }

  /** NO_BACKUP puts the new content live and leaves no companion file behind. */
  lemma NoBackupModeSpec(fs: Fs, jf: JavaFile)
    requires Rewritten(fs, jf)
    ensures var r := WriteAuthorTags(fs, jf, NoBackup);
      && jf.file in r && r[jf.file] == NewContent(fs, jf)
      && BackupFileOf(jf.file) !in r && TestFileOf(jf.file) !in r && TempFileOf(jf.file) !in r
  {
    RouteNoBackup(fs, jf, NewContent(fs, jf));
  }

  /**
    BACKUP followed by RESTORE gives the live file its original content back and
    leaves none of the three companion files.
   */
  lemma BackupThenRestore(fs: Fs, jf: JavaFile)
    requires Rewritten(fs, jf)
    ensures var r := WriteAuthorTags(WriteAuthorTags(fs, jf, Backup), jf, Restore);
      && jf.file in r && r[jf.file] == fs[jf.file]
      && BackupFileOf(jf.file) !in r && TestFileOf(jf.file) !in r && TempFileOf(jf.file) !in r
  {
    var mid := WriteAuthorTags(fs, jf, Backup);
    BackupModeSpec(fs, jf);
    RestoreSpec(mid, jf);
  }
}
