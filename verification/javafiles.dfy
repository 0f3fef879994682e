/**
  `JavaFiles`: the list of records and the two filter-scoped operations on it,
  `addAuthor` and `skip`, plus the `delAuthor` stub.
 */
module JavaFileList {
  import opened Strings
  import opened Regex
  import opened Model
  import ClassNameFilters

  type ClassNameFilter = ClassNameFilters.ClassNameFilter

  /** Whether a class-name filter accepts the record's type name. */
  predicate Selects(engine: RegexEngine, filter: ClassNameFilter, jf: JavaFile) {
    ClassNameFilters.Accept(engine, filter, jf.typeName)
  }

  /** A record without a type name is never selected, whatever the filter. */
  lemma UntypedNeverSelected(engine: RegexEngine, filter: ClassNameFilter, jf: JavaFile)
    requires jf.typeName.None?
    ensures !Selects(engine, filter, jf)
  {
  }

  function WithNewAuthor(jf: JavaFile, author: string): (r: JavaFile)
    ensures r.newAuthors == jf.newAuthors + [author]
    ensures r.file == jf.file && r.typeName == jf.typeName && r.taggingMode == jf.taggingMode
    ensures r.oldAuthors == jf.oldAuthors && r.startLine == jf.startLine
  {
    jf.(newAuthors := jf.newAuthors + [author])
  }

  /**
    `addAuthor`: every selected record gets the author appended to its new
    authors (repeats allowed); every other record is left as it is.
   */
  method AddAuthor(engine: RegexEngine, files: seq<JavaFile>, classFilter: string, author: string)
    returns (r: seq<JavaFile>)
    ensures var filter := ClassNameFilters.NewClassNameFilter(classFilter);
      && |r| == |files|
      && (forall i :: 0 <= i < |files| && Selects(engine, filter, files[i]) ==>
            r[i] == WithNewAuthor(files[i], author))
      && (forall i :: 0 <= i < |files| && !Selects(engine, filter, files[i]) ==> r[i] == files[i])
      && (forall i :: 0 <= i < |files| && files[i].typeName.None? ==> r[i] == files[i])
  {
    var filter := ClassNameFilters.NewClassNameFilter(classFilter);
    r := files;
    for i := 0 to |files|
      invariant |r| == |files|
      invariant forall k :: 0 <= k < i && Selects(engine, filter, files[k]) ==>
        r[k] == WithNewAuthor(files[k], author)
      invariant forall k :: 0 <= k < |files| && (k >= i || !Selects(engine, filter, files[k])) ==>
        r[k] == files[k]
    {
      if Selects(engine, filter, r[i]) {
        r := r[i := WithNewAuthor(r[i], author)];
      }
    }
  }

  /** `delAuthor` selects records but, as written, removes nothing from any of them. */
  function DelAuthor(engine: RegexEngine, files: seq<JavaFile>, classFilter: string, authorFilter: string)
    : (r: seq<JavaFile>)
    ensures r == files
  {
    files
  }

  /** The records a predicate rejects, in their original order. */
  function Rejected(accepts: JavaFile -> bool, files: seq<JavaFile>): seq<JavaFile> {
    if |files| == 0 then []
    else (if accepts(files[0]) then [] else [files[0]]) + Rejected(accepts, files[1..])
  }

  lemma {:induction false} RejectedAppend(accepts: JavaFile -> bool, files: seq<JavaFile>, jf: JavaFile)
    ensures Rejected(accepts, files + [jf]) == Rejected(accepts, files) + (if accepts(jf) then [] else [jf])
    decreases |files|
  {
    if |files| == 0 {
      assert files + [jf] == [jf];
    } else {
      var head := if accepts(files[0]) then [] else [files[0]];
      assert Rejected(accepts, files + [jf]) == head + Rejected(accepts, files[1..] + [jf]) by {
        assert (files + [jf])[0] == files[0];
        assert (files + [jf])[1..] == files[1..] + [jf];
      }
      RejectedAppend(accepts, files[1..], jf);
    }
  }

  /**
    What survives a removal pass: exactly the rejected records, none accepted,
    each one an input record.
   */
  lemma {:induction false} RejectedSpec(accepts: JavaFile -> bool, files: seq<JavaFile>)
    ensures |Rejected(accepts, files)| <= |files|
    ensures forall jf :: jf in Rejected(accepts, files) <==> jf in files && !accepts(jf)
    decreases |files|
  {
    if |files| > 0 {
      RejectedSpec(accepts, files[1..]);
      assert files == [files[0]] + files[1..];
    }
  }

  /**
    `skip`: walks the list with an index and removes each selected record in
    place; the others stay, in order.
   */
  method Skip(engine: RegexEngine, files: seq<JavaFile>, classFilter: string) returns (list: seq<JavaFile>)
    ensures list == Rejected(jf => Selects(engine, ClassNameFilters.NewClassNameFilter(classFilter), jf), files)
  {
    var filter := ClassNameFilters.NewClassNameFilter(classFilter);
    ghost var accepts := jf => Selects(engine, filter, jf);
    list := files;
    var i := 0;
    ghost var done := 0;
    while i < |list|
      invariant 0 <= done <= |files| && 0 <= i <= |list|
      invariant list[..i] == Rejected(accepts, files[..done])
      invariant list[i..] == files[done..]
      decreases |list| - i
    {
      assert files[..done + 1] == files[..done] + [files[done]];
      RejectedAppend(accepts, files[..done], files[done]);
      if Selects(engine, filter, list[i]) {
        RemoveAtSplit(list, i, files[done..]);
        list := list[..i] + list[i + 1..];
      } else {
        StepPastSplit(list, i, files[done..]);
        i := i + 1;
      }
      done := done + 1;
    }
    assert files[..done] == files;
  }

  /**
    After `skip`, no remaining record is selected, every unselected record
    remains, and in particular every record without a type name remains.
   */
  lemma SkipSpec(engine: RegexEngine, files: seq<JavaFile>, filter: ClassNameFilter)
    ensures var rest := Rejected(jf => Selects(engine, filter, jf), files);
      && (forall jf :: jf in rest ==> !Selects(engine, filter, jf))
      && (forall jf :: jf in files && !Selects(engine, filter, jf) ==> jf in rest)
      && (forall jf :: jf in files && jf.typeName.None? ==> jf in rest)
  {
    RejectedSpec(jf => Selects(engine, filter, jf), files);
  }
}
