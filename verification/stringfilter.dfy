/**
  `AbstractStringFilter` with its one concrete translation, `SimpleStringFilter`:
  a search term with the jokers `?` and `*`, or a regular expression between
  slashes, matched by a substring search.
 */
module StringFilters {
  import opened Strings
  import opened Regex

  /**
    `SimpleStringFilter.filterToPattern`: a slash-enclosed filter yields its
    interior; otherwise `?` becomes `.` and then `*` becomes `.*`.
   */
  function SimpleFilterToPattern(filter: string): (r: string)
    ensures IsSlashEnclosed(filter) ==> filter == "/" + r + "/"
  {
    if IsSlashEnclosed(filter) then
      SlashInterior(filter)
    else
      ReplaceAll(ReplaceAll(filter, "?", "."), "*", ".*")
  }

  // ------------------------------------------------- reference translation

  /** The documented meaning of one character of a search term. */
  function SimpleChar(c: char): string {
    if c == '?' then "." else if c == '*' then ".*" else [c]
  }

  /** A search term translated character by character, with no anchors added. */
  function SimpleBody(f: string): string {
    if |f| == 0 then "" else SimpleChar(f[0]) + SimpleBody(f[1..])
  }

  lemma {:induction false} SimpleBodyAppend(a: string, b: string)
    ensures SimpleBody(a + b) == SimpleBody(a) + SimpleBody(b)
    decreases |a|
  {
    if |a| == 0 {
      assert a + b == b;
    } else {
      assert (a + b)[1..] == a[1..] + b;
      SimpleBodyAppend(a[1..], b);
    }
  }

  /** A search term without jokers is its own pattern. */
  lemma {:induction false} SimpleBodyPlain(f: string)
    requires !Contains(f, '?') && !Contains(f, '*')
    ensures SimpleBody(f) == f
    decreases |f|
  {
    if |f| > 0 {
      assert f[0] != '?' && f[0] != '*';
      assert !Contains(f[1..], '?') && !Contains(f[1..], '*') by {
        forall i | 0 <= i < |f[1..]| ensures f[1..][i] != '?' && f[1..][i] != '*' {
          assert f[1..][i] == f[i + 1];
        }
      }
      SimpleBodyPlain(f[1..]);
    }
  }

  function SimplePasses(f: string): string {
    ReplaceAll(ReplaceAll(f, "?", "."), "*", ".*")
  }

  lemma {:induction false} SimplePassesAppend(a: string, b: string)
    ensures SimplePasses(a + b) == SimplePasses(a) + SimplePasses(b)
  {
    ReplaceCharAppend(a, b, '?', ".");
    ReplaceCharAppend(ReplaceAll(a, "?", "."), ReplaceAll(b, "?", "."), '*', ".*");
  }

  lemma {:induction false} SimplePassesAreSimpleBody(f: string)
    ensures SimplePasses(f) == SimpleBody(f)
    decreases |f|
  {
    if |f| > 0 {
      assert SimplePasses(f) == SimplePasses([f[0]]) + SimplePasses(f[1..]) by {
        assert f == [f[0]] + f[1..];
        SimplePassesAppend([f[0]], f[1..]);
      }
      SimplePassesChar(f[0]);
      SimplePassesAreSimpleBody(f[1..]);
    }
  }

  lemma SimplePassesChar(c: char)
    ensures SimplePasses([c]) == SimpleChar(c)
  {
    if c == '?' {
      assert ReplaceAll([c], "?", ".") == ".";
      ReplaceCharAbsent(".", '*', ".*");
    } else {
      ReplaceCharAbsent([c], '?', ".");
      if c != '*' {
        ReplaceCharAbsent([c], '*', ".*");
      }
    }
  }

  /** Outside slashes, the pattern is the character-by-character translation. */
  lemma SimplePatternIsSimpleBody(filter: string)
    requires !IsSlashEnclosed(filter)
    ensures SimpleFilterToPattern(filter) == SimpleBody(filter)
  {
    SimplePassesAreSimpleBody(filter);
  }

  /** Each `*` adds one character (its `.`); every other character keeps its length. */
  lemma {:induction false} SimpleBodyLength(f: string)
    ensures |SimpleBody(f)| == |f| + Count(f, '*')
    decreases |f|
  {
    if |f| > 0 {
      SimpleBodyLength(f[1..]);
    }
  }

  /** Outside slashes, the pattern is as long as the filter plus one per `*`. */
  lemma SimplePatternLength(filter: string)
    requires !IsSlashEnclosed(filter)
    ensures |SimpleFilterToPattern(filter)| == |filter| + Count(filter, '*')
  {
    SimplePatternIsSimpleBody(filter);
    SimpleBodyLength(filter);
  }

  // ---------------------------------------------------------- filter object

  /**
    A filter instance: the readable filter and the pattern derived from it once,
    at construction; neither changes afterwards.
   */
  datatype StringFilter = StringFilter(filter: string, pattern: string)

  function NewSimpleStringFilter(filter: string): (f: StringFilter)
    ensures f.filter == filter && f.pattern == SimpleFilterToPattern(filter)
  {
    StringFilter(filter, SimpleFilterToPattern(filter))
  }

  function GetFilter(f: StringFilter): string {
    f.filter
  }

  /** `getFilter` hands back exactly the string the filter was built from. */
  lemma GetFilterOfNew(filter: string)
    ensures GetFilter(NewSimpleStringFilter(filter)) == filter
  {
  }

  /**
    `accept`: false for a missing string; otherwise a search for the pattern
    anywhere in the string, not a whole-string match.
   */
  function Accept(engine: RegexEngine, f: StringFilter, s: Option<string>): (r: bool)
    ensures s.None? ==> !r
    ensures s.Some? ==> (r <==> engine.find(f.pattern, s.value))
  {
    s.Some? && engine.find(f.pattern, s.value)
  }
}
