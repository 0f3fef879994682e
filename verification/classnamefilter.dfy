/**
  `ClassNameFilter`: the glob language for dotted type names and its translation
  into a regular expression, plus the filter object that tests a type name.
 */
module ClassNameFilters {
  import opened Strings
  import opened Regex

  /** The placeholder `×` (U+00D7) the translation uses to protect `.*` from the `*` pass. */
  const Placeholder: char := '\U{D7}'

  /** What the `**` pass writes: a dot and the placeholder. */
  const Marker: string := ['.', Placeholder]

  /** What a short-name regular expression starts with: an optional dotted prefix. */
  const ShortNamePrefix := "(.*\\.)?"

  /**
    `filterStringToRegex`: a slash-enclosed filter yields its interior; a filter
    with a dot is rewritten by five literal `replaceAll` passes and anchored at
    both ends; any other filter is rewritten by two passes, given the optional
    dotted prefix and anchored at the end only.
   */
  function FilterStringToRegex(filter: string): string {
    if IsSlashEnclosed(filter) then
      SlashInterior(filter)
    else if Contains(filter, '.') then
      var escaped := ReplaceAll(filter, ".", "\\.");
      var single := ReplaceAll(escaped, "?", "[^.]");
      var marked := ReplaceAll(single, "**", Marker);
      var starred := ReplaceAll(marked, "*", "[^.]*");
      "^" + ReplaceAll(starred, [Placeholder], "*") + "$"
    else
      ShortNamePrefix + ReplaceAll(ReplaceAll(filter, "?", "[^.]"), "*", "[^.]*") + "$"
  }

  // ------------------------------------------------ reference translations

  /** The documented meaning of one character of a short-name filter. */
  function ShortChar(c: char): string {
    if c == '?' then "[^.]" else if c == '*' then "[^.]*" else [c]
  }

  /** A short-name filter translated character by character. */
  function ShortBody(f: string): string {
    if |f| == 0 then "" else ShortChar(f[0]) + ShortBody(f[1..])
  }

  /** The documented meaning of one character of a dotted filter (a lone `*`). */
  function DottedChar(c: char): string {
    if c == '.' then "\\." else if c == '?' then "[^.]" else if c == '*' then "[^.]*" else [c]
  }

  /** A dotted filter translated left to right, `**` taking precedence over `*`. */
  function DottedBody(f: string): string {
    if |f| == 0 then ""
    else if |f| >= 2 && f[0] == '*' && f[1] == '*' then ".*" + DottedBody(f[2..])
    else DottedChar(f[0]) + DottedBody(f[1..])
  }

  // ------------------------------------------------------------ the proofs

  function ShortPasses(f: string): string {
    ReplaceAll(ReplaceAll(f, "?", "[^.]"), "*", "[^.]*")
  }

  lemma {:induction false} ShortPassesAppend(a: string, b: string)
    ensures ShortPasses(a + b) == ShortPasses(a) + ShortPasses(b)
  {
    ReplaceCharAppend(a, b, '?', "[^.]");
    ReplaceCharAppend(ReplaceAll(a, "?", "[^.]"), ReplaceAll(b, "?", "[^.]"), '*', "[^.]*");
  }

  /** The two `replaceAll` passes of the short-name branch translate character by character. */
  lemma {:induction false} ShortPassesAreShortBody(f: string)
    ensures ShortPasses(f) == ShortBody(f)
    decreases |f|
  {
    if |f| > 0 {
      assert ShortPasses(f) == ShortPasses([f[0]]) + ShortPasses(f[1..]) by {
        assert f == [f[0]] + f[1..];
        ShortPassesAppend([f[0]], f[1..]);
      }
      ShortPassesChar(f[0]);
      ShortPassesAreShortBody(f[1..]);
    }
  }

  lemma ShortPassesChar(c: char)
    ensures ShortPasses([c]) == ShortChar(c)
  {
    if c == '?' {
      assert ReplaceAll([c], "?", "[^.]") == "[^.]";
      ReplaceCharAbsent("[^.]", '*', "[^.]*");
    } else {
      ReplaceCharAbsent([c], '?', "[^.]");
      if c != '*' {
        ReplaceCharAbsent([c], '*', "[^.]*");
      }
    }
  }

  /** The short-name branch: optional dotted prefix, translated body, end anchor, no start anchor. */
  lemma ShortNameRegex(filter: string)
    requires !IsSlashEnclosed(filter) && !Contains(filter, '.')
    ensures FilterStringToRegex(filter) == ShortNamePrefix + ShortBody(filter) + "$"
  {
    ShortPassesAreShortBody(filter);
  }

  /** The first two passes of the dotted branch. */
  function EscapePasses(f: string): string {
    ReplaceAll(ReplaceAll(f, ".", "\\."), "?", "[^.]")
  }

  /** The last two passes of the dotted branch. */
  function StarPasses(f: string): string {
    ReplaceAll(ReplaceAll(f, "*", "[^.]*"), [Placeholder], "*")
  }

  lemma {:induction false} EscapePassesAppend(a: string, b: string)
    ensures EscapePasses(a + b) == EscapePasses(a) + EscapePasses(b)
  {
    ReplaceCharAppend(a, b, '.', "\\.");
    ReplaceCharAppend(ReplaceAll(a, ".", "\\."), ReplaceAll(b, ".", "\\."), '?', "[^.]");
  }

  lemma {:induction false} StarPassesAppend(a: string, b: string)
    ensures StarPasses(a + b) == StarPasses(a) + StarPasses(b)
  {
    ReplaceCharAppend(a, b, '*', "[^.]*");
    ReplaceCharAppend(ReplaceAll(a, "*", "[^.]*"), ReplaceAll(b, "*", "[^.]*"), Placeholder, "*");
  }

  /** The `**` pass passes over a prefix that holds no `*`. */
  lemma {:induction false} DoubleStarSkipsPrefix(x: string, u: string)
    requires !Contains(x, '*')
    ensures ReplaceAll(x + u, "**", Marker) == x + ReplaceAll(u, "**", Marker)
    decreases |x|
  {
    if |x| > 0 {
      var s := x + u;
      NotContainsSuffix(x, 1, '*');
      assert ReplaceAll(s, "**", Marker) == [x[0]] + ReplaceAll(x[1..] + u, "**", Marker) by {
        assert x[0] != '*';
        assert s[0] == x[0] && s[1..] == x[1..] + u;
        if |s| >= 2 {
          assert s[..2] != "**" by { assert s[..2][0] == x[0]; }
        }
        ReplaceAllCopiesHead(s, "**", Marker);
      }
      DoubleStarSkipsPrefix(x[1..], u);
      ConsRegroup(x, ReplaceAll(u, "**", Marker));
    } else {
      assert x + u == u;
    }
  }

  lemma ConsRegroup(x: string, r: string)
    requires |x| > 0
    ensures [x[0]] + (x[1..] + r) == x + r
  {
    assert [x[0]] + x[1..] == x;
  }

  /** The whole dotted branch without its anchors. */
  function DottedPasses(f: string): string {
    StarPasses(ReplaceAll(EscapePasses(f), "**", Marker))
  }

  lemma DottedPassesDoubleStar(t: string)
    ensures DottedPasses("**" + t) == ".*" + DottedPasses(t)
  {
    EscapePassesAppend("**", t);
    var u := EscapePasses(t);
    assert EscapePasses("**") == "**";
    var s := "**" + u;
    assert s[..2] == "**";
    assert s[2..] == u;
    StarPassesAppend(Marker, ReplaceAll(u, "**", Marker));
    assert StarPasses(Marker) == ".*" by {
      assert !Contains(Marker, '*');
      ReplaceCharAbsent(Marker, '*', "[^.]*");
      assert ReplaceAll(Marker, "*", "[^.]*") == Marker;
      assert Marker[..1] != [Placeholder] && Marker[1..] == [Placeholder];
      assert ReplaceAll(Marker, [Placeholder], "*") == "." + ReplaceAll([Placeholder], [Placeholder], "*");
      var p := [Placeholder];
      assert p[..1] == [Placeholder] && p[1..] == [];
      assert ReplaceAll(p, [Placeholder], "*") == "*" + ReplaceAll([], [Placeholder], "*");
    }
  }

  /** A lone star passes the escapes untouched and becomes `[^.]*` in the star passes. */
  lemma SingleStarPasses()
    ensures EscapePasses("*") == "*"
    ensures StarPasses("*") == "[^.]*"
  {
  }

  /** The `**` pass copies a `*` that is not followed by another. */
  lemma DoubleStarSkipsSingle(u: string)
    requires |u| > 0 ==> u[0] != '*'
    ensures ReplaceAll("*" + u, "**", Marker) == "*" + ReplaceAll(u, "**", Marker)
  {
    var s := "*" + u;
    if |s| >= 2 {
      assert s[..2] != "**" by { assert s[..2][1] == u[0]; }
      assert s[1..] == u;
    } else {
      assert u == "";
    }
  }

  lemma DottedPassesSingleStar(t: string)
    requires |t| > 0 ==> t[0] != '*'
    ensures DottedPasses("*" + t) == "[^.]*" + DottedPasses(t)
  {
    EscapePassesAppend("*", t);
    SingleStarPasses();
    var u := EscapePasses(t);
    EscapePassesHead(t);
    DoubleStarSkipsSingle(u);
    StarPassesAppend("*", ReplaceAll(u, "**", Marker));
  }

  /** The escape passes on one character other than the jokers. */
  lemma EscapePassesOther(c: char)
    requires c != '*' && c != Placeholder
    ensures EscapePasses([c]) == DottedChar(c)
    ensures !Contains(DottedChar(c), '*') && !Contains(DottedChar(c), Placeholder)
  {
    var x := ReplaceAll([c], ".", "\\.");
    assert [c][..1] == [c] && [c][1..] == [];
    if c == '.' {
      assert x == "\\.";
      assert x[..1] != "?" && x[1..] == ".";
      assert ReplaceAll(x, "?", "[^.]") == x;
    } else if c == '?' {
      assert x == "?";
      assert x[..1] == "?" && x[1..] == [];
    } else {
      assert x == [c];
    }
  }

  /** The star passes leave a string without `*` and placeholder alone. */
  lemma StarPassesPlain(x: string)
    requires !Contains(x, '*') && !Contains(x, Placeholder)
    ensures StarPasses(x) == x
  {
    ReplaceCharAbsent(x, '*', "[^.]*");
    ReplaceCharAbsent(x, Placeholder, "*");
  }

  lemma DottedPassesOther(c: char, t: string)
    requires c != '*' && c != Placeholder
    ensures DottedPasses([c] + t) == DottedChar(c) + DottedPasses(t)
  {
    EscapePassesAppend([c], t);
    var u := EscapePasses(t);
    var x := EscapePasses([c]);
    EscapePassesOther(c);
    DoubleStarSkipsPrefix(x, u);
    StarPassesAppend(x, ReplaceAll(u, "**", Marker));
    StarPassesPlain(x);
  }

  /** The five passes of the dotted branch compute the documented translation. */
  lemma {:induction false} DottedPassesAreDottedBody(f: string)
    requires !Contains(f, Placeholder)
    ensures DottedPasses(f) == DottedBody(f)
    decreases |f|
  {
    if |f| > 0 {
      assert f[0] != Placeholder;
      var n := if |f| >= 2 && f[0] == '*' && f[1] == '*' then 2 else 1;
      var t := f[n..];
      NotContainsSuffix(f, n, Placeholder);
      var piece := if n == 2 then ".*" else DottedChar(f[0]);
      assert DottedBody(f) == piece + DottedBody(t);
      assert DottedPasses(f) == piece + DottedPasses(t) by {
        if n == 2 {
          assert f == "**" + t;
          DottedPassesDoubleStar(t);
        } else if f[0] == '*' {
          assert f == "*" + t;
          DottedPassesSingleStar(t);
        } else {
          assert f == [f[0]] + t;
          DottedPassesOther(f[0], t);
        }
      }
      DottedPassesAreDottedBody(t);
    }
  }

  /** After the escape passes, a string that did not start with `*` still does not. */
  lemma EscapePassesHead(t: string)
    requires |t| > 0 ==> t[0] != '*'
    ensures |EscapePasses(t)| > 0 ==> EscapePasses(t)[0] != '*'
  {
    if |t| > 0 {
      assert t == [t[0]] + t[1..];
      EscapePassesAppend([t[0]], t[1..]);
    }
  }

  /**
    The dotted branch: start and end anchors around the documented translation,
    for every filter that does not itself contain the placeholder `×`.
   */
  lemma DottedNameRegex(filter: string)
    requires !IsSlashEnclosed(filter) && Contains(filter, '.')
    requires !Contains(filter, Placeholder)
    ensures FilterStringToRegex(filter) == "^" + DottedBody(filter) + "$"
  {
    DottedPassesAreDottedBody(filter);
  }

  /** The short-name translation works piece by piece. */
  lemma {:induction false} ShortBodyAppend(a: string, b: string)
    ensures ShortBody(a + b) == ShortBody(a) + ShortBody(b)
    decreases |a|
  {
    if |a| == 0 {
      assert a + b == b;
    } else {
      assert (a + b)[1..] == a[1..] + b;
      ShortBodyAppend(a[1..], b);
    }
  }

  /**
    The dotted translation works piece by piece, provided the cut does not fall
    between two stars.
   */
  lemma {:induction false} DottedBodyAppend(a: string, b: string)
    requires |a| > 0 && |b| > 0 ==> a[|a| - 1] != '*' || b[0] != '*'
    ensures DottedBody(a + b) == DottedBody(a) + DottedBody(b)
    decreases |a|
  {
    var s := a + b;
    if |a| == 0 {
      assert s == b;
    } else {
      var n := if |a| >= 2 && a[0] == '*' && a[1] == '*' then 2 else 1;
      var piece := if n == 2 then ".*" else DottedChar(a[0]);
      var t := a[n..];
      assert DottedBody(a) == piece + DottedBody(t);
      assert DottedBody(s) == piece + DottedBody(t + b) by {
        assert s[n..] == t + b;
        if n == 2 {
          assert s[0] == '*' && s[1] == '*';
        } else {
          assert s[0] == a[0];
          if |a| == 1 {
            assert |s| >= 2 && s[0] == '*' ==> s[1] == b[0] && b[0] != '*';
          } else {
            assert s[1] == a[1];
          }
        }
      }
      assert |t| > 0 ==> t[|t| - 1] == a[|a| - 1];
      DottedBodyAppend(t, b);
      AppendAssoc(piece, DottedBody(t), DottedBody(b));
    }
  }

  /** A character with no meaning in either filter language. */
  predicate IsPlainChar(c: char) {
    c != '.' && c != '?' && c != '*' && c != Placeholder
  }

  predicate IsPlainWord(w: string) {
    forall i :: 0 <= i < |w| ==> IsPlainChar(w[i])
  }

  lemma PlainWordLacks(w: string, c: char)
    requires IsPlainWord(w) && !IsPlainChar(c)
    ensures !Contains(w, c)
  {
  }

  lemma {:induction false} PlainWordTranslations(w: string)
    requires IsPlainWord(w)
    ensures ShortBody(w) == w && DottedBody(w) == w
    decreases |w|
  {
    if |w| > 0 {
      assert IsPlainChar(w[0]);
      assert IsPlainWord(w[1..]) by {
        forall i | 0 <= i < |w[1..]| ensures IsPlainChar(w[1..][i]) {
          assert w[1..][i] == w[i + 1];
        }
      }
      PlainWordTranslations(w[1..]);
    }
  }

  // ---------------------------------------------------------- filter object

  /** A `ClassNameFilter` instance: the filter text and the regex derived from it once. */
  datatype ClassNameFilter = ClassNameFilter(filter: string, regex: string)

  function NewClassNameFilter(filter: string): (f: ClassNameFilter)
    ensures f.filter == filter && f.regex == FilterStringToRegex(filter)
  {
    ClassNameFilter(filter, FilterStringToRegex(filter))
  }

  /** `accept`: false for a missing name, otherwise a whole-string match. */
  function Accept(engine: RegexEngine, f: ClassNameFilter, className: Option<string>): (r: bool)
    ensures className.None? ==> !r
    ensures className.Some? ==> (r <==> engine.matches(f.regex, className.value))
  {
    className.Some? && engine.matches(f.regex, className.value)
  }
}
