/**
  The exact translations the unit tests of the two filter classes pin down. Each
  is first proved for every choice of the plain words between the jokers, then
  for the words the tests use.
 */
module FilterExamples {
  import opened Strings
  import opened Regex
  import opened ClassNameFilters
  import StringFilters

  // ------------------------------------------------------- short-name filter

  lemma ShortShapeBranch(a: string, b: string)
    requires IsPlainWord(a) && IsPlainWord(b)
    ensures !IsSlashEnclosed(a + "??" + b + "*") && !Contains(a + "??" + b + "*", '.')
  {
    var f := a + "??" + b + "*";
    assert f[|f| - 1] == '*';
    PlainWordLacks(a, '.');
    PlainWordLacks(b, '.');
    ContainsAppend(a + "??" + b, "*", '.');
    ContainsAppend(a + "??", b, '.');
    ContainsAppend(a, "??", '.');
  }

  lemma ShortShapeBody(a: string, b: string)
    requires IsPlainWord(a) && IsPlainWord(b)
    ensures ShortBody(a + "??" + b + "*") == a + "[^.][^.]" + b + "[^.]*"
  {
    PlainWordTranslations(a);
    PlainWordTranslations(b);
    assert ShortBody("??") == "[^.][^.]" && ShortBody("*") == "[^.]*";
    ShortJoin(a, "??", a, "[^.][^.]");
    ShortJoin(a + "??", b, a + "[^.][^.]", b);
    ShortJoin(a + "??" + b, "*", a + "[^.][^.]" + b, "[^.]*");
  }

  /** Two translated pieces make the translation of the whole. */
  lemma ShortJoin(x: string, y: string, tx: string, ty: string)
    requires ShortBody(x) == tx && ShortBody(y) == ty
    ensures ShortBody(x + y) == tx + ty
  {
    ShortBodyAppend(x, y);
  }

  /** `Cla??Name*` with any plain words in place of `Cla` and `Name`. */
  lemma ShortNameShape(a: string, b: string)
    requires IsPlainWord(a) && IsPlainWord(b)
    ensures FilterStringToRegex(a + "??" + b + "*") == ShortNamePrefix + a + "[^.][^.]" + b + "[^.]*" + "$"
  {
    ShortShapeBranch(a, b);
    ShortNameRegex(a + "??" + b + "*");
    ShortShapeBody(a, b);
  }

  /** `Cla??Name*` becomes `(.*\.)?Cla[^.][^.]Name[^.]*$`. */
  lemma ShortNameExample(a: string, b: string)
    requires a == "Cla" && b == "Name"
    ensures a + "??" + b + "*" == "Cla??Name*"
    ensures FilterStringToRegex(a + "??" + b + "*") == "(.*\\.)?" + a + "[^.][^.]" + b + "[^.]*$"
  {
    ShortNameShape(a, b);
  }

  // ---------------------------------------------------------- dotted filter

  lemma DottedShapeBranch(p: string, n: string, c: string)
    requires IsPlainWord(p) && IsPlainWord(n) && IsPlainWord(c)
    requires |p| > 0 ==> p[0] != '/'
    ensures var f := p + "*." + n + "?.**" + c;
      !IsSlashEnclosed(f) && Contains(f, '.') && !Contains(f, Placeholder)
  {
    var f := p + "*." + n + "?.**" + c;
    assert f[|p| + 1] == '.';
    assert !IsSlashEnclosed(f) by {
      if |p| > 0 { assert f[0] == p[0]; } else { assert f[0] == '*'; }
    }
    PlainWordLacks(p, Placeholder);
    PlainWordLacks(n, Placeholder);
    PlainWordLacks(c, Placeholder);
    ContainsAppend(p + "*." + n + "?.**", c, Placeholder);
    ContainsAppend(p + "*." + n, "?.**", Placeholder);
    ContainsAppend(p + "*.", n, Placeholder);
    ContainsAppend(p, "*.", Placeholder);
  }

  lemma DottedJokers()
    ensures DottedBody("*.") == "[^.]*\\."
    ensures DottedBody("?.**") == "[^.]\\..*"
  {
  }

  /** Two translated pieces make the translation of the whole. */
  lemma DottedJoin(x: string, y: string, tx: string, ty: string)
    requires |x| > 0 && |y| > 0 ==> x[|x| - 1] != '*' || y[0] != '*'
    requires DottedBody(x) == tx && DottedBody(y) == ty
    ensures DottedBody(x + y) == tx + ty
  {
    DottedBodyAppend(x, y);
  }

  lemma DottedShapeBody(p: string, n: string, c: string)
    requires IsPlainWord(p) && IsPlainWord(n) && IsPlainWord(c)
    ensures DottedBody(p + "*." + n + "?.**" + c) == p + "[^.]*\\." + n + "[^.]\\..*" + c
  {
    PlainWordTranslations(p);
    PlainWordTranslations(n);
    PlainWordTranslations(c);
    DottedJokers();
    DottedJoin(p, "*.", p, "[^.]*\\.");
    DottedJoin(p + "*.", n, p + "[^.]*\\.", n);
    DottedJoin(p + "*." + n, "?.**", p + "[^.]*\\." + n, "[^.]\\..*");
    DottedJoin(p + "*." + n + "?.**", c, p + "[^.]*\\." + n + "[^.]\\..*", c);
  }

  /** `package*.name?.**ClassName` with any plain words in place of the three names. */
  lemma DottedShape(p: string, n: string, c: string)
    requires IsPlainWord(p) && IsPlainWord(n) && IsPlainWord(c)
    requires |p| > 0 ==> p[0] != '/'
    ensures FilterStringToRegex(p + "*." + n + "?.**" + c)
         == "^" + p + "[^.]*\\." + n + "[^.]\\..*" + c + "$"
  {
    DottedShapeBranch(p, n, c);
    DottedNameRegex(p + "*." + n + "?.**" + c);
    DottedShapeBody(p, n, c);
    Enclose("^", p, "[^.]*\\.", n, "[^.]\\..*", c, "$");
  }

  lemma Enclose(s0: string, s1: string, s2: string, s3: string, s4: string, s5: string, s6: string)
    ensures s0 + (s1 + s2 + s3 + s4 + s5) + s6 == s0 + s1 + s2 + s3 + s4 + s5 + s6
  {
  }

  /** `package*.name?.**ClassName` becomes `^package[^.]*\.name[^.]\..*ClassName$`. */
  lemma DottedExample(p: string, n: string, c: string)
    requires p == "package" && n == "name" && c == "ClassName"
    ensures p + "*." + n + "?.**" + c == "package*.name?.**ClassName"
    ensures FilterStringToRegex(p + "*." + n + "?.**" + c)
         == "^" + p + "[^.]*\\." + n + "[^.]\\..*" + c + "$"
  {
    DottedSpelling(p, n, c);
    assert IsPlainWord(p) && IsPlainWord(n) && IsPlainWord(c) by {
      PlainLiteral(p);
      PlainLiteral(n);
      PlainLiteral(c);
    }
    DottedShape(p, n, c);
  }

  lemma DottedSpelling(p: string, n: string, c: string)
    requires p == "package" && n == "name" && c == "ClassName"
    ensures p + "*." + n + "?.**" + c == "package*.name?.**ClassName"
  {
    assert p + "*." + n == "package*.name";
  }

  // ------------------------------------------------------ slash-enclosed filter

  /** Any text free of line terminators, put between slashes, comes back out unchanged. */
  lemma SlashShape(x: string)
    requires forall i :: 0 <= i < |x| ==> !IsLineTerminator(x[i])
    ensures FilterStringToRegex("/" + x + "/") == x
    ensures StringFilters.SimpleFilterToPattern("/" + x + "/") == x
  {
    var f := "/" + x + "/";
    assert forall i :: 1 <= i < |f| - 1 ==> f[i] == x[i - 1];
    assert IsSlashEnclosed(f);
  }

  /** `/Will this remain a regular expression?/` yields its interior, `?` included. */
  lemma SlashExample(x: string)
    requires x == "Will this remain a regular expression?"
    ensures FilterStringToRegex("/" + x + "/") == x
    ensures StringFilters.SimpleFilterToPattern("/" + x + "/") == x
  {
    SlashShape(x);
  }

  /** The slash test comes before the dot test: a dotted filter between slashes is kept. */
  lemma SlashBeforeDot(x: string)
    requires x == "a.b"
    ensures Contains("/" + x + "/", '.')
    ensures FilterStringToRegex("/" + x + "/") == "a.b"
  {
    assert ("/" + x + "/")[2] == '.';
    SlashShape(x);
  }

  // ---------------------------------------------------------- search term

  /** `Search? Term* With Multiple J*kers` with any words free of jokers. */
  lemma SearchTermShape(a: string, b: string, c: string, d: string)
    requires IsPlainWord(a) && IsPlainWord(b) && IsPlainWord(c) && IsPlainWord(d)
    requires |a| > 0 ==> a[0] != '/'
    ensures StringFilters.SimpleFilterToPattern(a + "?" + b + "*" + c + "*" + d)
         == a + "." + b + ".*" + c + ".*" + d
  {
    var f := a + "?" + b + "*" + c + "*" + d;
    assert !IsSlashEnclosed(f) by {
      if |a| > 0 { assert f[0] == a[0]; } else { assert f[0] == '?'; }
    }
    StringFilters.SimplePatternIsSimpleBody(f);
    PlainSimpleBody(a);
    PlainSimpleBody(b);
    PlainSimpleBody(c);
    PlainSimpleBody(d);
    assert StringFilters.SimpleBody("?") == "." && StringFilters.SimpleBody("*") == ".*";
    SimpleJoin(a, "?", a, ".");
    SimpleJoin(a + "?", b, a + ".", b);
    SimpleJoin(a + "?" + b, "*", a + "." + b, ".*");
    SimpleJoin(a + "?" + b + "*", c, a + "." + b + ".*", c);
    SimpleJoin(a + "?" + b + "*" + c, "*", a + "." + b + ".*" + c, ".*");
    SimpleJoin(a + "?" + b + "*" + c + "*", d, a + "." + b + ".*" + c + ".*", d);
  }

  /** Two translated pieces make the translation of the whole. */
  lemma SimpleJoin(x: string, y: string, tx: string, ty: string)
    requires StringFilters.SimpleBody(x) == tx && StringFilters.SimpleBody(y) == ty
    ensures StringFilters.SimpleBody(x + y) == tx + ty
  {
    StringFilters.SimpleBodyAppend(x, y);
  }

  lemma PlainSimpleBody(w: string)
    requires IsPlainWord(w)
    ensures StringFilters.SimpleBody(w) == w
  {
    assert !Contains(w, '?') && !Contains(w, '*') by {
      forall i | 0 <= i < |w| ensures w[i] != '?' && w[i] != '*' {
        assert IsPlainChar(w[i]);
      }
    }
    StringFilters.SimpleBodyPlain(w);
  }

  /** `Search? Term* With Multiple J*kers` becomes `Search. Term.* With Multiple J.*kers`. */
  lemma SearchTermExample(a: string, b: string, c: string, d: string)
    requires a == "Search" && b == " Term" && c == " With Multiple J" && d == "kers"
    ensures a + "?" + b + "*" + c + "*" + d == "Search? Term* With Multiple J*kers"
    ensures StringFilters.SimpleFilterToPattern(a + "?" + b + "*" + c + "*" + d)
         == a + "." + b + ".*" + c + ".*" + d
  {
    SearchTermSpelling(a, b, c, d);
    assert IsPlainWord(a) && IsPlainWord(b) && IsPlainWord(c) && IsPlainWord(d) by {
      PlainLiteral(a);
      PlainLiteral(b);
      PlainLiteral(c);
      PlainLiteral(d);
    }
    SearchTermShape(a, b, c, d);
  }

  lemma SearchTermSpelling(a: string, b: string, c: string, d: string)
    requires a == "Search" && b == " Term" && c == " With Multiple J" && d == "kers"
    ensures a + "?" + b + "*" + c + "*" + d == "Search? Term* With Multiple J*kers"
  {
    assert a + "?" + b == "Search? Term";
    assert a + "?" + b + "*" + c == "Search? Term* With Multiple J";
  }

  /** A string made of letters and spaces only is a plain word. */
  lemma PlainLiteral(w: string)
    requires forall i :: 0 <= i < |w| ==> w[i] == ' ' || 'A' <= w[i] <= 'Z' || 'a' <= w[i] <= 'z'
    ensures IsPlainWord(w)
  {
  }
}
