/**
  The four line recognisers of `JavaFilePatterns`, written out as string
  predicates and extractors. Every pattern is anchored with `^` and used with
  `Matcher.find`, so each one decides on a prefix of the line. Lines come from
  `Scanner.nextLine` and therefore never contain a line terminator.
 */
module Patterns {
  import opened Strings

  // ---------------------------------------------------------------- annotations

  /** `^@[^ ]+.*`: an `@` in column 0 followed by at least one non-space character. */
  predicate IsAnnotationLine(line: string) {
    |line| >= 2 && line[0] == '@' && line[1] != ' '
  }

  // -------------------------------------------------------------------- authors

  const AuthorPrefix := " * @author "

  /**
    `^ \* @author (.*)(\/\/.*)?$`: group 1 is greedy, so it takes the whole rest
    of the line, a trailing `//` comment included; the optional group stays empty.
   */
  function AuthorCapture(line: string): (r: Option<string>)
    ensures r.Some? <==> StartsWith(line, AuthorPrefix)
    ensures r.Some? ==> line == AuthorPrefix + r.value
  {
    if StartsWith(line, AuthorPrefix) then Some(line[|AuthorPrefix|..]) else None
  }

  predicate IsAuthorLine(line: string) {
    AuthorCapture(line).Some?
  }

  /** An author line never counts as an annotation line, whatever follows the tag. */
  lemma AuthorLineIsNoAnnotation(line: string)
    requires IsAuthorLine(line)
    ensures !IsAnnotationLine(line)
  {
    assert line[0] == AuthorPrefix[0];
  }

  /** The author pattern is case-sensitive: a capitalised tag is not an author line. */
  lemma AuthorPatternIsCaseSensitive(name: string)
    ensures !IsAuthorLine(" * @Author " + name)
    ensures IsAuthorLine(" * @author " + name)
  {
    var line := " * @Author " + name;
    assert line[4] == 'A';
    assert AuthorPrefix + name == " * @author " + name;
  }

  /** The line the writer emits for one author is recognised again, name intact. */
  lemma AuthorLineRoundTrip(name: string)
    ensures AuthorCapture(AuthorPrefix + name) == Some(name)
  {
    assert (AuthorPrefix + name)[..|AuthorPrefix|] == AuthorPrefix;
  }

  // -------------------------------------------------------------------- package

  const PackageKeyword := "package "

  function IsPackageNameChar(c: char): bool {
    c != ' ' && c != ';'
  }

  /**
    `^package ([^ ;]+);`, case-insensitive: after `package ` comes a non-empty
    run of characters other than space and `;`, immediately followed by `;`.
   */
  function PackageCapture(line: string): (r: Option<string>)
    ensures r.Some? ==> StartsWithIgnoreCase(line, PackageKeyword)
    ensures r.Some? ==> |r.value| > 0 && |PackageKeyword| + |r.value| < |line|
    ensures r.Some? ==> line[|PackageKeyword|..|PackageKeyword| + |r.value|] == r.value
    ensures r.Some? ==> line[|PackageKeyword| + |r.value|] == ';'
    ensures r.Some? ==> forall i :: 0 <= i < |r.value| ==> IsPackageNameChar(r.value[i])
  {
    if StartsWithIgnoreCase(line, PackageKeyword) then
      var rest := line[|PackageKeyword|..];
      var n := SpanWhile(rest, IsPackageNameChar);
      if 0 < n < |rest| && rest[n] == ';' then Some(rest[..n]) else None
    else
      None
  }

  predicate IsPackageLine(line: string) {
    PackageCapture(line).Some?
  }

  /** Every line of the documented shape is recognised, with the whole name captured. */
  lemma PackageLineComplete(line: string, k: nat)
    requires StartsWithIgnoreCase(line, PackageKeyword)
    requires |PackageKeyword| < k < |line| && line[k] == ';'
    requires forall i :: |PackageKeyword| <= i < k ==> IsPackageNameChar(line[i])
    ensures PackageCapture(line) == Some(line[|PackageKeyword|..k])
  {
    var rest := line[|PackageKeyword|..];
    SpanWhileUnique(rest, IsPackageNameChar, k - |PackageKeyword|);
  }

  /** Upper- or lower-casing the keyword does not change what the line declares. */
  lemma PackagePatternIgnoresKeywordCase(a: string, b: string)
    requires |a| == |b| && |a| >= |PackageKeyword|
    requires EqualsIgnoreCase(a[..|PackageKeyword|], b[..|PackageKeyword|])
    requires a[|PackageKeyword|..] == b[|PackageKeyword|..]
    ensures PackageCapture(a) == PackageCapture(b)
  {
  }

  // ----------------------------------------------------------- type declaration

  const PublicKeyword := "public"

  function IsNotSpace(c: char): bool {
    c != ' '
  }

  /** `[A-Za-z]`-insensitive match of `word` at position `i`. */
  predicate WordAt(line: string, i: nat, word: string) {
    i + |word| <= |line| && EqualsIgnoreCase(line[i..i + |word|], word)
  }

  /**
    One iteration of `( (@[^ ]+|abstract|final|strictfp))` starting at `i`, giving
    the position after it. The annotation alternative takes the longest run of
    non-space characters: a shorter one could never be followed by the space
    that every continuation begins with.
   */
  function ModifierAt(line: string, i: nat): (r: Option<nat>)
    requires i <= |line|
    ensures r.Some? ==> i + 2 <= r.value <= |line|
  {
    if i + 1 < |line| && line[i] == ' ' then
      var j := i + 1;
      if line[j] == '@' then
        var n := SpanWhile(line[j + 1..], IsNotSpace);
        if n > 0 then Some(j + 1 + n) else None
      else if WordAt(line, j, "abstract") then Some(j + 8)
      else if WordAt(line, j, "final") then Some(j + 5)
      else if WordAt(line, j, "strictfp") then Some(j + 8)
      else None
    else
      None
  }

  /** Length of the keyword `class|enum|@?interface` starting at `i`, if there is one. */
  function KeywordAt(line: string, i: nat): Option<nat> {
    if WordAt(line, i, "class") then Some(5)
    else if WordAt(line, i, "enum") then Some(4)
    else if WordAt(line, i, "@interface") then Some(10)
    else if WordAt(line, i, "interface") then Some(9)
    else None
  }

  /**
    ` (class|enum|@?interface) (?<n>[^ ]+)` at position `i`: the captured name is
    the longest run of non-space characters after the keyword and its space.
   */
  function KeywordAndName(line: string, i: nat): (r: Option<string>)
    requires i <= |line|
    ensures r.Some? ==> |r.value| > 0 && forall k :: 0 <= k < |r.value| ==> r.value[k] != ' '
  {
    if i < |line| && line[i] == ' ' then
      match KeywordAt(line, i + 1)
      case None => None
      case Some(len) =>
        var j := i + 1 + len;
        if j < |line| && line[j] == ' ' then
          var n := SpanWhile(line[j + 1..], IsNotSpace);
          if n > 0 then Some(line[j + 1..j + 1 + n]) else None
        else None
    else
      None
  }

  /**
    The regular-expression engine's search from position `i`: the greedy loop
    first tries one more modifier and everything after it; only when that fails
    does it leave the loop and try the keyword and name at `i`.
   */
  function DeclarationFrom(line: string, i: nat): Option<string>
    requires i <= |line|
    decreases |line| - i
  {
    match ModifierAt(line, i)
    case Some(j) =>
      var deeper := DeclarationFrom(line, j);
      if deeper.Some? then deeper else KeywordAndName(line, i)
    case None => KeywordAndName(line, i)
  }

  /**
    `^public( (@[^ ]+|abstract|final|strictfp))* (class|enum|@?interface) (?<n>[^ ]+)`,
    case-insensitive: the short name of the declared type.
   */
  function TypeCapture(line: string): Option<string> {
    if StartsWithIgnoreCase(line, PublicKeyword) then DeclarationFrom(line, |PublicKeyword|) else None
  }

  predicate IsTypeLine(line: string) {
    TypeCapture(line).Some?
  }

  /** The positions reachable from `i` by a run of whole modifier tokens. */
  ghost predicate ModifiersSpan(line: string, i: nat, j: nat)
    requires i <= |line|
    decreases |line| - i
  {
    i == j || (ModifierAt(line, i).Some? && ModifiersSpan(line, ModifierAt(line, i).value, j))
  }

  /**
    Soundness of the search: whatever name it returns is the name of a real parse,
    modifiers from `i` to some `j`, then keyword and name at `j`.
   */
  lemma {:induction false} DeclarationFromSound(line: string, i: nat)
    requires i <= |line|
    requires DeclarationFrom(line, i).Some?
    ensures exists j :: i <= j <= |line| && ModifiersSpan(line, i, j)
                        && KeywordAndName(line, j) == DeclarationFrom(line, i)
    decreases |line| - i
  {
    match ModifierAt(line, i)
    case Some(k) =>
      if DeclarationFrom(line, k).Some? {
        DeclarationFromSound(line, k);
        var j :| k <= j <= |line| && ModifiersSpan(line, k, j)
                 && KeywordAndName(line, j) == DeclarationFrom(line, k);
        assert ModifiersSpan(line, i, j);
      } else {
        assert ModifiersSpan(line, i, i);
      }
    case None =>
      assert ModifiersSpan(line, i, i);
  }

  /**
    Completeness of the search: if some parse of modifiers and keyword succeeds,
    backtracking finds one too.
   */
  lemma {:induction false} DeclarationFromComplete(line: string, i: nat, j: nat)
    requires i <= j <= |line|
    requires ModifiersSpan(line, i, j) && KeywordAndName(line, j).Some?
    ensures DeclarationFrom(line, i).Some?
    decreases |line| - i
  {
    if i != j {
      var k := ModifierAt(line, i).value;
      ModifiersSpanBound(line, k, j);
      DeclarationFromComplete(line, k, j);
    }
  }

  lemma {:induction false} ModifiersSpanBound(line: string, i: nat, j: nat)
    requires i <= |line| && ModifiersSpan(line, i, j)
    ensures i <= j <= |line|
    decreases |line| - i
  {
    if i != j {
      ModifiersSpanBound(line, ModifierAt(line, i).value, j);
    }
  }

  /** A declaration line is recognised exactly when it has some parse. */
  lemma TypeLineCharacterization(line: string)
    ensures IsTypeLine(line) <==>
      StartsWithIgnoreCase(line, PublicKeyword)
      && exists j :: |PublicKeyword| <= j <= |line| && ModifiersSpan(line, |PublicKeyword|, j)
                     && KeywordAndName(line, j).Some?
  {
    if IsTypeLine(line) {
      DeclarationFromSound(line, |PublicKeyword|);
    }
    if StartsWithIgnoreCase(line, PublicKeyword)
       && exists j :: |PublicKeyword| <= j <= |line| && ModifiersSpan(line, |PublicKeyword|, j)
                      && KeywordAndName(line, j).Some? {
      var j :| |PublicKeyword| <= j <= |line| && ModifiersSpan(line, |PublicKeyword|, j)
               && KeywordAndName(line, j).Some?;
      DeclarationFromComplete(line, |PublicKeyword|, j);
    }
  }

  /** The four kinds of line are told apart by their first character alone. */
  lemma LineKindsDisjoint(line: string)
    ensures IsAuthorLine(line) ==> !IsAnnotationLine(line) && !IsTypeLine(line)
    ensures IsAnnotationLine(line) ==> !IsTypeLine(line)
  {
    if IsTypeLine(line) {
      assert LowerAscii(line[0]) == LowerAscii('p');
    }
    if IsAuthorLine(line) {
      assert line[0] == ' ';
    }
  }
}
