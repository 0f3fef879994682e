/**
  What the model needs from `java.util.regex`. The engine itself is not modelled:
  it is passed in as two total predicates over (regular expression, input).
 */
module Regex {
  import opened Strings

  /**
    `matches(regex, s)` stands for `s.matches(regex)`, a match of the whole input;
    `find(regex, s)` for `Pattern.compile(regex).matcher(s).find()`, a match of
    some substring.
   */
  datatype RegexEngine = RegexEngine(
    matches: (string, string) -> bool,
    find: (string, string) -> bool)

  /**
    `s.matches("\\/.*\\/")`: a slash, any characters other than line terminators
    (which `.` does not match), and a closing slash; needs at least two characters.
   */
  predicate IsSlashEnclosed(s: string) {
    |s| >= 2 && s[0] == '/' && s[|s| - 1] == '/'
    && forall i :: 1 <= i < |s| - 1 ==> !IsLineTerminator(s[i])
  }

  /** `s.substring(1, s.length() - 1)`: the text between the two slashes. */
  function SlashInterior(s: string): (r: string)
    requires IsSlashEnclosed(s)
    ensures s == "/" + r + "/"
  {
    s[1..|s| - 1]
  }
}
