/** The library operations the search filters rely on: String.startsWith,
    String.contains and Stream.anyMatch, each with its declarative meaning. */
module Builtins {

  /** String.startsWith: `prefix` is an initial segment of `s`. */
  predicate StartsWith(s: string, prefix: string) {
    prefix <= s
  }

  /** What String.contains means: `needle` occurs in `s` at some offset. */
  predicate Occurs(needle: string, s: string) {
    exists i | 0 <= i <= |s| :: needle <= s[i..]
  }

  /** Moving past a first offset where `needle` does not start loses no occurrence. */
  lemma OccursPastHead(needle: string, s: string)
    requires s != [] && !(needle <= s)
    ensures Occurs(needle, s) <==> Occurs(needle, s[1..])
  {
    if Occurs(needle, s) {
      var i :| 0 <= i <= |s| && needle <= s[i..];
      assert i != 0 by { assert s[0..] == s; }
      assert s[1..][i - 1..] == s[i..];
    }
    if Occurs(needle, s[1..]) {
      var j :| 0 <= j <= |s[1..]| && needle <= s[1..][j..];
      assert s[1..][j..] == s[j + 1..];
    }
  }

  /** String.contains, as the scan over the offsets of `s` that String.indexOf performs. */
  function Contains(s: string, needle: string): (r: bool)
    ensures r <==> Occurs(needle, s)
    decreases |s|
  {
    if needle <= s then
      assert needle <= s[0..] by { assert s[0..] == s; }
      true
    else if s == [] then
      false
    else
      OccursPastHead(needle, s);
      Contains(s[1..], needle)
  }

  /** Stream.anyMatch: some element of `xs` satisfies `p`; the scan stops at the first one. */
  function AnyMatch<T>(xs: seq<T>, p: T -> bool): (r: bool)
    ensures r <==> exists x :: x in xs && p(x)
  {
    if xs == [] then
      false
    else if p(xs[0]) then
      true
    else
      var rest := AnyMatch(xs[1..], p);
      assert forall x :: x in xs && x != xs[0] ==> x in xs[1..];
      rest
  }
}
