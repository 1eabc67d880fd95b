/** Character classes and string helpers shared by the validators.

    Python's `str.isdigit`, `str.isupper`, `str.islower` and the regular-expression
    class `\d` are Unicode-aware; this model restricts all of them to ASCII. */
module Text {
  import opened Wrappers

  predicate IsAsciiDigit(c: char) { '0' <= c <= '9' }
  predicate IsAsciiUpper(c: char) { 'A' <= c <= 'Z' }
  predicate IsAsciiLower(c: char) { 'a' <= c <= 'z' }
  predicate IsAsciiLetter(c: char) { IsAsciiUpper(c) || IsAsciiLower(c) }

  /** Every character of `s` satisfies `p`. */
  predicate All(s: string, p: char -> bool)
  {
    forall i | 0 <= i < |s| :: p(s[i])
  }

  /** `any(p(ch) for ch in s)`, computed by recursion over the string. */
  function Any(s: string, p: char -> bool): (r: bool)
    ensures r <==> exists i | 0 <= i < |s| :: p(s[i])
  {
    if s == [] then false
    else p(s[0]) || (assert forall i | 1 <= i < |s| :: s[i] == s[1..][i - 1]; Any(s[1..], p))
  }

  /** `s.replace(" ", "")`: drops every space and keeps the other characters in order. */
  function StripSpaces(s: string): (r: string)
    ensures ' ' !in r
    ensures |r| <= |s|
  {
    if s == [] then []
    else (if s[0] == ' ' then [] else [s[0]]) + StripSpaces(s[1..])
  }

  /** Stripping keeps every other character, as often as it occurs. */
  lemma {:induction false} StripSpacesKeepsOthers(s: string, c: char)
    requires c != ' '
    ensures multiset(StripSpaces(s))[c] == multiset(s)[c]
  {
    if s != [] {
      assert s == [s[0]] + s[1..];
      StripSpacesKeepsOthers(s[1..], c);
    }
  }

  /** A string without spaces is left as it is. */
  lemma {:induction false} StripSpacesKeepsSpaceFree(s: string)
    requires ' ' !in s
    ensures StripSpaces(s) == s
  {
    if s != [] {
      assert ' ' !in s[1..] by { assert forall i | 0 <= i < |s[1..]| :: s[1..][i] == s[i + 1]; }
      StripSpacesKeepsSpaceFree(s[1..]);
    }
  }

  /** Stripping twice is the same as stripping once. */
  lemma StripSpacesIdempotent(s: string)
    ensures StripSpaces(StripSpaces(s)) == StripSpaces(s)
  {
    StripSpacesKeepsSpaceFree(StripSpaces(s));
  }

  /** Stripping distributes over concatenation. */
  lemma {:induction false} StripSpacesAppend(a: string, b: string)
    ensures StripSpaces(a + b) == StripSpaces(a) + StripSpaces(b)
  {
    if a != [] {
      assert (a + b)[1..] == a[1..] + b;
      StripSpacesAppend(a[1..], b);
    } else {
      assert a + b == b;
    }
  }

  /** Removing one space from a string does not change what stripping yields. */
  lemma StripSpacesDropsSpace(a: string, b: string)
    ensures StripSpaces(a + " " + b) == StripSpaces(a + b)
  {
    StripSpacesAppend(a + " ", b);
    StripSpacesAppend(a, " ");
    StripSpacesAppend(a, b);
  }

  /** The index of the first occurrence of `c` in `s`; a helper of the email
      recogniser, which splits the address at its first `@`. */
  function FirstIndex(s: string, c: char): (r: Option<nat>)
    ensures r.None? <==> c !in s
    ensures r.Some? ==> r.value < |s| && s[r.value] == c && c !in s[..r.value]
  {
    if s == [] then None
    else if s[0] == c then Some(0)
    else
      match FirstIndex(s[1..], c)
      case None => None
      case Some(k) =>
        assert s[..k + 1] == [s[0]] + s[1..][..k];
        Some(k + 1)
  }

  /** The index of the last occurrence of `c` in `s`; a helper of the email
      recogniser, which finds the last `.` of the domain. */
  function LastIndex(s: string, c: char): (r: Option<nat>)
    ensures r.None? <==> c !in s
    ensures r.Some? ==> r.value < |s| && s[r.value] == c && c !in s[r.value + 1..]
  {
    if s == [] then None
    else if s[|s| - 1] == c then Some(|s| - 1)
    else
      assert s == s[..|s| - 1] + [s[|s| - 1]];
      match LastIndex(s[..|s| - 1], c)
      case None => None
      case Some(k) =>
        assert s[k + 1..] == s[..|s| - 1][k + 1..] + [s[|s| - 1]];
        Some(k)
  }

  /** The first occurrence of `c` in `a + [c] + b`, when `a` holds no `c`, is right after `a`. */
  lemma FirstIndexAfterPrefix(a: string, c: char, b: string)
    requires c !in a
    ensures FirstIndex(a + [c] + b, c) == Some(|a|)
  {
    var s := a + [c] + b;
    assert s[|a|] == c;
    assert s[..|a|] == a;
  }

  /** `s.split(" ")`: the pieces between single spaces, in order. */
  function Split(s: string): (r: seq<string>)
    ensures |r| >= 1
    ensures forall i | 0 <= i < |r| :: ' ' !in r[i]
    decreases |s|
  {
    match FirstIndex(s, ' ')
    case None => [s]
    case Some(k) => [s[..k]] + Split(s[k + 1..])
  }

  /** A space-free word followed by a space splits off as the first piece. */
  lemma SplitCons(a: string, b: string)
    requires ' ' !in a
    ensures Split(a + " " + b) == [a] + Split(b)
  {
    FirstIndexAfterPrefix(a, ' ', b);
    var s := a + " " + b;
    assert s[..|a|] == a;
    assert s[|a| + 1..] == b;
  }
}
