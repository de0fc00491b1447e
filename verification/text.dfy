/**
  String primitives the overlay's class-string logic is built from: the
  case-sensitive `indexOf` its guards use, and the global, case-insensitive
  replacement of `\s*NAME\s*` by the empty string that its transitions use.
 */
module Text {

  /** JavaScript's `\s` class: the WhiteSpace and LineTerminator code points. */
  predicate IsSpace(c: char)
  {
    || c == ' ' || c == '\t' || c == '\n' || c == '\U{B}' || c == '\U{C}' || c == '\r'
    || c == '\U{A0}' || c == '\U{1680}' || ('\U{2000}' <= c <= '\U{200A}')
    || c == '\U{2028}' || c == '\U{2029}' || c == '\U{202F}' || c == '\U{205F}'
    || c == '\U{3000}' || c == '\U{FEFF}'
  }

  predicate IsNameChar(c: char)
  {
    'a' <= c <= 'z' || 'A' <= c <= 'Z' || '0' <= c <= '9' || c == '-' || c == '_'
  }

  /**
    A state class name that reads the same as a literal and as a regular
    expression: non-empty, ASCII letters, digits, '-' and '_' only.
   */
  predicate PlainName(name: string)
  {
    |name| > 0 && forall i :: 0 <= i < |name| ==> IsNameChar(name[i])
  }

  // ---------------------------------------------------------------------
  // Case-sensitive search (String.prototype.indexOf)
  // ---------------------------------------------------------------------

  predicate OccursAt(s: string, needle: string, i: int)
  {
    0 <= i && i + |needle| <= |s| && s[i..i + |needle|] == needle
  }

  ghost predicate Occurs(s: string, needle: string)
  {
    exists i :: OccursAt(s, needle, i)
  }

  predicate EndsWith(s: string, suffix: string)
  {
    |suffix| <= |s| && s[|s| - |suffix|..] == suffix
  }

  /** The first index at or after `from` where `needle` occurs in `s`, or -1. */
  function IndexFrom(s: string, needle: string, from: nat): (r: int)
    ensures r == -1 || (from <= r && OccursAt(s, needle, r))
    ensures r == -1 ==> forall j :: from <= j ==> !OccursAt(s, needle, j)
    ensures r != -1 ==> forall j :: from <= j < r ==> !OccursAt(s, needle, j)
    decreases |s| - from
  {
    if from + |needle| > |s| then -1
    else if s[from..from + |needle|] == needle then from
    else IndexFrom(s, needle, from + 1)
  }

  /** `s.indexOf(needle)`: the first occurrence of `needle`, or -1 when there is none. */
  function IndexOf(s: string, needle: string): (r: int)
    ensures r == -1 <==> !Occurs(s, needle)
    ensures r != -1 ==> OccursAt(s, needle, r) && forall j :: 0 <= j < r ==> !OccursAt(s, needle, j)
  {
    IndexFrom(s, needle, 0)
  }

  /** A string that ends with " " + name contains name. */
  lemma EndsWithOccurs(s: string, name: string)
    requires EndsWith(s, " " + name)
    ensures Occurs(s, name)
    ensures IndexOf(s, name) != -1
  {
    var i := |s| - |name|;
    assert s[i..i + |name|] == (" " + name)[1..];
    assert OccursAt(s, name, i);
  }

  lemma CharOfOccurrence(s: string, needle: string, i: int, j: int)
    requires OccursAt(s, needle, i)
    requires i <= j < i + |needle|
    ensures needle[j - i] == s[j]
  {
    assert needle[j - i] == s[i..i + |needle|][j - i];
  }

  /**
    An occurrence of a space-free name in `a + " " + b` lies inside `a` or
    inside `b`: the separator cannot be part of it.
   */
  lemma OccurrenceAroundSeparator(a: string, b: string, name: string, i: int)
    requires PlainName(name)
    requires OccursAt(a + " " + b, name, i)
    ensures OccursAt(a, name, i) || OccursAt(b, name, i - |a| - 1)
  {
    var s := a + " " + b;
    if i <= |a| < i + |name| {
      CharOfOccurrence(s, name, i, |a|);
      assert false;
    } else if i + |name| <= |a| {
      assert a[i..i + |name|] == s[i..i + |name|];
    } else {
      assert b[i - |a| - 1..i - |a| - 1 + |name|] == s[i..i + |name|];
    }
  }

  lemma NoOccurrenceAroundSeparator(a: string, b: string, name: string)
    requires PlainName(name)
    requires !Occurs(a, name) && !Occurs(b, name)
    ensures !Occurs(a + " " + b, name)
  {
    forall i | OccursAt(a + " " + b, name, i)
      ensures OccursAt(a, name, i) || OccursAt(b, name, i - |a| - 1)
    {
      OccurrenceAroundSeparator(a, b, name, i);
    }
  }

  // ---------------------------------------------------------------------
  // Ignore-case matching and the global replacement of `\s*NAME\s*`
  // ---------------------------------------------------------------------

  /**
    Canonicalize of a non-unicode ignore-case regular expression (section
    22.2.2.7.3 of ECMA-262) as seen from an ASCII pattern character: a
    character whose upper case is ASCII but that is not ASCII itself keeps
    its own code point, so only ASCII letters fold.
   */
  function AsciiUpper(c: char): char
  {
    if 'a' <= c <= 'z' then (c as int - 32) as char else c
  }

  /** `name` matches `s` at `i`, ignoring ASCII case. */
  predicate MatchesAt(s: string, name: string, i: int)
  {
    0 <= i && i + |name| <= |s| &&
    forall k :: 0 <= k < |name| ==> AsciiUpper(s[i + k]) == AsciiUpper(name[k])
  }

  ghost predicate OccursIgnoringCase(s: string, name: string)
  {
    exists i :: MatchesAt(s, name, i)
  }

  /** A string with no ignore-case match has no exact occurrence either. */
  lemma NoMatchNoOccurrence(s: string, name: string)
    requires !OccursIgnoringCase(s, name)
    ensures !Occurs(s, name)
  {
    forall i | OccursAt(s, name, i) ensures MatchesAt(s, name, i) {
      assert forall k :: 0 <= k < |name| ==> s[i..i + |name|][k] == name[k];
    }
  }

  /** The length of the run of whitespace that starts `s`: it ends at the first non-space. */
  function SpaceRun(s: string): (n: nat)
    ensures n <= |s|
    ensures n == |s| || !IsSpace(s[n])
  {
    if |s| > 0 && IsSpace(s[0]) then 1 + SpaceRun(s[1..]) else 0
  }

  /** Everything before the end of SpaceRun is whitespace, so the run is maximal. */
  lemma {:induction false} SpaceRunSpaces(s: string)
    ensures forall i :: 0 <= i < SpaceRun(s) ==> IsSpace(s[i])
    decreases |s|
  {
    if |s| > 0 && IsSpace(s[0]) {
      SpaceRunSpaces(s[1..]);
      forall i | 1 <= i < SpaceRun(s) ensures IsSpace(s[i]) {
        assert s[i] == s[1..][i - 1];
      }
    }
  }

  /**
    The length of the match of `\s*name\s*` anchored at the start of `s`, or 0
    when the pattern does not match there. Since `name` starts with a
    non-space, the leading `\s*` can only succeed by taking the whole run of
    whitespace; the trailing `\s*` is greedy.
   */
  function PaddedMatch(s: string, name: string): (len: nat)
    requires PlainName(name)
    ensures len <= |s|
    ensures len > 0 <==> MatchesAt(s, name, SpaceRun(s))
    ensures len > 0 ==> len >= |name|
    ensures MatchesAt(s, name, 0) ==> len > 0
  {
    assert !IsSpace(AsciiUpper(name[0]));
    var w := SpaceRun(s);
    if MatchesAt(s, name, w) then
      w + |name| + SpaceRun(s[w + |name|..])
    else
      0
  }

  /**
    `s.replace(new RegExp("\\s*" + name + "\\s*", "gi"), "")`: each match is
    found scanning left to right from the end of the previous one and is
    deleted together with the whitespace on both of its sides.
   */
  function StripPadded(s: string, name: string): (r: string)
    requires PlainName(name)
    ensures |r| <= |s|
    decreases |s|
  {
    if |s| == 0 then []
    else
      var len := PaddedMatch(s, name);
      if len > 0 then StripPadded(s[len..], name) else [s[0]] + StripPadded(s[1..], name)
  }

  lemma StripSkipsMatch(s: string, name: string)
    requires PlainName(name)
    requires |s| > 0 && PaddedMatch(s, name) > 0
    ensures StripPadded(s, name) == StripPadded(s[PaddedMatch(s, name)..], name)
  {
  }

  lemma StripKeepsFirst(s: string, name: string)
    requires PlainName(name)
    requires |s| > 0 && PaddedMatch(s, name) == 0
    ensures StripPadded(s, name) == [s[0]] + StripPadded(s[1..], name)
  {
  }

  lemma NoMatchInTail(c: string, name: string)
    requires |c| > 0 && !OccursIgnoringCase(c, name)
    ensures !OccursIgnoringCase(c[1..], name)
  {
    forall i | MatchesAt(c[1..], name, i) ensures MatchesAt(c, name, i + 1) {
    }
  }

  /** A string without an ignore-case match of the name comes through the removal unchanged. */
  lemma {:induction false} StripWithoutMatch(s: string, name: string)
    requires PlainName(name)
    requires !OccursIgnoringCase(s, name)
    ensures StripPadded(s, name) == s
    decreases |s|
  {
    if |s| > 0 {
      assert !MatchesAt(s, name, SpaceRun(s));
      NoMatchInTail(s, name);
      StripWithoutMatch(s[1..], name);
      StripKeepsFirst(s, name);
    }
  }

  /** A string with an ignore-case match of the name loses at least the name's length. */
  lemma {:induction false} StripWithMatch(s: string, name: string)
    requires PlainName(name)
    requires OccursIgnoringCase(s, name)
    ensures |StripPadded(s, name)| <= |s| - |name|
    decreases |s|
  {
    if PaddedMatch(s, name) > 0 {
      StripSkipsMatch(s, name);
    } else {
      var i :| MatchesAt(s, name, i);
      assert i != 0;
      assert MatchesAt(s[1..], name, i - 1);
      StripWithMatch(s[1..], name);
      StripKeepsFirst(s, name);
    }
  }

  /**
    What the removal does to the length: nothing when the name has no
    ignore-case match, and at least the name's length when it has one.
   */
  lemma StripLength(s: string, name: string)
    requires PlainName(name)
    ensures !OccursIgnoringCase(s, name) ==> StripPadded(s, name) == s
    ensures OccursIgnoringCase(s, name) ==> |StripPadded(s, name)| <= |s| - |name|
  {
    if OccursIgnoringCase(s, name) {
      StripWithMatch(s, name);
    } else {
      StripWithoutMatch(s, name);
    }
  }

  predicate AllSpace(s: string)
  {
    forall i :: 0 <= i < |s| ==> IsSpace(s[i])
  }

  /** `s` without its trailing whitespace (String.prototype.trimEnd). */
  function TrimEnd(s: string): (r: string)
    ensures r <= s
    ensures forall i :: |r| <= i < |s| ==> IsSpace(s[i])
    ensures r == [] || !IsSpace(r[|r| - 1])
  {
    if AllSpace(s) then [] else [s[0]] + TrimEnd(s[1..])
  }

  /** A string that does not end in whitespace is its own TrimEnd. */
  lemma TrimEndNoTrailingSpace(s: string)
    requires s == [] || !IsSpace(s[|s| - 1])
    ensures TrimEnd(s) == s
  {
    var r := TrimEnd(s);
    if |r| < |s| {
      assert IsSpace(s[|s| - 1]);
    }
  }

  /** A name character never matches whitespace, whatever the case folding. */
  lemma SpaceNeverMatches(s: string, name: string, i: int, j: int)
    requires PlainName(name)
    requires MatchesAt(s, name, i)
    requires i <= j < i + |name|
    ensures !IsSpace(s[j])
  {
    assert AsciiUpper(s[j]) == AsciiUpper(name[j - i]);
    assert IsNameChar(name[j - i]);
  }

  lemma MatchInPrefix(c: string, t: string, name: string, i: int)
    requires MatchesAt(c + t, name, i)
    requires i + |name| <= |c|
    ensures MatchesAt(c, name, i)
  {
  }

  /**
    No match of `name` starts before the separator of `c + " " + name + u`
    when `c` itself holds none: such a match would have to cover the separator.
   */
  lemma NoMatchBeforeSeparator(c: string, name: string, u: string, i: int)
    requires PlainName(name)
    requires !OccursIgnoringCase(c, name)
    requires 0 <= i <= |c|
    ensures !MatchesAt(c + " " + name + u, name, i)
  {
    var s := c + " " + name + u;
    if MatchesAt(s, name, i) {
      if i + |name| <= |c| {
        MatchInPrefix(c, " " + name + u, name, i);
      } else {
        SpaceNeverMatches(s, name, i, |c|);
      }
      assert false;
    }
  }

  /** When `c` is all whitespace, the first match spans `c`, the separator, the name and the spaces after it. */
  lemma MatchAtSeparator(c: string, name: string, u: string)
    requires PlainName(name)
    requires AllSpace(c)
    ensures PaddedMatch(c + " " + name + u, name) == |c| + 1 + |name| + SpaceRun(u)
  {
    var s := c + " " + name + u;
    var k := |c| + 1;
    assert s[k..k + |name|] == name;
    assert MatchesAt(s, name, k);
    SpaceNeverMatches(s, name, k, k);
    assert forall i :: 0 <= i < k ==> IsSpace(s[i]);
    SpaceRunAt(s, k);
    assert s[k + |name|..] == u;
  }

  /** A run of `k` spaces followed by a non-space is the SpaceRun. */
  lemma SpaceRunAt(s: string, k: nat)
    requires k < |s|
    requires forall i :: 0 <= i < k ==> IsSpace(s[i])
    requires !IsSpace(s[k])
    ensures SpaceRun(s) == k
  {
    SpaceRunSpaces(s);
  }

  /** When `c` holds a non-space and no match, nothing matches at the start of `c + " " + name + u`. */
  lemma NoMatchAtStart(c: string, name: string, u: string)
    requires PlainName(name)
    requires !AllSpace(c) && !OccursIgnoringCase(c, name)
    ensures PaddedMatch(c + " " + name + u, name) == 0
  {
    var s := c + " " + name + u;
    var j :| 0 <= j < |c| && !IsSpace(c[j]);
    assert s[j] == c[j];
    SpaceRunSpaces(s);
    NoMatchBeforeSeparator(c, name, u, SpaceRun(s));
  }

  /** When `c` is all whitespace, the first match swallows `c`, the name and the whitespace after it. */
  lemma StripAroundSpaces(c: string, name: string, u: string)
    requires PlainName(name)
    requires AllSpace(c)
    ensures StripPadded(c + " " + name + u, name) == StripPadded(u[SpaceRun(u)..], name)
  {
    var s := c + " " + name + u;
    MatchAtSeparator(c, name, u);
    SuffixAfterName(c, name, u, SpaceRun(u));
    StripSkipsMatchOf(s, name, u[SpaceRun(u)..]);
  }

  lemma SuffixAfterName(c: string, name: string, u: string, n: nat)
    requires n <= |u|
    ensures (c + " " + name + u)[|c| + 1 + |name| + n..] == u[n..]
  {
  }

  lemma StripSkipsMatchOf(s: string, name: string, t: string)
    requires PlainName(name)
    requires |s| > 0 && PaddedMatch(s, name) > 0
    requires s[PaddedMatch(s, name)..] == t
    ensures StripPadded(s, name) == StripPadded(t, name)
  {
    StripSkipsMatch(s, name);
  }

  /** When `c` holds a non-space and no match, its first character is kept and the scan moves on. */
  lemma StripAroundStep(c: string, name: string, u: string)
    requires PlainName(name)
    requires !AllSpace(c) && !OccursIgnoringCase(c, name)
    ensures StripPadded(c + " " + name + u, name) == [c[0]] + StripPadded(c[1..] + " " + name + u, name)
  {
    var s := c + " " + name + u;
    NoMatchAtStart(c, name, u);
    assert s[0] == c[0];
    assert s[1..] == c[1..] + " " + name + u;
    StripKeepsFirstOf(s, name, c[0], c[1..] + " " + name + u);
  }

  lemma StripKeepsFirstOf(s: string, name: string, x: char, t: string)
    requires PlainName(name)
    requires |s| > 0 && PaddedMatch(s, name) == 0
    requires s[0] == x && s[1..] == t
    ensures StripPadded(s, name) == [x] + StripPadded(t, name)
  {
    StripKeepsFirst(s, name);
  }

  /** Regrouping as a lemma of its own keeps StripAround's proof small. */
  lemma PrependAssoc(x: char, t: string, rest: string)
    ensures [x] + (t + rest) == ([x] + t) + rest
  {
  }

  /**
    Removing `name` from `c + " " + name + u`, when `c` holds no match of its
    own: everything up to the first match is kept except the whitespace that
    ends `c`, the match takes the whitespace after it along, and the scan goes
    on in what is left of `u`.
   */
  lemma {:induction false} StripAround(c: string, name: string, u: string)
    requires PlainName(name)
    requires !OccursIgnoringCase(c, name)
    ensures StripPadded(c + " " + name + u, name) == TrimEnd(c) + StripPadded(u[SpaceRun(u)..], name)
    decreases |c|
  {
    if SpaceRun(c) == |c| {
      SpaceRunSpaces(c);
      StripAroundSpaces(c, name, u);
    } else {
      assert !IsSpace(c[SpaceRun(c)]);
      NoMatchInTail(c, name);
      StripAround(c[1..], name, u);
      StripAroundStep(c, name, u);
      TrimEndKeepsFirst(c);
      PrependAssoc(c[0], TrimEnd(c[1..]), StripPadded(u[SpaceRun(u)..], name));
    }
  }

  lemma TrimEndKeepsFirst(c: string)
    requires !AllSpace(c)
    ensures TrimEnd(c) == [c[0]] + TrimEnd(c[1..])
  {
  }

  /** The case of StripAround where nothing follows the name. */
  lemma StripAppended(c: string, name: string)
    requires PlainName(name)
    requires !OccursIgnoringCase(c, name)
    ensures StripPadded(c + " " + name, name) == TrimEnd(c)
  {
    StripAround(c, name, []);
    assert c + " " + name + [] == c + " " + name;
  }

  /**
    Between two classes that hold no match of their own, removing a
    whitespace-padded name leaves the two classes glued together.
   */
  lemma StripFusesNeighbours(a: string, name: string, b: string)
    requires PlainName(name)
    requires !OccursIgnoringCase(a, name) && !OccursIgnoringCase(b, name)
    requires a == [] || !IsSpace(a[|a| - 1])
    requires b == [] || !IsSpace(b[0])
    ensures StripPadded(a + " " + name + " " + b, name) == a + b
  {
    AppendAssoc(a + " " + name, " ", b);
    StripAround(a, name, " " + b);
    StripAfterSingleSpace(name, b);
    TrimEndNoTrailingSpace(a);
  }

  /** Regrouping as a lemma of its own keeps StripFusesNeighbours's proof small. */
  lemma AppendAssoc(x: string, y: string, z: string)
    ensures x + y + z == x + (y + z)
  {
  }

  /** After a single space, a class without a match comes through unchanged. */
  lemma StripAfterSingleSpace(name: string, b: string)
    requires PlainName(name)
    requires !OccursIgnoringCase(b, name)
    requires b == [] || !IsSpace(b[0])
    ensures StripPadded((" " + b)[SpaceRun(" " + b)..], name) == b
  {
    assert (" " + b)[1..] == b;
    assert SpaceRun(" " + b) == 1;
    StripWithoutMatch(b, name);
  }
}
