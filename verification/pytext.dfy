/**
 * The few Python string operations the backend relies on: `str.strip()`,
 * slicing a prefix with `s[:n]`, and `sep.join(parts)`.
 */
module PyText {

  /** The characters Python's `str.isspace()` accepts; `str.strip()` with no
      argument removes exactly these from both ends. */
  predicate IsSpace(c: char) {
    || c == ' '
    || ('\t' <= c <= '\r')
    || ('\U{1c}' <= c <= '\U{1f}')
    || c == '\U{85}'
    || c == '\U{a0}'
    || c == '\U{1680}'
    || ('\U{2000}' <= c <= '\U{200a}')
    || c == '\U{2028}'
    || c == '\U{2029}'
    || c == '\U{202f}'
    || c == '\U{205f}'
    || c == '\U{3000}'
  }

  /** Every character of `s` is whitespace (the empty string included). */
  ghost predicate AllSpace(s: string) {
    forall i :: 0 <= i < |s| ==> IsSpace(s[i])
  }

  /** `s.lstrip()`: drop leading whitespace. */
  function TrimLeft(s: string): string
    decreases |s|
  {
    if |s| > 0 && IsSpace(s[0]) then TrimLeft(s[1..]) else s
  }

  /** `s.rstrip()`: drop trailing whitespace. */
  function TrimRight(s: string): string
    decreases |s|
  {
    if |s| > 0 && IsSpace(s[|s| - 1]) then TrimRight(s[..|s| - 1]) else s
  }

  /** `s.strip()`. */
  function Strip(s: string): string {
    TrimRight(TrimLeft(s))
  }

  /** `lstrip()` keeps the longest suffix that does not start with whitespace:
      everything it drops is whitespace. */
  lemma {:induction false} TrimLeftShape(s: string)
    ensures |TrimLeft(s)| <= |s| && TrimLeft(s) == s[|s| - |TrimLeft(s)|..]
    ensures TrimLeft(s) != [] ==> !IsSpace(TrimLeft(s)[0])
    ensures forall i :: 0 <= i < |s| - |TrimLeft(s)| ==> IsSpace(s[i])
    decreases |s|
  {
    if |s| > 0 && IsSpace(s[0]) {
      var t := s[1..];
      TrimLeftShape(t);
      var r := TrimLeft(t);
      assert t[|t| - |r|..] == s[|s| - |r|..];
      forall i | 0 <= i < |s| - |r|
        ensures IsSpace(s[i])
      {
        if i > 0 {
          assert s[i] == t[i - 1];
        }
      }
    }
  }

  /** `rstrip()` keeps the longest prefix that does not end with whitespace:
      everything it drops is whitespace. */
  lemma {:induction false} TrimRightShape(s: string)
    ensures |TrimRight(s)| <= |s| && TrimRight(s) == s[..|TrimRight(s)|]
    ensures TrimRight(s) != [] ==> !IsSpace(TrimRight(s)[|TrimRight(s)| - 1])
    ensures forall i :: |TrimRight(s)| <= i < |s| ==> IsSpace(s[i])
    decreases |s|
  {
    if |s| > 0 && IsSpace(s[|s| - 1]) {
      var t := s[..|s| - 1];
      TrimRightShape(t);
      var r := TrimRight(t);
      assert t[..|r|] == s[..|r|];
      forall i | |r| <= i < |s|
        ensures IsSpace(s[i])
      {
        if i < |s| - 1 {
          assert s[i] == t[i];
        }
      }
    }
  }

  /** `lstrip()` leaves nothing exactly when the string is all whitespace. */
  lemma TrimLeftEmptyIffAllSpace(s: string)
    ensures TrimLeft(s) == [] <==> AllSpace(s)
  {
    TrimLeftShape(s);
    var t := TrimLeft(s);
    if t != [] {
      assert s[|s| - |t|] == t[0];
    }
  }

  /** `rstrip()` cannot remove a first character that is not whitespace. */
  lemma TrimRightKeepsNonSpaceStart(t: string)
    requires t != [] && !IsSpace(t[0])
    ensures TrimRight(t) != []
  {
    TrimRightShape(t);
  }

  /** Python's truth test `s.strip()` fails exactly on whitespace-only strings. */
  lemma StripEmptyIffAllSpace(s: string)
    ensures Strip(s) == [] <==> AllSpace(s)
  {
    TrimLeftEmptyIffAllSpace(s);
    TrimLeftShape(s);
    var t := TrimLeft(s);
    if t != [] {
      TrimRightKeepsNonSpaceStart(t);
    }
  }

  /** The smaller of two naturals. */
  function Min(a: nat, b: nat): nat {
    if a <= b then a else b
  }

  /** Python's `s[:n]` for a non-negative `n`: the first `n` characters, or all
      of `s` when it is shorter. */
  function Head(s: string, n: nat): (r: string)
    ensures |r| == Min(n, |s|)
    ensures r <= s
    ensures |s| <= n ==> r == s
  {
    if |s| <= n then s else s[..n]
  }

  /** Python's `sep.join(parts)`. */
  function Join(sep: string, parts: seq<string>): string
    decreases |parts|
  {
    if |parts| == 0 then []
    else if |parts| == 1 then parts[0]
    else parts[0] + sep + Join(sep, parts[1..])
  }

  /** Where `parts[i]` starts inside `Join(sep, parts)`: the lengths of the
      parts before it, each followed by one separator. */
  function JoinOffset(sep: string, parts: seq<string>, i: nat): nat
    requires i <= |parts|
  {
    if i == 0 then 0 else |parts[0]| + |sep| + JoinOffset(sep, parts[1..], i - 1)
  }

  /** Slicing past a known prefix slices the rest. */
  lemma SliceAfterPrefix(x: string, y: string, m: nat, n: nat)
    requires m <= n <= |y|
    ensures (x + y)[|x| + m..|x| + n] == y[m..n]
  {
  }

  /** `Join` is its first part, one separator, then the join of the others. */
  lemma JoinUnfold(sep: string, parts: seq<string>)
    requires |parts| > 1
    ensures Join(sep, parts) == parts[0] + (sep + Join(sep, parts[1..]))
  {
  }

  /** Each part appears, unchanged, at its offset in the joined string. */
  lemma {:induction false} JoinPlacesPart(sep: string, parts: seq<string>, i: nat)
    requires i < |parts|
    ensures JoinOffset(sep, parts, i) + |parts[i]| <= |Join(sep, parts)|
    ensures Join(sep, parts)[JoinOffset(sep, parts, i)..JoinOffset(sep, parts, i) + |parts[i]|] == parts[i]
    decreases i
  {
    if |parts| == 1 {
    } else if i == 0 {
      JoinUnfold(sep, parts);
    } else {
      JoinUnfold(sep, parts);
      var rest := sep + Join(sep, parts[1..]);
      JoinPlacesPart(sep, parts[1..], i - 1);
      var o := |sep| + JoinOffset(sep, parts[1..], i - 1);
      SliceAfterPrefix(sep, Join(sep, parts[1..]), JoinOffset(sep, parts[1..], i - 1), JoinOffset(sep, parts[1..], i - 1) + |parts[i]|);
      SliceAfterPrefix(parts[0], rest, o, o + |parts[i]|);
    }
  }

  /** Two consecutive parts are separated by exactly one `sep`. */
  lemma {:induction false} JoinSeparatesParts(sep: string, parts: seq<string>, i: nat)
    requires i + 1 < |parts|
    ensures JoinOffset(sep, parts, i) + |parts[i]| + |sep| == JoinOffset(sep, parts, i + 1)
    ensures JoinOffset(sep, parts, i + 1) <= |Join(sep, parts)|
    ensures Join(sep, parts)[JoinOffset(sep, parts, i) + |parts[i]|..JoinOffset(sep, parts, i + 1)] == sep
    decreases i
  {
    JoinUnfold(sep, parts);
    var tail := Join(sep, parts[1..]);
    if i == 0 {
      assert (parts[0] + (sep + tail))[|parts[0]|..|parts[0]| + |sep|] == sep;
    } else {
      JoinSeparatesParts(sep, parts[1..], i - 1);
      var a := JoinOffset(sep, parts[1..], i - 1) + |parts[i]|;
      var b := JoinOffset(sep, parts[1..], i);
      SliceAfterPrefix(sep, tail, a, b);
      SliceAfterPrefix(parts[0], sep + tail, |sep| + a, |sep| + b);
    }
  }

  /** The joined string is exactly the parts plus one separator between each
      two neighbours: nothing else is added or lost. */
  lemma {:induction false} JoinLength(sep: string, parts: seq<string>)
    requires |parts| > 0
    ensures |Join(sep, parts)| + |sep| == JoinOffset(sep, parts, |parts|)
    decreases |parts|
  {
    if |parts| > 1 {
      JoinLength(sep, parts[1..]);
    }
  }
}
