/**
 * The parts of Python's `str` (and JavaScript's string) behaviour that the
 * services rely on: whitespace and `strip()`, ASCII case mapping, `title()`,
 * single-character `replace`, `endswith`, `join`, and code-point ordering.
 */
module PyStr {

  // ---------------------------------------------------------------- whitespace

  /** The characters for which Python's `str.isspace()` holds; `strip()` removes exactly these. */
  predicate IsSpace(c: char)
  {
    || c == ' '
    || ('\t' <= c <= '\r')
    || ('\U{1C}' <= c <= '\U{1F}')
    || c == '\U{85}' || c == '\U{A0}' || c == '\U{1680}'
    || ('\U{2000}' <= c <= '\U{200A}')
    || c == '\U{2028}' || c == '\U{2029}' || c == '\U{202F}' || c == '\U{205F}' || c == '\U{3000}'
  }

  predicate AllSpace(s: string)
  {
    forall i :: 0 <= i < |s| ==> IsSpace(s[i])
  }

  /** No whitespace at either end (the empty string qualifies). */
  predicate Trimmed(s: string)
  {
    s == [] || (!IsSpace(s[0]) && !IsSpace(s[|s| - 1]))
  }

  /** Number of whitespace characters at the front of `s`. */
  function LeadingSpaces(s: string): (n: nat)
    ensures n <= |s|
    ensures forall i :: 0 <= i < n ==> IsSpace(s[i])
    ensures n < |s| ==> !IsSpace(s[n])
  {
    if |s| > 0 && IsSpace(s[0]) then 1 + LeadingSpaces(s[1..]) else 0
  }

  /** Number of whitespace characters at the back of `s`. */
  function TrailingSpaces(s: string): (n: nat)
    ensures n <= |s|
    ensures forall i :: |s| - n <= i < |s| ==> IsSpace(s[i])
    ensures n < |s| ==> !IsSpace(s[|s| - 1 - n])
  {
    if |s| > 0 && IsSpace(s[|s| - 1]) then 1 + TrailingSpaces(s[..|s| - 1]) else 0
  }

  /** Python's `s.strip()`: drop leading and trailing whitespace. */
  function Strip(s: string): (r: string)
    ensures |r| <= |s|
    ensures Trimmed(r)
    ensures r == [] <==> AllSpace(s)
    ensures LeadingSpaces(s) + |r| <= |s| && r == s[LeadingSpaces(s)..LeadingSpaces(s) + |r|]
  {
    var a := LeadingSpaces(s);
    var t := TrailingSpaces(s[a..]);
    TrailingStop(s, a, t);
    StripTrimmed(s, a, t);
    StripEmptyIff(s, a, t);
    s[a..|s| - t]
  }

  /** What is left between the leading run `a` and the trailing run `t` of the rest starts and ends on non-whitespace. */
  lemma StripTrimmed(s: string, a: nat, t: nat)
    requires a + t <= |s|
    requires a + t < |s| ==> !IsSpace(s[a]) && !IsSpace(s[|s| - 1 - t])
    ensures Trimmed(s[a..|s| - t])
  {
    if a + t < |s| {
      var r := s[a..|s| - t];
      assert r[0] == s[a] && r[|r| - 1] == s[|s| - 1 - t];
    }
  }

  /** The trailing run of the rest stops on a non-whitespace character of `s` itself. */
  lemma TrailingStop(s: string, a: nat, t: nat)
    requires a <= |s| && t == TrailingSpaces(s[a..])
    ensures a + t < |s| ==> !IsSpace(s[|s| - 1 - t])
  {
    if a + t < |s| {
      assert s[|s| - 1 - t] == s[a..][|s| - a - 1 - t];
    }
  }

  /** Nothing is left between the two runs exactly when the whole string is whitespace. */
  lemma StripEmptyIff(s: string, a: nat, t: nat)
    requires a == LeadingSpaces(s) && t == TrailingSpaces(s[a..])
    ensures s[a..|s| - t] == [] <==> AllSpace(s)
  {
    // the rest starts on non-whitespace, so its trailing run never reaches back to `a`
    if a < |s| {
      assert s[a..][0] == s[a];
    }
  }

  /**
   * `Strip` is the unique way to cut `s` into whitespace, a trimmed middle
   * and whitespace: whenever `s == p + m + q` with `p` and `q` all whitespace
   * and `m` non-empty and trimmed, `Strip(s) == m`.
   */
  lemma {:induction false} StripUnique(p: string, m: string, q: string)
    requires AllSpace(p) && AllSpace(q) && m != [] && Trimmed(m)
    ensures Strip(p + m + q) == m
  {
    var s := p + m + q;
    LeadingSpacesOf(p, m + q);
    assert s == p + (m + q);
    assert s[|p|..] == m + q;
    TrailingSpacesOf(m, q);
  }

  lemma {:induction false} LeadingSpacesOf(p: string, rest: string)
    requires AllSpace(p) && rest != [] && !IsSpace(rest[0])
    ensures LeadingSpaces(p + rest) == |p|
  {
    if p != [] {
      assert (p + rest)[1..] == p[1..] + rest;
      LeadingSpacesOf(p[1..], rest);
    }
  }

  lemma {:induction false} TrailingSpacesOf(m: string, q: string)
    requires AllSpace(q) && m != [] && !IsSpace(m[|m| - 1])
    ensures TrailingSpaces(m + q) == |q|
  {
    if q != [] {
      assert (m + q)[..|m + q| - 1] == m + q[..|q| - 1];
      TrailingSpacesOf(m, q[..|q| - 1]);
    }
  }

  /** Stripping twice is stripping once. */
  lemma StripIdempotent(s: string)
    ensures Strip(Strip(s)) == Strip(s)
  {
    var r := Strip(s);
    if r != [] {
      assert r == [] + r + [];
      StripUnique([], r, []);
    }
  }

  // ---------------------------------------------------------------- case mapping

  /** ASCII letters; the only characters this model treats as cased. */
  predicate IsCased(c: char)
  {
    ('A' <= c <= 'Z') || ('a' <= c <= 'z')
  }

  predicate IsUpper(c: char)
  {
    'A' <= c <= 'Z'
  }

  function LowerChar(c: char): (r: char)
    ensures IsCased(r) <==> IsCased(c)
    ensures !IsUpper(r)
    ensures !IsCased(c) ==> r == c
  {
    if 'A' <= c <= 'Z' then (c as int + 32) as char else c
  }

  function UpperChar(c: char): (r: char)
    ensures IsCased(r) <==> IsCased(c)
    ensures IsCased(c) ==> IsUpper(r)
    ensures !IsCased(c) ==> r == c
  {
    if 'a' <= c <= 'z' then (c as int - 32) as char else c
  }

  /** `s.lower()` restricted to ASCII letters. */
  function Lower(s: string): (r: string)
    ensures |r| == |s|
    ensures forall i :: 0 <= i < |s| ==> r[i] == LowerChar(s[i])
  {
    if s == [] then [] else [LowerChar(s[0])] + Lower(s[1..])
  }

  /** `s.upper()` restricted to ASCII letters. */
  function Upper(s: string): (r: string)
    ensures |r| == |s|
    ensures forall i :: 0 <= i < |s| ==> r[i] == UpperChar(s[i])
  {
    if s == [] then [] else [UpperChar(s[0])] + Upper(s[1..])
  }

  /** Lower-casing after upper-casing gives the same string as lower-casing alone. */
  lemma LowerOfUpper(s: string)
    ensures Lower(Upper(s)) == Lower(s)
  {
    var l, u := Lower(s), Lower(Upper(s));
    forall i | 0 <= i < |s| ensures u[i] == l[i] {
      assert u[i] == LowerChar(UpperChar(s[i]));
    }
  }

  /**
   * `s.title()`, scanning from a position whose previous character was cased
   * (`prevCased`) or not: a character after an uncased one is upper-cased,
   * one after a cased one is lower-cased; uncased characters are kept.
   */
  function TitleFrom(s: string, prevCased: bool): (r: string)
    ensures |r| == |s|
    ensures forall i :: 0 <= i < |s| ==>
      r[i] == (if (if i == 0 then prevCased else IsCased(s[i - 1])) then LowerChar(s[i]) else UpperChar(s[i]))
  {
    if s == [] then []
    else [if prevCased then LowerChar(s[0]) else UpperChar(s[0])] + TitleFrom(s[1..], IsCased(s[0]))
  }

  /** `s.title()`: each character upper-cased when it is first or follows an uncased one, lower-cased otherwise. */
  function Title(s: string): (r: string)
    ensures |r| == |s|
    ensures forall i :: 0 <= i < |s| ==>
      r[i] == (if i > 0 && IsCased(s[i - 1]) then LowerChar(s[i]) else UpperChar(s[i]))
  {
    TitleFrom(s, false)
  }

  /**
   * The rule `str.title()` follows: a cased character comes out upper-case
   * exactly when the character before it is not cased (or it is the first).
   */
  lemma TitleRule(s: string, i: int)
    requires 0 <= i < |s| && IsCased(s[i])
    ensures IsCased(Title(s)[i])
    ensures IsUpper(Title(s)[i]) <==> (i == 0 || !IsCased(s[i - 1]))
  {
    var prev := if i == 0 then false else IsCased(s[i - 1]);
    assert Title(s)[i] == if prev then LowerChar(s[i]) else UpperChar(s[i]);
  }

  lemma CasedKept(s: string, i: int)
    requires 0 <= i < |s|
    ensures IsCased(Title(s)[i]) <==> IsCased(s[i])
    ensures !IsCased(s[i]) ==> Title(s)[i] == s[i]
  {
    var prev := if i == 0 then false else IsCased(s[i - 1]);
    assert Title(s)[i] == if prev then LowerChar(s[i]) else UpperChar(s[i]);
  }

  /** Title-casing an already title-cased string changes nothing. */
  lemma TitleIdempotent(s: string)
    ensures Title(Title(s)) == Title(s)
  {
    var t := Title(s);
    var tt := Title(t);
    forall i | 0 <= i < |s| ensures tt[i] == t[i] {
      CasedKept(s, i);
      if i > 0 {
        CasedKept(s, i - 1);
      }
    }
  }

  // ---------------------------------------------------------------- replace, endswith, join

  /** `s.replace(a, b)` for single characters `a` and `b`. */
  function ReplaceChar(s: string, a: char, b: char): (r: string)
    ensures |r| == |s|
    ensures forall i :: 0 <= i < |s| ==> r[i] == (if s[i] == a then b else s[i])
  {
    if s == [] then [] else [if s[0] == a then b else s[0]] + ReplaceChar(s[1..], a, b)
  }

  /**
   * `s.replace("_", " ").title()`: how both classifiers turn a class name
   * into a display name. Underscores become spaces; then every letter is
   * upper-case iff it starts a run of letters.
   */
  function DisplayName(className: string): (r: string)
    ensures |r| == |className|
    ensures forall i :: 0 <= i < |r| ==> r[i] != '_'
    ensures forall i :: 0 <= i < |r| && !IsCased(className[i]) ==> r[i] == (if className[i] == '_' then ' ' else className[i])
    ensures forall i :: 0 <= i < |r| && IsCased(className[i]) ==>
      IsCased(r[i]) && (IsUpper(r[i]) <==> (i == 0 || !IsCased(className[i - 1])))
  {
    var spaced := ReplaceChar(className, '_', ' ');
    forall i | 0 <= i < |spaced| && IsCased(spaced[i]) ensures IsCased(Title(spaced)[i]) && (IsUpper(Title(spaced)[i]) <==> (i == 0 || !IsCased(spaced[i - 1]))) {
      TitleRule(spaced, i);
    }
    forall i | 0 <= i < |spaced|
      ensures IsCased(Title(spaced)[i]) <==> IsCased(spaced[i])
      ensures !IsCased(spaced[i]) ==> Title(spaced)[i] == spaced[i]
    {
      CasedKept(spaced, i);
    }
    Title(spaced)
  }

  /** Index of the last occurrence of `c` in `s`, or -1 (`str.rfind`). */
  function RFind(s: string, c: char): (i: int)
    ensures -1 <= i < |s|
    ensures i >= 0 ==> s[i] == c
    ensures forall j :: i < j < |s| ==> s[j] != c
  {
    if s == [] then -1
    else if s[|s| - 1] == c then |s| - 1
    else RFind(s[..|s| - 1], c)
  }

  /** `RFind` finds the one occurrence of `c` that has no other occurrence after it. */
  lemma RFindAt(s: string, c: char, k: int)
    requires 0 <= k < |s| && s[k] == c
    requires forall j :: k < j < |s| ==> s[j] != c
    ensures RFind(s, c) == k
  {
  }

  predicate EndsWith(s: string, suffix: string)
  {
    |suffix| <= |s| && s[|s| - |suffix|..] == suffix
  }

  /** `sep.join(parts)`: separators only between parts, none at the end. */
  function Join(parts: seq<string>, sep: string): (r: string)
    ensures parts == [] ==> r == []
    ensures parts != [] ==> |parts[0]| <= |r| && r[..|parts[0]|] == parts[0]
    ensures parts != [] ==> EndsWith(r, parts[|parts| - 1])
    ensures |parts| > 1 ==> r == parts[0] + sep + Join(parts[1..], sep)
  {
    if parts == [] then []
    else if |parts| == 1 then parts[0]
    else parts[0] + sep + Join(parts[1..], sep)
  }

  // ---------------------------------------------------------------- ordering

  /** Python's `a < b` on strings: lexicographic by code point. */
  predicate StrLt(a: string, b: string)
  {
    if a == [] then b != []
    else if b == [] then false
    else if a[0] != b[0] then a[0] < b[0]
    else StrLt(a[1..], b[1..])
  }

  lemma {:induction false} StrLtIrreflexive(a: string)
    ensures !StrLt(a, a)
  {
    if a != [] {
      StrLtIrreflexive(a[1..]);
    }
  }

  lemma {:induction false} StrLtTransitive(a: string, b: string, c: string)
    requires StrLt(a, b) && StrLt(b, c)
    ensures StrLt(a, c)
  {
    if a != [] && a[0] == b[0] && b[0] == c[0] {
      StrLtTransitive(a[1..], b[1..], c[1..]);
    }
  }

  lemma {:induction false} StrLtTotal(a: string, b: string)
    ensures a == b || StrLt(a, b) || StrLt(b, a)
  {
    if a != [] && b != [] && a[0] == b[0] {
      StrLtTotal(a[1..], b[1..]);
      if a[1..] == b[1..] {
        assert a == [a[0]] + a[1..] && b == [b[0]] + b[1..];
      }
    }
  }

  lemma StrLtAsymmetric(a: string, b: string)
    requires StrLt(a, b)
    ensures !StrLt(b, a)
  {
    if StrLt(b, a) {
      StrLtTransitive(a, b, a);
      StrLtIrreflexive(a);
    }
  }
}
