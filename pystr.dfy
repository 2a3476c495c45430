/**
 * The few operations on Python `str` that the core relies on, written out on `seq<char>`:
 * `isspace`/`strip`, `startswith`/`endswith`, the `in` substring test, `lower`,
 * `split('\n')` and `'\n'.join(...)`.
 */
module PyStr {

  /** `str.isspace()` for one character; CPython's regular-expression `\s` uses the same set. */
  predicate IsSpace(c: char)
  {
    ('\t' <= c <= '\r') || ('\U{1C}' <= c <= '\U{1F}') || c == ' ' || c == '\U{85}' || c == '\U{A0}'
    || c == '\U{1680}' || ('\U{2000}' <= c <= '\U{200A}') || c == '\U{2028}' || c == '\U{2029}'
    || c == '\U{202F}' || c == '\U{205F}' || c == '\U{3000}'
  }

  predicate AllSpace(s: string)
  {
    forall i :: 0 <= i < |s| ==> IsSpace(s[i])
  }

  /** `str.lstrip()`: the suffix left after the leading whitespace. */
  function LStrip(s: string): (r: string)
    ensures |r| <= |s| && r == s[|s| - |r|..]
    ensures AllSpace(s[..|s| - |r|])
    ensures r == [] || !IsSpace(r[0])
    decreases |s|
  {
    if s != [] && IsSpace(s[0]) then
      var r := LStrip(s[1..]);
      assert s[|s| - |r|..] == s[1..][|s| - 1 - |r|..];
      assert s[..|s| - |r|] == [s[0]] + s[1..][..|s| - 1 - |r|];
      r
    else s
  }

  /** `str.rstrip()`: the prefix left after the trailing whitespace. */
  function RStrip(s: string): (r: string)
    ensures |r| <= |s| && r == s[..|r|]
    ensures AllSpace(s[|r|..])
    ensures r == [] || !IsSpace(r[|r| - 1])
    decreases |s|
  {
    if s != [] && IsSpace(s[|s| - 1]) then
      var t := s[..|s| - 1];
      var r := RStrip(t);
      assert s[..|r|] == t[..|r|];
      assert s[|r|..] == t[|r|..] + [s[|s| - 1]];
      r
    else s
  }

  /** `str.strip()`: the leading whitespace is dropped, then the trailing whitespace. */
  function Strip(s: string): string
    decreases |s|
  {
    if s != [] && IsSpace(s[0]) then Strip(s[1..]) else RStrip(s)
  }

  /** `strip` is `rstrip` after `lstrip`. */
  lemma {:induction false} StripDef(s: string)
    ensures Strip(s) == RStrip(LStrip(s))
    decreases |s|
  {
    if s != [] && IsSpace(s[0]) {
      StripDef(s[1..]);
    }
  }

  /**
   * What `strip` returns is the slice `s[a..b]` between the leading and the trailing whitespace;
   * the slice is empty only for all-whitespace text, and otherwise starts and ends with a
   * character that is not whitespace.
   */
  lemma {:induction false} StripSlice(s: string) returns (a: nat, b: nat)
    ensures a <= b <= |s| && Strip(s) == s[a..b]
    ensures AllSpace(s[..a]) && AllSpace(s[b..])
    ensures a < b ==> !IsSpace(s[a]) && !IsSpace(s[b - 1])
    ensures a == b ==> AllSpace(s)
    decreases |s|
  {
    if s != [] && IsSpace(s[0]) {
      var a', b' := StripSlice(s[1..]);
      assert Strip(s) == Strip(s[1..]);
      SliceShift(s, a', b');
      a, b := a' + 1, b' + 1;
    } else {
      var r := RStrip(s);
      a, b := 0, |r|;
      assert s[a..b] == s[..|r|];
      if a < b {
        assert s[b - 1] == r[|r| - 1];
      }
      if a == b {
        assert s[b..] == s;
      }
    }
  }

  /** The slice bounds of `s[1..]` moved one place to the right, past a leading whitespace character. */
  lemma SliceShift(s: string, a: nat, b: nat)
    requires s != [] && IsSpace(s[0]) && a <= b <= |s| - 1
    requires AllSpace(s[1..][..a]) && AllSpace(s[1..][b..])
    requires a < b ==> !IsSpace(s[1..][a]) && !IsSpace(s[1..][b - 1])
    requires a == b ==> AllSpace(s[1..])
    ensures s[1..][a..b] == s[a + 1..b + 1]
    ensures AllSpace(s[..a + 1]) && AllSpace(s[b + 1..])
    ensures a < b ==> !IsSpace(s[a + 1]) && !IsSpace(s[b])
    ensures a == b ==> AllSpace(s)
  {
    var t := s[1..];
    var u := s[..a + 1];
    forall i | 0 < i < |u|
      ensures IsSpace(u[i])
    {
      assert u[i] == t[..a][i - 1];
    }
    assert s[b + 1..] == t[b..];
    if a < b {
      assert s[a + 1] == t[a] && s[b] == t[b - 1];
    }
    if a == b {
      forall i | 0 < i < |s|
        ensures IsSpace(s[i])
      {
        assert s[i] == t[i - 1];
      }
    }
  }

  /** `strip` removes whitespace and only whitespace at both ends. */
  lemma StripTrims(s: string)
    ensures Strip(s) == [] <==> AllSpace(s)
    ensures Strip(s) != [] ==> !IsSpace(Strip(s)[0]) && !IsSpace(Strip(s)[|Strip(s)| - 1])
  {
    var a, b := StripSlice(s);
    if a < b {
      assert Strip(s)[0] == s[a] && Strip(s)[|Strip(s)| - 1] == s[b - 1];
    }
  }

  lemma StripIdempotent(s: string)
    ensures Strip(Strip(s)) == Strip(s)
  {
    StripTrims(s);
  }

  /** Text that neither starts nor ends with whitespace is its own `strip()`. */
  lemma StripUnchanged(s: string)
    requires s == [] || (!IsSpace(s[0]) && !IsSpace(s[|s| - 1]))
    ensures Strip(s) == s
  {
  }

  /** Stripping neither hides nor creates an occurrence of a text whose ends are not whitespace. */
  lemma ContainsStrip(s: string, p: string)
    requires p != [] && !IsSpace(p[0]) && !IsSpace(p[|p| - 1])
    ensures Contains(Strip(s), p) <==> Contains(s, p)
  {
    var a, b := StripSlice(s);
    ContainsTrimmed(s, a, b, p);
  }

  /** Cutting whitespace off both ends of `s` keeps exactly the occurrences of such a text. */
  lemma ContainsTrimmed(s: string, a: nat, b: nat, p: string)
    requires a <= b <= |s| && AllSpace(s[..a]) && AllSpace(s[b..])
    requires p != [] && !IsSpace(p[0]) && !IsSpace(p[|p| - 1])
    ensures Contains(s[a..b], p) <==> Contains(s, p)
  {
    if Contains(s[a..b], p) {
      ContainsWiden(s, a, b, p);
    }
    if Contains(s, p) {
      ContainsNarrow(s, a, b, p);
    }
  }

  lemma ContainsWiden(s: string, a: nat, b: nat, p: string)
    requires a <= b <= |s| && Contains(s[a..b], p)
    ensures Contains(s, p)
  {
    var t := s[a..b];
    var i :| 0 <= i <= |t| - |p| && OccursAt(t, p, i);
    forall k | 0 <= k < |p|
      ensures s[a + i + k] == p[k]
    {
      assert t[i..i + |p|][k] == t[i + k];
    }
    assert s[a + i..a + i + |p|] == p;
    assert OccursAt(s, p, a + i);
  }

  lemma ContainsNarrow(s: string, a: nat, b: nat, p: string)
    requires a <= b <= |s| && AllSpace(s[..a]) && AllSpace(s[b..])
    requires p != [] && !IsSpace(p[0]) && !IsSpace(p[|p| - 1])
    requires Contains(s, p)
    ensures Contains(s[a..b], p)
  {
    var i :| 0 <= i <= |s| - |p| && OccursAt(s, p, i);
    forall j | 0 <= j < a
      ensures IsSpace(s[j])
    {
      assert s[..a][j] == s[j];
    }
    forall j | b <= j < |s|
      ensures IsSpace(s[j])
    {
      assert s[b..][j - b] == s[j];
    }
    assert s[i] == s[i..i + |p|][0] == p[0];
    assert s[i + |p| - 1] == s[i..i + |p|][|p| - 1] == p[|p| - 1];
    assert !IsSpace(s[i]) && !IsSpace(s[i + |p| - 1]);
    assert a <= i && i + |p| <= b;
    var t := s[a..b];
    forall k | 0 <= k < |p|
      ensures t[i - a + k] == p[k]
    {
      assert s[i..i + |p|][k] == s[i + k];
    }
    assert t[i - a..i - a + |p|] == p;
    assert OccursAt(t, p, i - a);
  }

  /** `s.startswith(p)` */
  predicate StartsWith(s: string, p: string)
  {
    |p| <= |s| && s[..|p|] == p
  }

  /** `s.endswith(p)` */
  predicate EndsWith(s: string, p: string)
  {
    |p| <= |s| && s[|s| - |p|..] == p
  }

  predicate OccursAt(s: string, p: string, i: int)
  {
    0 <= i && i + |p| <= |s| && s[i..i + |p|] == p
  }

  /** Python's `p in s` on strings. */
  predicate Contains(s: string, p: string)
  {
    exists i | 0 <= i <= |s| - |p| :: OccursAt(s, p, i)
  }

  lemma StartsWithContains(s: string, p: string)
    requires StartsWith(s, p)
    ensures Contains(s, p)
  {
    assert OccursAt(s, p, 0);
  }

  lemma ContainsExtend(a: string, s: string, b: string, p: string)
    requires Contains(s, p)
    ensures Contains(a + s + b, p)
  {
    var i :| 0 <= i <= |s| - |p| && OccursAt(s, p, i);
    assert (a + s + b)[|a| + i..|a| + i + |p|] == s[i..i + |p|];
    assert OccursAt(a + s + b, p, |a| + i);
  }

  function LowerChar(c: char): char
  {
    if 'A' <= c <= 'Z' then (c as int + 32) as char else c
  }

  /**
   * `str.lower()` restricted to ASCII letters. Every use in the core compares the lowered text with
   * ASCII patterns, and no non-ASCII character lowers to a text that could complete such a pattern.
   */
  function Lower(s: string): (r: string)
    ensures |r| == |s|
    ensures forall i :: 0 <= i < |s| ==> r[i] == LowerChar(s[i])
  {
    seq(|s|, i requires 0 <= i < |s| => LowerChar(s[i]))
  }

  lemma LowerIdempotent(s: string)
    ensures Lower(Lower(s)) == Lower(s)
  {
  }

  /** Lower-casing keeps whitespace and only whitespace. */
  lemma LowerCharSpace(c: char)
    ensures IsSpace(LowerChar(c)) <==> IsSpace(c)
  {
  }

  lemma {:induction false} LowerLStrip(s: string)
    ensures LStrip(Lower(s)) == Lower(LStrip(s))
    decreases |s|
  {
    if s != [] {
      LowerCharSpace(s[0]);
      assert Lower(s)[1..] == Lower(s[1..]);
      LowerLStrip(s[1..]);
    }
  }

  lemma {:induction false} LowerRStrip(s: string)
    ensures RStrip(Lower(s)) == Lower(RStrip(s))
    decreases |s|
  {
    if s != [] {
      var c := s[|s| - 1];
      LowerCharSpace(c);
      assert Lower(s)[|s| - 1] == LowerChar(c);
      if IsSpace(c) {
        assert Lower(s)[..|s| - 1] == Lower(s[..|s| - 1]);
        LowerRStrip(s[..|s| - 1]);
        assert RStrip(Lower(s)) == RStrip(Lower(s)[..|s| - 1]);
      } else {
        assert RStrip(Lower(s)) == Lower(s);
      }
    }
  }

  /** `s.lower().strip() == s.strip().lower()` */
  lemma StripLower(s: string)
    ensures Strip(Lower(s)) == Lower(Strip(s))
  {
    StripDef(s);
    StripDef(Lower(s));
    LowerLStrip(s);
    LowerRStrip(LStrip(s));
  }

  /** `str.split(d)` for a one-character separator: never empty, and no part holds the separator. */
  function Split(s: string, d: char): (parts: seq<string>)
    ensures |parts| >= 1
    ensures forall k :: 0 <= k < |parts| ==> d !in parts[k]
    decreases |s|
  {
    if s == [] then [[]]
    else
      var rest := Split(s[1..], d);
      if s[0] == d then [[]] + rest else [[s[0]] + rest[0]] + rest[1..]
  }

  /** `sep.join(parts)` */
  function Join(parts: seq<string>, sep: string): string
    decreases |parts|
  {
    if |parts| == 0 then []
    else if |parts| == 1 then parts[0]
    else parts[0] + sep + Join(parts[1..], sep)
  }

  /** Splitting at a separator and joining with it gives the text back. */
  lemma {:induction false} JoinSplit(s: string, d: char)
    ensures Join(Split(s, d), [d]) == s
    decreases |s|
  {
    if s != [] {
      JoinSplit(s[1..], d);
      var rest := Split(s[1..], d);
      if s[0] != d {
        if |rest| > 1 {
          assert rest == [rest[0]] + rest[1..];
          assert Join(rest, [d]) == rest[0] + [d] + Join(rest[1..], [d]);
        }
        assert s == [s[0]] + s[1..];
      } else {
        assert s == [d] + s[1..];
      }
    }
  }

  /** The joined text starts with the first part. */
  lemma JoinStartsWithFirst(parts: seq<string>, sep: string)
    requires |parts| >= 1
    ensures StartsWith(Join(parts, sep), parts[0])
  {
  }

  /** Number of whitespace characters at the start of `s`. */
  function SpaceRun(s: string): (n: nat)
    ensures n <= |s|
    ensures AllSpace(s[..n])
    ensures n == |s| || !IsSpace(s[n])
    decreases |s|
  {
    if s != [] && IsSpace(s[0]) then 1 + SpaceRun(s[1..]) else 0
  }

  /** A prefix without the separator stays at the front of the first part. */
  lemma {:induction false} SplitKeepsPrefix(s: string, d: char, p: string)
    requires StartsWith(s, p) && d !in p
    ensures StartsWith(Split(s, d)[0], p)
    decreases |s|
  {
    if p != [] {
      assert s[0] == p[0];
      assert StartsWith(s[1..], p[1..]);
      SplitKeepsPrefix(s[1..], d, p[1..]);
      assert Split(s, d)[0] == [s[0]] + Split(s[1..], d)[0];
    }
  }

  /** Stripping keeps a prefix whose first and last characters are not whitespace. */
  lemma StripKeepsPrefix(s: string, p: string)
    requires p != [] && !IsSpace(p[0]) && !IsSpace(p[|p| - 1])
    requires StartsWith(s, p)
    ensures StartsWith(Strip(s), p)
  {
    var a, b := StripSlice(s);
    assert s[0] == p[0] && s[|p| - 1] == p[|p| - 1];
    assert s[a..b][..|p|] == s[..|p|];
  }

  // ---------------------------------------------------------------------------------------------
  // `str(n)` for a natural number

  predicate IsDigit(c: char)
  {
    '0' <= c <= '9'
  }

  function DigitChar(d: nat): (c: char)
    requires d < 10
    ensures IsDigit(c)
  {
    ('0' as int + d) as char
  }

  /** The decimal digits of `n`, most significant first, with no leading zero. */
  function NatToString(n: nat): (s: string)
    ensures |s| >= 1 && forall i :: 0 <= i < |s| ==> IsDigit(s[i])
    ensures s[0] == '0' ==> n == 0
    decreases n
  {
    if n < 10 then [DigitChar(n)] else NatToString(n / 10) + [DigitChar(n % 10)]
  }

  /** The value of a string of decimal digits. */
  function DecimalValue(s: string): nat
    decreases |s|
  {
    if s == [] then 0
    else DecimalValue(s[..|s| - 1]) * 10 + (if IsDigit(s[|s| - 1]) then s[|s| - 1] as int - '0' as int else 0)
  }

  /** Reading the digits back gives the number: the rendering loses nothing. */
  lemma {:induction false} DecimalRoundTrip(n: nat)
    ensures DecimalValue(NatToString(n)) == n
    decreases n
  {
    if n >= 10 {
      DecimalRoundTrip(n / 10);
      var s := NatToString(n);
      assert s[..|s| - 1] == NatToString(n / 10);
    }
  }
}
