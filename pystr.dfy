/**
  The Python 2 string operations the script relies on, written out so that
  their edge cases (a missing separator, a negative slice index, a `find`
  that returns -1, `strip` taking a set of characters) are part of the model.
*/
module PyStr {
  import opened Wrappers

  /** The exceptions the modelled code can raise. */
  datatype PyError = IndexError | ValueError | UnicodeEncodeError

  // ---------------------------------------------------------------------
  // str.split(c) and c.join(parts) for a one-character separator
  // ---------------------------------------------------------------------

  /** `s.split(c)`: never empty, and no part contains the separator. */
  function Split(s: string, c: char): (parts: seq<string>)
    ensures |parts| >= 1
    ensures forall i :: 0 <= i < |parts| ==> c !in parts[i]
    ensures |parts| == 1 <==> c !in s
  {
    if |s| == 0 then [""]
    else
      var rest := Split(s[1..], c);
      if s[0] == c then [""] + rest
      else [[s[0]] + rest[0]] + rest[1..]
  }

  /** `c.join(parts)`. */
  function Join(parts: seq<string>, c: char): string
  {
    if |parts| == 0 then ""
    else if |parts| == 1 then parts[0]
    else parts[0] + [c] + Join(parts[1..], c)
  }

  lemma JoinThree(a: string, b: string, d: string, c: char)
    ensures Join([a, b, d], c) == a + [c] + (b + [c] + d)
  {
    assert [a, b, d][1..] == [b, d] && [b, d][1..] == [d];
    assert Join([b, d], c) == b + [c] + d;
  }

  /** Gluing text to the front of the first part glues it to the front of the joined string. */
  lemma JoinPrependFirst(x: string, parts: seq<string>, c: char)
    requires |parts| >= 1
    ensures Join([x + parts[0]] + parts[1..], c) == x + Join(parts, c)
  {
    var glued := [x + parts[0]] + parts[1..];
    assert glued[0] == x + parts[0] && glued[1..] == parts[1..];
  }

  /** Joining what was split gives back the original string. */
  lemma {:induction false} JoinSplit(s: string, c: char)
    ensures Join(Split(s, c), c) == s
  {
    if |s| > 0 {
      var rest := Split(s[1..], c);
      JoinSplit(s[1..], c);
      assert s == [s[0]] + s[1..];
      if s[0] == c {
        assert ([""] + rest)[1..] == rest;
      } else {
        JoinPrependFirst([s[0]], rest, c);
      }
    }
  }

  /** Splitting a string whose first part holds no separator. */
  lemma {:induction false} SplitPrefix(a: string, t: string, c: char)
    requires c !in a
    ensures Split(a + t, c) == [a + Split(t, c)[0]] + Split(t, c)[1..]
  {
    if |a| > 0 {
      SplitPrefix(a[1..], t, c);
      assert (a + t)[1..] == a[1..] + t;
      assert [a[0]] + (a[1..] + Split(t, c)[0]) == a + Split(t, c)[0];
    } else {
      assert a + t == t;
      assert a + Split(t, c)[0] == Split(t, c)[0];
      assert Split(t, c) == [Split(t, c)[0]] + Split(t, c)[1..];
    }
  }

  /** Splitting what was joined gives back the parts, when no part holds the separator. */
  lemma {:induction false} SplitJoin(parts: seq<string>, c: char)
    requires |parts| >= 1
    requires forall i :: 0 <= i < |parts| ==> c !in parts[i]
    ensures Split(Join(parts, c), c) == parts
  {
    if |parts| == 1 {
      SplitPrefix(parts[0], "", c);
      assert parts[0] + "" == parts[0];
    } else {
      var t := Join(parts[1..], c);
      SplitJoin(parts[1..], c);
      SplitPrefix(parts[0], [c] + t, c);
      assert parts[0] + [c] + t == parts[0] + ([c] + t);
      assert ([c] + t)[1..] == t;
      assert Split([c] + t, c) == [""] + Split(t, c);
      assert parts[0] + "" == parts[0];
    }
  }

  /** A character absent from the string is absent from every part of its split. */
  lemma {:induction false} SplitAvoids(s: string, c: char, d: char)
    requires d !in s
    ensures forall i :: 0 <= i < |Split(s, c)| ==> d !in Split(s, c)[i]
  {
    if |s| > 0 {
      SplitAvoids(s[1..], c, d);
      assert d != s[0];
    }
  }

  /** A character other than the separator, absent from every part, is absent from the join. */
  lemma {:induction false} JoinAvoids(parts: seq<string>, c: char, d: char)
    requires d != c
    requires forall i :: 0 <= i < |parts| ==> d !in parts[i]
    ensures d !in Join(parts, c)
  {
    if |parts| > 1 {
      JoinAvoids(parts[1..], c, d);
    }
  }

  /** The last part of a split is a suffix of the string, preceded by the separator unless it is all of it. */
  lemma {:induction false} LastPartIsSuffix(s: string, c: char)
    ensures var parts := Split(s, c); var l := parts[|parts| - 1];
      |l| <= |s| && s[|s| - |l|..] == l && (|l| < |s| ==> s[|s| - |l| - 1] == c)
  {
    if |s| > 0 {
      var rest := Split(s[1..], c);
      var l := rest[|rest| - 1];
      LastPartIsSuffix(s[1..], c);
      assert s[1..][|s[1..]| - |l|..] == s[|s| - |l|..];
      var parts := Split(s, c);
      if s[0] == c {
        assert parts == [""] + rest;
        assert parts[|parts| - 1] == l;
      } else if |rest| == 1 {
        assert parts == [[s[0]] + l];
        assert [s[0]] + l == s by { assert s == [s[0]] + s[1..]; }
      } else {
        assert parts == [[s[0]] + rest[0]] + rest[1..];
        assert parts[|parts| - 1] == l;
      }
    }
  }

  // ---------------------------------------------------------------------
  // Searching: `c in s`, `s.find(sub)`, `sub in s`
  // ---------------------------------------------------------------------

  /** Index of the first `c` in `s`, or -1. */
  function IndexOf(s: string, c: char): (r: int)
    ensures r == -1 <==> c !in s
    ensures r >= 0 ==> r < |s| && s[r] == c && c !in s[..r]
  {
    if |s| == 0 then -1
    else if s[0] == c then 0
    else
      var k := IndexOf(s[1..], c);
      assert s[1..][..if k < 0 then 0 else k] == s[1..if k < 0 then 1 else k + 1];
      if k < 0 then -1 else k + 1
  }

  lemma {:induction false} IndexOfAfterPrefix(a: string, t: string, c: char)
    requires c !in a
    ensures IndexOf(a + [c] + t, c) == |a|
  {
    if |a| > 0 {
      IndexOfAfterPrefix(a[1..], t, c);
      assert (a + [c] + t)[1..] == a[1..] + [c] + t;
    }
  }

  lemma AroundSeparator(a: string, t: string, c: char)
    ensures (a + [c] + t)[..|a|] == a && (a + [c] + t)[|a| + 1..] == t
  {
  }

  /** The text before the first `c` and the text after it, when `c` occurs. */
  function CutAt(s: string, c: char): (r: Option<(string, string)>)
    ensures r.None? <==> c !in s
    ensures r.Some? ==> c !in r.value.0 && s == r.value.0 + [c] + r.value.1
  {
    var i := IndexOf(s, c);
    if i < 0 then None else Some((s[..i], s[i + 1..]))
  }

  /** Cutting at the first `c` undoes gluing two pieces with `c`, when the first piece has none. */
  lemma CutAtOf(a: string, t: string, c: char)
    requires c !in a
    ensures CutAt(a + [c] + t, c) == Some((a, t))
  {
    IndexOfAfterPrefix(a, t, c);
    AroundSeparator(a, t, c);
  }

  ghost predicate OccursAt(s: string, sub: string, i: int)
  {
    0 <= i && i + |sub| <= |s| && s[i..i + |sub|] == sub
  }

  /** `s.find(sub)` searching from position `from`. */
  function FindFrom(s: string, sub: string, from: nat): (r: int)
    requires from <= |s|
    ensures r == -1 || from <= r <= |s| - |sub|
    ensures r == -1 ==> forall i :: from <= i <= |s| ==> !OccursAt(s, sub, i)
    ensures r >= 0 ==> OccursAt(s, sub, r) && forall i :: from <= i < r ==> !OccursAt(s, sub, i)
    decreases |s| - from
  {
    if from + |sub| <= |s| && s[from..from + |sub|] == sub then from
    else if from == |s| then -1
    else FindFrom(s, sub, from + 1)
  }

  /** `s.find(sub)`: the first position where `sub` occurs, or -1 when it does not occur. */
  function Find(s: string, sub: string): (r: int)
    ensures r == -1 || 0 <= r <= |s| - |sub|
    ensures r == -1 <==> forall i :: 0 <= i <= |s| ==> !OccursAt(s, sub, i)
    ensures r >= 0 ==> OccursAt(s, sub, r) && forall i :: 0 <= i < r ==> !OccursAt(s, sub, i)
  {
    FindFrom(s, sub, 0)
  }

  /** `sub in s` for strings. */
  predicate Contains(s: string, sub: string)
  {
    Find(s, sub) >= 0
  }

  // ---------------------------------------------------------------------
  // Slicing with Python's clamping and negative indices
  // ---------------------------------------------------------------------

  /** `s[:n]`. */
  function SliceTo(s: string, n: int): (r: string)
    ensures r <= s
    ensures 0 <= n ==> |r| == if n <= |s| then n else |s|
    ensures n < 0 ==> |r| == if |s| + n >= 0 then |s| + n else 0
  {
    if n >= 0 then (if n <= |s| then s[..n] else s)
    else if |s| + n >= 0 then s[..|s| + n]
    else ""
  }

  /** `s[n:]` for a non-negative `n`, the only form the script uses. */
  function SliceFrom(s: string, n: nat): (r: string)
    ensures |r| == if n <= |s| then |s| - n else 0
    ensures r == s[|s| - |r|..]
  {
    if n <= |s| then s[n..] else ""
  }

  // ---------------------------------------------------------------------
  // str.strip(chars): removes any of the characters, from both ends
  // ---------------------------------------------------------------------

  /** `s.lstrip(chars)`. */
  function LStrip(s: string, chars: set<char>): (r: string)
    ensures |r| <= |s| && r == s[|s| - |r|..]
    ensures |r| > 0 ==> r[0] !in chars
    ensures forall i :: 0 <= i < |s| - |r| ==> s[i] in chars
  {
    if |s| > 0 && s[0] in chars then
      var r := LStrip(s[1..], chars);
      assert s[1..][|s| - 1 - |r|..] == s[|s| - |r|..];
      assert forall i :: 1 <= i < |s| - |r| ==> s[i] == s[1..][i - 1];
      r
    else s
  }

  /** `r` is `s` with a run of `chars` cut off at each end, the left one `i` long. */
  ghost predicate StrippedAt(s: string, chars: set<char>, r: string, i: int)
  {
    0 <= i <= |s| - |r| && s[i..i + |r|] == r
    && (forall k :: 0 <= k < i ==> s[k] in chars)
    && (forall k :: i + |r| <= k < |s| ==> s[k] in chars)
  }

  /**
    `s.strip(chars)`, which takes `chars` from the front while it can and then
    from the back: the run of `s` that neither starts nor ends with one of
    `chars`, everything cut off on either side being one of `chars`.
  */
  function Strip(s: string, chars: set<char>): (r: string)
    ensures |r| > 0 ==> r[0] !in chars && r[|r| - 1] !in chars
    ensures exists i :: StrippedAt(s, chars, r, i)
    decreases |s|
  {
    if |s| > 0 && s[0] in chars then
      var r := Strip(s[1..], chars);
      StrippedFront(s, chars, r);
      r
    else if |s| > 0 && s[|s| - 1] in chars then
      var r := Strip(s[..|s| - 1], chars);
      StrippedBack(s, s[..|s| - 1], chars, r);
      r
    else
      assert StrippedAt(s, chars, s, 0);
      s
  }

  /** One more character of `chars` in front. */
  lemma StrippedFront(s: string, chars: set<char>, r: string)
    requires |s| > 0 && s[0] in chars && exists i :: StrippedAt(s[1..], chars, r, i)
    ensures exists i :: StrippedAt(s, chars, r, i)
  {
    var i :| StrippedAt(s[1..], chars, r, i);
    assert s[i + 1..i + 1 + |r|] == s[1..][i..i + |r|];
    forall k | 0 < k < i + 1
      ensures s[k] in chars
    {
      assert s[k] == s[1..][k - 1];
    }
    forall k | i + 1 + |r| <= k < |s|
      ensures s[k] in chars
    {
      assert s[k] == s[1..][k - 1];
    }
    assert StrippedAt(s, chars, r, i + 1);
  }

  /** One more character of `chars` at the back. */
  lemma StrippedBack(s: string, front: string, chars: set<char>, r: string)
    requires |s| > 0 && s[|s| - 1] in chars && front == s[..|s| - 1]
    requires exists i :: StrippedAt(front, chars, r, i)
    ensures exists i :: StrippedAt(s, chars, r, i)
  {
    var i :| StrippedAt(front, chars, r, i);
    assert s[i..i + |r|] == s[..|s| - 1][i..i + |r|];
    forall k | 0 <= k < i
      ensures s[k] in chars
    {
      assert s[k] == s[..|s| - 1][k];
    }
    forall k | i + |r| <= k < |s| - 1
      ensures s[k] in chars
    {
      assert s[k] == s[..|s| - 1][k];
    }
    assert StrippedAt(s, chars, r, i);
  }

  /** Stripping a tail made only of `chars` off text that starts and ends outside them leaves that text. */
  lemma {:induction false} StripTail(p: string, tail: string, chars: set<char>)
    requires |p| > 0 && p[0] !in chars && p[|p| - 1] !in chars
    requires forall i :: 0 <= i < |tail| ==> tail[i] in chars
    ensures Strip(p + tail, chars) == p
    decreases |tail|
  {
    if |tail| > 0 {
      var s := p + tail;
      assert s[0] == p[0] && s[|s| - 1] == tail[|tail| - 1];
      assert s[..|s| - 1] == p + tail[..|tail| - 1];
      StripTail(p, tail[..|tail| - 1], chars);
    } else {
      assert p + tail == p;
    }
  }

  lemma StripNoEdges(s: string, chars: set<char>)
    requires |s| > 0 && s[0] !in chars && s[|s| - 1] !in chars
    ensures Strip(s, chars) == s
  {
  }

  // ---------------------------------------------------------------------
  // Characters: ASCII filtering and decimal digits
  // ---------------------------------------------------------------------

  predicate IsAscii(s: string)
  {
    forall i :: 0 <= i < |s| ==> s[i] as int < 128
  }

  /** `u.encode("ascii", "ignore")`: drops every non-ASCII character. */
  function AsciiOnly(s: string): (r: string)
    ensures IsAscii(r)
    ensures |r| <= |s|
    ensures IsAscii(s) ==> r == s
    ensures forall i :: 0 <= i < |r| ==> r[i] in s
  {
    if |s| == 0 then ""
    else (if s[0] as int < 128 then [s[0]] else []) + AsciiOnly(s[1..])
  }

  /** One character is kept exactly when it is ASCII. */
  lemma AsciiOnlyChar(c: char)
    ensures AsciiOnly([c]) == if c as int < 128 then [c] else []
  {
    assert [c][1..] == [];
  }

  /** Filtering works piece by piece: the kept characters stay in their order. */
  lemma {:induction false} AsciiOnlyAppend(a: string, b: string)
    ensures AsciiOnly(a + b) == AsciiOnly(a) + AsciiOnly(b)
  {
    if |a| > 0 {
      assert (a + b)[0] == a[0];
      assert (a + b)[1..] == a[1..] + b;
      AsciiOnlyAppend(a[1..], b);
    } else {
      assert a + b == b;
    }
  }

  /** `c.lower()` on a byte string: only `A`-`Z` change. */
  function LowerChar(c: char): char
  {
    if 'A' <= c <= 'Z' then (c as int + 32) as char else c
  }

  /** `s.lower()` on a byte string: the same length, each character lowered. */
  function Lower(s: string): (r: string)
    ensures |r| == |s|
    ensures forall i :: 0 <= i < |s| ==> r[i] == LowerChar(s[i])
  {
    if |s| == 0 then [] else [LowerChar(s[0])] + Lower(s[1..])
  }

  predicate IsDigit(c: char)
  {
    '0' <= c <= '9'
  }

  predicate AllDigits(s: string)
  {
    forall i :: 0 <= i < |s| ==> IsDigit(s[i])
  }

  function DigitValue(c: char): int
  {
    c as int - '0' as int
  }

  function DigitChar(d: int): (c: char)
    requires 0 <= d < 10
    ensures IsDigit(c) && DigitValue(c) == d
  {
    ('0' as int + d) as char
  }

  /** The value of a run of decimal digits. */
  function DigitsValue(s: string): (n: int)
    requires AllDigits(s)
    ensures n >= 0
  {
    if |s| == 0 then 0
    else DigitsValue(s[..|s| - 1]) * 10 + DigitValue(s[|s| - 1])
  }

  /** The decimal spelling of a natural number, as `str(n)` gives it. */
  function NatToString(n: nat): (s: string)
    ensures |s| > 0 && AllDigits(s)
    ensures DigitsValue(s) == n
    ensures s[0] == '0' <==> n == 0
    ensures n == 0 ==> s == "0"
  {
    if n < 10 then [DigitChar(n)]
    else
      var s := NatToString(n / 10) + [DigitChar(n % 10)];
      assert s[..|s| - 1] == NatToString(n / 10);
      s
  }

  /** `str(n)` for an integer. */
  function IntToString(n: int): (s: string)
    ensures |s| > 0
  {
    if n < 0 then "-" + NatToString(-n) else NatToString(n)
  }

  /** The characters Python 2's `int()` skips around a number. */
  const Whitespace: set<char> := {' ', '\t', '\n', '\r', 11 as char, 12 as char}

  /** The number part of `int()`, once the whitespace is gone. */
  function ParseSigned(t: string): Option<int>
  {
    if |t| > 0 && (t[0] == '-' || t[0] == '+') then
      if |t| > 1 && AllDigits(t[1..]) then
        Some(if t[0] == '-' then -DigitsValue(t[1..]) else DigitsValue(t[1..]))
      else None
    else if |t| > 0 && AllDigits(t) then Some(DigitsValue(t))
    else None
  }

  /** `int(s)` for a byte string: optional surrounding whitespace, an optional sign, decimal digits. */
  function ParseInt(s: string): Option<int>
  {
    ParseSigned(Strip(s, Whitespace))
  }

  /** `str(n)` has no whitespace at either end, so `int()` strips nothing from it. */
  lemma IntToStringUnstripped(n: int)
    ensures Strip(IntToString(n), Whitespace) == IntToString(n)
  {
    var s := IntToString(n);
    var digits := NatToString(if n < 0 then -n else n);
    assert IsDigit(digits[|digits| - 1]);
    assert s[|s| - 1] == digits[|digits| - 1];
    assert s[0] == '-' || s[0] == digits[0];
    assert s[0] !in Whitespace && s[|s| - 1] !in Whitespace;
    StripNoEdges(s, Whitespace);
  }

  /** The digits and sign of `str(n)` read back as `n`. */
  lemma IntToStringSigned(n: int)
    ensures ParseSigned(IntToString(n)) == Some(n)
  {
    var s := IntToString(n);
    if n < 0 {
      assert s[1..] == NatToString(-n);
    } else {
      assert IsDigit(s[0]);
    }
  }

  /** `int(str(n)) == n`. */
  lemma IntToStringRoundTrip(n: int)
    ensures ParseInt(IntToString(n)) == Some(n)
  {
    IntToStringUnstripped(n);
    IntToStringSigned(n);
  }

  // ---------------------------------------------------------------------
  // Ordering of byte strings, as `sorted` compares keys
  // ---------------------------------------------------------------------

  /** Lexicographic order on character codes, a proper prefix coming first. */
  predicate Less(a: string, b: string)
  {
    if |a| == 0 then |b| > 0
    else if |b| == 0 then false
    else if a[0] == b[0] then Less(a[1..], b[1..])
    else a[0] < b[0]
  }

  lemma {:induction false} LessIrreflexive(a: string)
    ensures !Less(a, a)
  {
    if |a| > 0 {
      LessIrreflexive(a[1..]);
    }
  }

  lemma {:induction false} LessTransitive(a: string, b: string, c: string)
    requires Less(a, b) && Less(b, c)
    ensures Less(a, c)
  {
    if |a| > 0 && |b| > 0 && |c| > 0 && a[0] == b[0] == c[0] {
      LessTransitive(a[1..], b[1..], c[1..]);
    }
  }

  lemma {:induction false} LessTotal(a: string, b: string)
    ensures a == b || Less(a, b) || Less(b, a)
  {
    if |a| > 0 && |b| > 0 && a[0] == b[0] {
      LessTotal(a[1..], b[1..]);
      if a[1..] == b[1..] {
        assert a == [a[0]] + a[1..] && b == [b[0]] + b[1..];
      }
    }
  }

  lemma {:induction false} LessAsymmetric(a: string, b: string)
    requires Less(a, b)
    ensures !Less(b, a)
  {
    if |a| > 0 && |b| > 0 && a[0] == b[0] {
      LessAsymmetric(a[1..], b[1..]);
    }
  }
}
