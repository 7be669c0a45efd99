/** String helpers with the exact semantics of the Python `str` methods the
    integration uses: `strip`, `replace`, `split`, `join`, `startswith`,
    `in` (substring test) and `str(int)`. */
module Text {

  /** Python's `str.isspace` for a single character. */
  predicate IsSpace(c: char) {
    || c == ' ' || c == '\t' || c == '\n' || c == '\r'
    || c == '\U{0B}' || c == '\U{0C}'
    || ('\U{1C}' <= c <= '\U{1F}')
    || c == '\U{85}' || c == '\U{A0}' || c == '\U{1680}'
    || ('\U{2000}' <= c <= '\U{200A}')
    || c == '\U{2028}' || c == '\U{2029}' || c == '\U{202F}'
    || c == '\U{205F}' || c == '\U{3000}'
  }

  /** Every character is printable ASCII (space through tilde). */
  predicate Printable(s: string) {
    forall i :: 0 <= i < |s| ==> ' ' <= s[i] <= '~'
  }

  lemma PrintableConcat(a: string, b: string)
    requires Printable(a) && Printable(b)
    ensures Printable(a + b)
  {
    assert forall i :: 0 <= i < |a + b| ==> (a + b)[i] == if i < |a| then a[i] else b[i - |a|];
  }

  // ---------------------------------------------------------------------------
  // Prefix and substring

  predicate IsPrefix(p: string, s: string) {
    |p| <= |s| && s[..|p|] == p
  }

  /** Python's `p in s` on strings: `p` occurs somewhere in `s` (the empty string occurs everywhere). */
  predicate Contains(s: string, p: string)
    decreases |s|
  {
    IsPrefix(p, s) || (|s| > 0 && Contains(s[1..], p))
  }

  /** A string occurs in any string built around it. */
  lemma {:induction false} ContainsInfix(a: string, p: string, b: string)
    ensures Contains(a + p + b, p)
    decreases |a|
  {
    if |a| == 0 {
      assert a + p + b == p + b;
      assert (p + b)[..|p|] == p;
    } else {
      ContainsInfix(a[1..], p, b);
      assert (a + p + b)[1..] == a[1..] + p + b;
    }
  }

  /** An occurrence splits the string around it. */
  lemma {:induction false} ContainsWitness(s: string, p: string) returns (a: string, b: string)
    requires Contains(s, p)
    ensures s == a + p + b
    decreases |s|
  {
    if IsPrefix(p, s) {
      a, b := "", s[|p|..];
      assert s == s[..|p|] + s[|p|..];
    } else {
      var a', b' := ContainsWitness(s[1..], p);
      a, b := [s[0]] + a', b';
      assert s == [s[0]] + s[1..];
    }
  }

  /** An occurrence inside a piece is an occurrence in anything built around that piece. */
  lemma ContainsExtend(a: string, m: string, b: string, p: string)
    requires Contains(m, p)
    ensures Contains(a + m + b, p)
  {
    var x, y := ContainsWitness(m, p);
    ContainsInfix(a + x, p, y + b);
    assert a + m + b == (a + x) + p + (y + b);
  }

  lemma ContainsBefore(m: string, b: string, p: string)
    requires Contains(m, p)
    ensures Contains(m + b, p)
  {
    ContainsExtend("", m, b, p);
    assert "" + m + b == m + b;
  }

  lemma ContainsAfter(a: string, m: string, p: string)
    requires Contains(m, p)
    ensures Contains(a + m, p)
  {
    ContainsExtend(a, m, "", p);
    assert a + m + "" == a + m;
  }

  /** Substring containment is transitive. */
  lemma ContainsTrans(s: string, m: string, p: string)
    requires Contains(s, m) && Contains(m, p)
    ensures Contains(s, p)
  {
    var a, b := ContainsWitness(s, m);
    ContainsExtend(a, m, b, p);
  }

  /** A character that occurs in no position cannot be the start of an occurrence. */
  lemma {:induction false} ContainsCharInv(s: string, c: char)
    requires Contains(s, [c])
    ensures c in s
    decreases |s|
  {
    if IsPrefix([c], s) {
      assert s[0] == c;
    } else {
      ContainsCharInv(s[1..], c);
    }
  }

  // ---------------------------------------------------------------------------
  // strip()

  /** `lstrip()`: leading whitespace removed. */
  function TrimStart(s: string): (r: string)
    ensures |r| <= |s|
  {
    if |s| > 0 && IsSpace(s[0]) then TrimStart(s[1..]) else s
  }

  /** `rstrip()`: trailing whitespace removed. */
  function TrimEnd(s: string): (r: string)
    ensures |r| <= |s|
  {
    if |s| > 0 && IsSpace(s[|s| - 1]) then TrimEnd(s[..|s| - 1]) else s
  }

  /** `lstrip()` removes exactly the leading run of whitespace. */
  lemma {:induction false} TrimStartSpec(s: string)
    ensures var r := TrimStart(s);
      && r == s[|s| - |r|..]
      && (|r| > 0 ==> !IsSpace(r[0]))
      && (forall i :: 0 <= i < |s| - |r| ==> IsSpace(s[i]))
    decreases |s|
  {
    if |s| > 0 && IsSpace(s[0]) {
      TrimStartSpec(s[1..]);
      var r := TrimStart(s);
      assert forall i :: 1 <= i < |s| - |r| ==> s[i] == s[1..][i - 1];
    }
  }

  /** `rstrip()` removes exactly the trailing run of whitespace. */
  lemma {:induction false} TrimEndSpec(s: string)
    ensures var r := TrimEnd(s);
      && r == s[..|r|]
      && (|r| > 0 ==> !IsSpace(r[|r| - 1]))
      && (forall i :: |r| <= i < |s| ==> IsSpace(s[i]))
    decreases |s|
  {
    if |s| > 0 && IsSpace(s[|s| - 1]) {
      TrimEndSpec(s[..|s| - 1]);
      var r := TrimEnd(s);
      assert forall i :: |r| <= i < |s| - 1 ==> s[i] == s[..|s| - 1][i];
    }
  }

  /** Python's `str.strip()`: surrounding whitespace removed (see `StripSpec`). */
  function Strip(s: string): (r: string)
    ensures |r| <= |s|
  {
    TrimEnd(TrimStart(s))
  }

  /** `strip()` gives the largest infix of `s` that neither starts nor ends with whitespace,
      obtained by removing only whitespace. */
  lemma StripSpec(s: string)
    ensures var r := Strip(s);
      var k := |s| - |TrimStart(s)|;
      && k + |r| <= |s|
      && r == s[k..k + |r|]
      && (forall i :: 0 <= i < k ==> IsSpace(s[i]))
      && (forall i :: k + |r| <= i < |s| ==> IsSpace(s[i]))
      && (|r| > 0 ==> !IsSpace(r[0]) && !IsSpace(r[|r| - 1]))
  {
    var t := TrimStart(s);
    TrimStartSpec(s);
    TrimEndSpec(t);
    InfixOfInfix(s, t, TrimEnd(t));
  }

  /** A prefix `r` of a suffix `t` of `s`, where only whitespace was cut off at either end. */
  lemma InfixOfInfix(s: string, t: string, r: string)
    requires |t| <= |s| && t == s[|s| - |t|..] && (|t| > 0 ==> !IsSpace(t[0]))
    requires forall i :: 0 <= i < |s| - |t| ==> IsSpace(s[i])
    requires |r| <= |t| && r == t[..|r|] && (|r| > 0 ==> !IsSpace(r[|r| - 1]))
    requires forall i :: |r| <= i < |t| ==> IsSpace(t[i])
    ensures var k := |s| - |t|;
      && k + |r| <= |s|
      && r == s[k..k + |r|]
      && (forall i :: k + |r| <= i < |s| ==> IsSpace(s[i]))
      && (|r| > 0 ==> !IsSpace(r[0]))
  {
    var k := |s| - |t|;
    assert forall i :: k + |r| <= i < |s| ==> s[i] == t[i - k];
    if |r| > 0 {
      assert r[0] == t[0];
    }
  }

  /** A string that neither starts nor ends with whitespace is left alone by `strip()`. */
  lemma StripIdentity(s: string)
    requires |s| > 0 ==> !IsSpace(s[0]) && !IsSpace(s[|s| - 1])
    ensures Strip(s) == s
  {
  }

  /** `strip()` is idempotent. */
  lemma StripIdempotent(s: string)
    ensures Strip(Strip(s)) == Strip(s)
  {
    StripSpec(s);
    StripIdentity(Strip(s));
  }

  // ---------------------------------------------------------------------------
  // replace()

  /** Python's `s.replace(pat, rep)`: left-to-right, non-overlapping occurrences. */
  function Replace(s: string, pat: string, rep: string): string
    requires |pat| > 0
    decreases |s|
  {
    if |s| == 0 then ""
    else if IsPrefix(pat, s) then rep + Replace(s[|pat|..], pat, rep)
    else [s[0]] + Replace(s[1..], pat, rep)
  }

  /** A stretch that does not contain the pattern's first character passes through `replace` unchanged. */
  lemma {:induction false} ReplaceSkip(a: string, b: string, pat: string, rep: string)
    requires |pat| > 0 && pat[0] !in a
    ensures Replace(a + b, pat, rep) == a + Replace(b, pat, rep)
    decreases |a|
  {
    if |a| > 0 {
      assert (a + b)[0] == a[0];
      assert !IsPrefix(pat, a + b);
      assert (a + b)[1..] == a[1..] + b;
      ReplaceSkip(a[1..], b, pat, rep);
    } else {
      assert a + b == b;
    }
  }

  /** Replacing every occurrence of a single character by a string that lacks it removes the character. */
  lemma {:induction false} ReplaceRemovesChar(s: string, c: char, rep: string)
    requires c !in rep
    ensures c !in Replace(s, [c], rep)
    decreases |s|
  {
    if |s| > 0 {
      if IsPrefix([c], s) {
        ReplaceRemovesChar(s[1..], c, rep);
      } else {
        ReplaceRemovesChar(s[1..], c, rep);
      }
    }
  }

  /** `replace` never introduces a character that is in neither the input nor the replacement. */
  lemma {:induction false} ReplaceKeepsAbsentChar(s: string, pat: string, rep: string, c: char)
    requires |pat| > 0 && c !in s && c !in rep
    ensures c !in Replace(s, pat, rep)
    decreases |s|
  {
    if |s| > 0 {
      if IsPrefix(pat, s) {
        ReplaceKeepsAbsentChar(s[|pat|..], pat, rep, c);
      } else {
        ReplaceKeepsAbsentChar(s[1..], pat, rep, c);
      }
    }
  }

  /** No element occurs twice. */
  predicate NoDup<T(==)>(s: seq<T>) {
    forall i, j :: 0 <= i < j < |s| ==> s[i] != s[j]
  }

  // ---------------------------------------------------------------------------
  // split() and join()

  /** Python's `s.split(sep)` for a one-character separator: always at least one piece,
      and no piece contains the separator. */
  function Split(s: string, sep: char): (parts: seq<string>)
    ensures |parts| >= 1
    ensures forall i :: 0 <= i < |parts| ==> sep !in parts[i]
    decreases |s|
  {
    if |s| == 0 then [""]
    else
      var rest := Split(s[1..], sep);
      if s[0] == sep then [""] + rest
      else [[s[0]] + rest[0]] + rest[1..]
  }

  /** Python's `sep.join(parts)`. */
  function Join(parts: seq<string>, sep: string): string
    decreases |parts|
  {
    if |parts| == 0 then ""
    else if |parts| == 1 then parts[0]
    else parts[0] + sep + Join(parts[1..], sep)
  }

  /** `join` is the inverse of `split`. */
  lemma {:induction false} JoinSplit(s: string, sep: char)
    ensures Join(Split(s, sep), [sep]) == s
    decreases |s|
  {
    if |s| > 0 {
      var rest := Split(s[1..], sep);
      JoinSplit(s[1..], sep);
      if s[0] == sep {
        assert Split(s, sep) == [""] + rest;
        assert ([""] + rest)[1..] == rest;
        assert s == [sep] + s[1..];
      } else {
        var parts := Split(s, sep);
        assert parts == [[s[0]] + rest[0]] + rest[1..];
        if |rest| == 1 {
          assert s == [s[0]] + s[1..];
        } else {
          assert parts[1..] == rest[1..];
          assert Join(rest, [sep]) == rest[0] + [sep] + Join(rest[1..], [sep]);
          assert s == [s[0]] + s[1..];
        }
      }
    }
  }

  /** Splitting a string whose first separator follows `a` yields `a` and then the split of the rest. */
  lemma {:induction false} SplitAtFirst(a: string, b: string, sep: char)
    requires sep !in a
    ensures Split(a + [sep] + b, sep) == [a] + Split(b, sep)
    decreases |a|
  {
    var s := a + [sep] + b;
    if |a| == 0 {
      assert s == [sep] + b;
      assert s[1..] == b;
    } else {
      assert s[1..] == a[1..] + [sep] + b;
      SplitAtFirst(a[1..], b, sep);
      assert a == [a[0]] + a[1..];
    }
  }

  lemma SplitNoSep(a: string, sep: char)
    requires sep !in a
    ensures Split(a, sep) == [a]
  {
    if |a| > 0 {
      SplitNoSep(a[1..], sep);
      assert a == [a[0]] + a[1..];
    }
  }

  /** `split` is the inverse of `join` on pieces free of the separator. */
  lemma {:induction false} SplitJoin(parts: seq<string>, sep: char)
    requires |parts| >= 1 && forall i :: 0 <= i < |parts| ==> sep !in parts[i]
    ensures Split(Join(parts, [sep]), sep) == parts
    decreases |parts|
  {
    if |parts| == 1 {
      SplitNoSep(parts[0], sep);
    } else {
      var rest := parts[1..];
      SplitJoin(rest, sep);
      SplitAtFirst(parts[0], Join(rest, [sep]), sep);
      assert parts == [parts[0]] + rest;
    }
  }

  // ---------------------------------------------------------------------------
  // Decimal rendering, Python's `str(n)` for integers

  function DigitChar(d: nat): (c: char)
    requires d < 10
    ensures '0' <= c <= '9'
  {
    ['0', '1', '2', '3', '4', '5', '6', '7', '8', '9'][d]
  }

  function NatToString(n: nat): (s: string)
    ensures |s| > 0
    ensures forall i :: 0 <= i < |s| ==> '0' <= s[i] <= '9'
  {
    if n < 10 then [DigitChar(n)] else NatToString(n / 10) + [DigitChar(n % 10)]
  }

  function IntToString(n: int): string {
    if n < 0 then "-" + NatToString(-n) else NatToString(n)
  }

  /** The value of a string of decimal digits (Python's `int(s)` on such strings). */
  function DecimalValue(s: string): nat
    requires forall i :: 0 <= i < |s| ==> '0' <= s[i] <= '9'
  {
    if |s| == 0 then 0
    else DecimalValue(s[..|s| - 1]) * 10 + ((s[|s| - 1] as int) - ('0' as int))
  }

  /** Reading back a rendered number gives the number: `int(str(n)) == n`. */
  lemma {:induction false} DecimalRoundTrip(n: nat)
    ensures DecimalValue(NatToString(n)) == n
  {
    if n >= 10 {
      var s := NatToString(n);
      assert s[..|s| - 1] == NatToString(n / 10);
      DecimalRoundTrip(n / 10);
    }
  }

  /** Distinct numbers render as distinct strings. */
  lemma NatToStringInjective(a: nat, b: nat)
    requires NatToString(a) == NatToString(b)
    ensures a == b
  {
    DecimalRoundTrip(a);
    DecimalRoundTrip(b);
  }
}
