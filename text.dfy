/**
 * The string operations of Python that the core relies on, over
 * `seq<char>`: `str.strip`, `lstrip(c)`, `split(sep)`, `join`,
 * `replace`, `in`, `startswith`/`endswith`, ASCII `lower`, `<=` between
 * strings, the decimal digit runs that `\d+` finds, and the accepted
 * grammars of `int(...)` and `float(...)`.
 */
module Text {
  import opened Wrappers

  /** The characters for which `str.isspace()` holds (also what `\s` matches). */
  predicate IsSpace(c: char)
  {
    c == ' ' || ('\t' <= c <= '\r') || ('\U{1c}' <= c <= '\U{1f}') ||
    c == '\U{85}' || c == '\U{a0}' || c == '\U{1680}' ||
    ('\U{2000}' <= c <= '\U{200a}') || c == '\U{2028}' || c == '\U{2029}' ||
    c == '\U{202f}' || c == '\U{205f}' || c == '\U{3000}'
  }

  function TrimStart(s: string): (r: string)
    ensures |r| <= |s| && r == s[|s| - |r|..]
    ensures forall i :: 0 <= i < |s| - |r| ==> IsSpace(s[i])
    ensures r == [] || !IsSpace(r[0])
  {
    if s != [] && IsSpace(s[0]) then TrimStart(s[1..]) else s
  }

  function TrimEnd(s: string): (r: string)
    ensures |r| <= |s| && r == s[..|r|]
    ensures forall i :: |r| <= i < |s| ==> IsSpace(s[i])
    ensures r == [] || !IsSpace(r[|r| - 1])
  {
    if s != [] && IsSpace(s[|s| - 1]) then TrimEnd(s[..|s| - 1]) else s
  }

  /** `s.strip()` */
  function Strip(s: string): string
  {
    TrimEnd(TrimStart(s))
  }

  /** Stripping adds no character. */
  lemma StripKeepsAbsent(s: string, c: char)
    requires c !in s
    ensures c !in Strip(s)
  {
    var u := TrimStart(s);
    var t := TrimEnd(u);
    forall i | 0 <= i < |t| ensures t[i] != c {
      assert t[i] == u[i];
      assert u[i] == s[|s| - |u| + i];
    }
  }

  /** A string that neither starts nor ends with whitespace is its own `strip()`. */
  lemma StripUnchanged(s: string)
    requires s == [] || (!IsSpace(s[0]) && !IsSpace(s[|s| - 1]))
    ensures Strip(s) == s
  {
  }

  /** `s.lstrip(c)` for one character. */
  function LStripChar(s: string, c: char): (r: string)
    ensures |r| <= |s| && r == s[|s| - |r|..]
    ensures r == [] || r[0] != c
  {
    if s != [] && s[0] == c then LStripChar(s[1..], c) else s
  }

  predicate StartsWith(s: string, prefix: string)
  {
    |prefix| <= |s| && s[..|prefix|] == prefix
  }

  predicate EndsWith(s: string, suffix: string)
  {
    |suffix| <= |s| && s[|s| - |suffix|..] == suffix
  }

  /** `sub in s` */
  predicate Contains(s: string, sub: string)
    decreases |s|
  {
    StartsWith(s, sub) || (s != [] && Contains(s[1..], sub))
  }

  /** `Contains` holds exactly when `sub` occurs at some position of `s`. */
  lemma {:induction false} ContainsIff(s: string, sub: string)
    ensures Contains(s, sub) <==> exists i :: 0 <= i <= |s| && StartsWith(s[i..], sub)
    decreases |s|
  {
    assert s[0..] == s;
    if s != [] {
      ContainsIff(s[1..], sub);
      if Contains(s[1..], sub) {
        var i :| 0 <= i <= |s[1..]| && StartsWith(s[1..][i..], sub);
        assert s[1..][i..] == s[i + 1..];
      }
      if exists i :: 0 <= i <= |s| && StartsWith(s[i..], sub) {
        var i :| 0 <= i <= |s| && StartsWith(s[i..], sub);
        if i > 0 {
          assert s[1..][i - 1..] == s[i..];
        }
      }
    }
  }

  /** `s.replace(pattern, replacement)`: non-overlapping occurrences, left to right. */
  function Replace(s: string, pattern: string, replacement: string): (r: string)
    requires pattern != []
    ensures !Contains(s, pattern) ==> r == s
    decreases |s|
  {
    if |s| < |pattern| then s
    else if s[..|pattern|] == pattern then replacement + Replace(s[|pattern|..], pattern, replacement)
    else [s[0]] + Replace(s[1..], pattern, replacement)
  }

  /** Removing every `c` leaves a string without it. */
  lemma {:induction false} ReplaceRemoves(s: string, c: char)
    ensures c !in Replace(s, [c], "")
    decreases |s|
  {
    if |s| >= 1 {
      ReplaceRemoves(s[1..], c);
    }
  }

  /** Replacing a single character works piece by piece. */
  lemma {:induction false} ReplaceCharAppend(a: string, b: string, c: char, replacement: string)
    ensures Replace(a + b, [c], replacement) == Replace(a, [c], replacement) + Replace(b, [c], replacement)
    decreases |a|
  {
    if a == [] {
      assert a + b == b;
    } else {
      assert (a + b)[1..] == a[1..] + b;
      assert (a + b)[..1] == a[..1];
      ReplaceCharAppend(a[1..], b, c, replacement);
    }
  }

  /** A string without `c` is left alone by removing `c`. */
  lemma {:induction false} ReplaceCharAbsent(s: string, c: char, replacement: string)
    requires c !in s
    ensures Replace(s, [c], replacement) == s
    decreases |s|
  {
    if s != [] {
      assert s[1..] + [] == s[1..];
      ReplaceCharAbsent(s[1..], c, replacement);
      assert [s[0]] + s[1..] == s;
    }
  }

  /** Removing a character gives the same result whether or not one more sits between `a` and `b`. */
  lemma ReplaceSkipsChar(a: string, b: string, c: char)
    ensures Replace(a + [c] + b, [c], "") == Replace(a + b, [c], "")
  {
    ReplaceCharAppend(a + [c], b, c, "");
    ReplaceCharAppend(a, [c], c, "");
    ReplaceCharAppend(a, b, c, "");
    assert Replace([c], [c], "") == "" + Replace([], [c], "");
    assert Replace(a, [c], "") + "" == Replace(a, [c], "");
  }

  /** Only whitespace strips to nothing. */
  lemma {:induction false} BlankTrims(s: string)
    requires forall i :: 0 <= i < |s| ==> IsSpace(s[i])
    ensures TrimStart(s) == [] && Strip(s) == []
  {
    if s != [] {
      assert IsSpace(s[0]);
      BlankTrims(s[1..]);
    }
  }

  /** `sep.join(parts)` */
  function Join(parts: seq<string>, sep: string): string
  {
    if |parts| == 0 then ""
    else if |parts| == 1 then parts[0]
    else parts[0] + sep + Join(parts[1..], sep)
  }

  /** `s.split(sep)` for a one-character separator. */
  function Split(s: string, sep: char): (r: seq<string>)
    ensures |r| >= 1
    ensures forall k :: 0 <= k < |r| ==> sep !in r[k]
  {
    if s == [] then [""]
    else
      var rest := Split(s[1..], sep);
      if s[0] == sep then [""] + rest else [[s[0]] + rest[0]] + rest[1..]
  }

  /** Splitting and joining with the same separator are inverse. */
  lemma {:induction false} JoinSplit(s: string, sep: char)
    ensures Join(Split(s, sep), [sep]) == s
  {
    if s != [] {
      JoinSplit(s[1..], sep);
      var rest := Split(s[1..], sep);
      if s[0] != sep {
        if |rest| > 1 {
          assert ([[s[0]] + rest[0]] + rest[1..])[1..] == rest[1..];
          assert Join(rest, [sep]) == rest[0] + [sep] + Join(rest[1..], [sep]);
        }
      } else {
        assert ([""] + rest)[1..] == rest;
      }
    }
  }

  lemma {:induction false} SplitNoSep(a: string, sep: char)
    requires sep !in a
    ensures Split(a, sep) == [a]
  {
    if a != [] {
      assert a[0] != sep;
      SplitNoSep(a[1..], sep);
      assert [a[0]] + a[1..] == a;
    }
  }

  lemma {:induction false} SplitConcat(a: string, sep: char, b: string)
    requires sep !in a
    ensures Split(a + [sep] + b, sep) == [a] + Split(b, sep)
  {
    if a == [] {
      assert a + [sep] + b == [sep] + b;
      assert ([sep] + b)[1..] == b;
    } else {
      assert (a + [sep] + b)[1..] == a[1..] + [sep] + b;
      SplitConcat(a[1..], sep, b);
      assert [a[0]] + a[1..] == a;
    }
  }

  /** Joining with a one-character separator and splitting again gives the parts back. */
  lemma {:induction false} SplitJoin(parts: seq<string>, sep: char)
    requires |parts| >= 1
    requires forall k :: 0 <= k < |parts| ==> sep !in parts[k]
    ensures Split(Join(parts, [sep]), sep) == parts
  {
    if |parts| == 1 {
      SplitNoSep(parts[0], sep);
    } else {
      SplitJoin(parts[1..], sep);
      SplitConcat(parts[0], sep, Join(parts[1..], [sep]));
      assert [parts[0]] + parts[1..] == parts;
    }
  }

  /** ASCII case folding character by character (the model's `str.lower`). */
  function Lower(s: string): (r: string)
    ensures |r| == |s|
  {
    if s == [] then ""
    else
      var c := s[0];
      [if 'A' <= c <= 'Z' then (c as int + 32) as char else c] + Lower(s[1..])
  }

  /** Python's `a <= b` on strings: code-point lexicographic order. */
  predicate LexLe(a: string, b: string)
  {
    if a == [] then true
    else if b == [] then false
    else if a[0] != b[0] then a[0] < b[0]
    else LexLe(a[1..], b[1..])
  }

  lemma {:induction false} LexLeReflexive(a: string)
    ensures LexLe(a, a)
  {
    if a != [] {
      LexLeReflexive(a[1..]);
    }
  }

  lemma {:induction false} LexLeTotal(a: string, b: string)
    ensures LexLe(a, b) || LexLe(b, a)
  {
    if a != [] && b != [] && a[0] == b[0] {
      LexLeTotal(a[1..], b[1..]);
    }
  }

  lemma {:induction false} LexLeAntisymmetric(a: string, b: string)
    requires LexLe(a, b) && LexLe(b, a)
    ensures a == b
  {
    if a != [] && b != [] {
      LexLeAntisymmetric(a[1..], b[1..]);
      assert a == [a[0]] + a[1..] && b == [b[0]] + b[1..];
    }
  }

  lemma {:induction false} LexLeTransitive(a: string, b: string, c: string)
    requires LexLe(a, b) && LexLe(b, c)
    ensures LexLe(a, c)
  {
    if a != [] && b != [] && c != [] && a[0] == b[0] && b[0] == c[0] {
      LexLeTransitive(a[1..], b[1..], c[1..]);
    }
  }

  predicate IsDigit(c: char)
  {
    '0' <= c <= '9'
  }

  predicate AllDigits(s: string)
  {
    forall i :: 0 <= i < |s| ==> IsDigit(s[i])
  }

  function DigitValue(c: char): nat
    requires IsDigit(c)
  {
    c as int - '0' as int
  }

  /** The value of a string of decimal digits (0 for the empty string). */
  function DigitsValue(s: string): nat
    requires AllDigits(s)
  {
    if s == [] then 0 else 10 * DigitsValue(s[..|s| - 1]) + DigitValue(s[|s| - 1])
  }

  function DigitChar(d: nat): (c: char)
    requires d < 10
    ensures IsDigit(c) && DigitValue(c) == d
  {
    ('0' as int + d) as char
  }

  /** `str(n)` for a natural number. */
  function NatToString(n: nat): (r: string)
    ensures r != [] && AllDigits(r)
    ensures DigitsValue(r) == n
    ensures r[0] != '0' || n == 0
  {
    if n < 10 then [DigitChar(n)]
    else
      var r := NatToString(n / 10) + [DigitChar(n % 10)];
      assert r[..|r| - 1] == NatToString(n / 10);
      r
  }

  /** `str(i)` for an integer. */
  function IntToString(i: int): (r: string)
    ensures r != [] && !IsSpace(r[0]) && IsDigit(r[|r| - 1])
    ensures forall k :: 0 <= k < |r| ==> r[k] != '.' && r[k] != 'v'
  {
    if i < 0 then "-" + NatToString(-i) else NatToString(i)
  }

  /** The longest prefix of decimal digits. */
  function DigitPrefix(s: string): (r: string)
    ensures |r| <= |s| && r == s[..|r|] && AllDigits(r)
    ensures |r| == |s| || !IsDigit(s[|r|])
  {
    if s != [] && IsDigit(s[0]) then [s[0]] + DigitPrefix(s[1..]) else ""
  }

  /** The leftmost maximal run of decimal digits, as `re.search(r"\d+", s)` finds it. */
  function FirstDigitRun(s: string): (r: Option<string>)
    ensures r.None? <==> forall i :: 0 <= i < |s| ==> !IsDigit(s[i])
    ensures r.Some? ==> r.value != [] && AllDigits(r.value)
  {
    if s == [] then None
    else if IsDigit(s[0]) then Some(DigitPrefix(s))
    else FirstDigitRun(s[1..])
  }

  /**
   * The value captured by `re.search(r"(\d+)\s*" + marker, s)`, for a
   * marker that starts with a character that is neither a digit nor
   * whitespace: the leftmost maximal digit run followed by optional
   * whitespace and then the marker. A leftmost match cannot start inside a
   * digit run, since the run's own start would match too.
   */
  function NumberBefore(s: string, marker: string): (r: Option<nat>)
    decreases |s|
  {
    if s == [] then None
    else if IsDigit(s[0]) then
      var run := DigitPrefix(s);
      var rest := s[|run|..];
      if StartsWith(TrimStart(rest), marker) then Some(DigitsValue(run))
      else NumberBefore(rest, marker)
    else NumberBefore(s[1..], marker)
  }

  predicate NoDigits(s: string)
  {
    forall i :: 0 <= i < |s| ==> !IsDigit(s[i])
  }

  predicate AllSpaces(s: string)
  {
    forall i :: 0 <= i < |s| ==> IsSpace(s[i])
  }

  /** A marker `NumberBefore` can look for: it starts with neither a digit nor whitespace. */
  predicate IsMarker(marker: string)
  {
    marker != [] && !IsDigit(marker[0]) && !IsSpace(marker[0])
  }

  lemma {:induction false} DigitPrefixOfRun(run: string, rest: string)
    requires AllDigits(run)
    requires rest == [] || !IsDigit(rest[0])
    ensures DigitPrefix(run + rest) == run
  {
    if run != [] {
      assert (run + rest)[1..] == run[1..] + rest;
      DigitPrefixOfRun(run[1..], rest);
      assert [run[0]] + run[1..] == run;
    } else {
      assert run + rest == rest;
    }
  }

  lemma {:induction false} TrimStartOfGap(gap: string, x: string)
    requires AllSpaces(gap)
    requires x == [] || !IsSpace(x[0])
    ensures TrimStart(gap + x) == x
  {
    if gap != [] {
      assert (gap + x)[1..] == gap[1..] + x;
      TrimStartOfGap(gap[1..], x);
    } else {
      assert gap + x == x;
    }
  }

  /** Text without digits before the match does not change what `\d+` finds. */
  lemma {:induction false} NumberBeforeSkipsText(pre: string, x: string, marker: string)
    requires NoDigits(pre)
    ensures NumberBefore(pre + x, marker) == NumberBefore(x, marker)
  {
    if pre != [] {
      assert (pre + x)[1..] == pre[1..] + x;
      NumberBeforeSkipsText(pre[1..], x, marker);
    } else {
      assert pre + x == x;
    }
  }

  /** Without digits there is no match. */
  lemma NumberBeforeNoDigits(s: string, marker: string)
    requires NoDigits(s)
    ensures NumberBefore(s, marker).None?
  {
    NumberBeforeSkipsText(s, "", marker);
    assert s + "" == s;
  }

  /** A digit run followed by optional whitespace and the marker is captured. */
  lemma NumberBeforeReads(run: string, gap: string, marker: string, post: string)
    requires run != [] && AllDigits(run) && AllSpaces(gap) && IsMarker(marker)
    ensures NumberBefore(run + gap + marker + post, marker) == Some(DigitsValue(run))
  {
    var rest := gap + marker + post;
    assert run + gap + marker + post == run + rest;
    assert rest[0] == (if gap != [] then gap[0] else marker[0]);
    DigitPrefixOfRun(run, rest);
    assert (run + rest)[|run|..] == rest;
    assert gap + marker + post == gap + (marker + post);
    TrimStartOfGap(gap, marker + post);
    assert (marker + post)[..|marker|] == marker;
  }

  /** A digit run that is not followed by the marker is skipped as a whole. */
  lemma NumberBeforeSkipsRun(run: string, rest: string, marker: string)
    requires run != [] && AllDigits(run)
    requires rest == [] || !IsDigit(rest[0])
    requires !StartsWith(TrimStart(rest), marker)
    ensures NumberBefore(run + rest, marker) == NumberBefore(rest, marker)
  {
    var s := run + rest;
    assert s[0] == run[0];
    DigitPrefixOfRun(run, rest);
    assert s[|run|..] == rest;
    assert NumberBefore(s, marker) == NumberBefore(s[|DigitPrefix(s)|..], marker);
  }

  /** A digit run followed by whitespace and text that does not open the marker is skipped. */
  lemma NumberBeforeSkipsRunBefore(run: string, gap: string, x: string, marker: string)
    requires run != [] && AllDigits(run) && gap != [] && AllSpaces(gap)
    requires x != [] && !IsSpace(x[0]) && marker != [] && x[0] != marker[0]
    ensures NumberBefore(run + (gap + x), marker) == NumberBefore(gap + x, marker)
  {
    var rest := gap + x;
    assert rest[0] == gap[0];
    TrimStartOfGap(gap, x);
    assert TrimStart(rest) == x;
    assert !StartsWith(x, marker) by {
      assert x[0] != marker[0];
    }
    NumberBeforeSkipsRun(run, rest, marker);
  }

  /** `int(s)`: surrounding whitespace, an optional sign and ASCII digits. */
  function ParseInt(s: string): (r: Option<int>)
  {
    var t := Strip(s);
    if t == [] then None
    else if t[0] == '-' || t[0] == '+' then
      var body := t[1..];
      if body != [] && AllDigits(body) then
        Some(if t[0] == '-' then -(DigitsValue(body) as int) else DigitsValue(body))
      else None
    else if AllDigits(t) then Some(DigitsValue(t))
    else None
  }

  /** `int(str(i)) == i` */
  lemma IntToStringRoundTrip(i: int)
    ensures ParseInt(IntToString(i)) == Some(i)
  {
    var s := IntToString(i);
    StripUnchanged(s);
    if i < 0 {
      assert s[1..] == NatToString(-i);
    }
  }

  function Pow10(k: nat): (r: nat)
    ensures r >= 1
  {
    if k == 0 then 1 else 10 * Pow10(k - 1)
  }

  /** An unsigned decimal: digits with an optional fractional part, at least one digit. */
  function ParseUnsignedDecimal(t: string): Option<real>
  {
    var parts := Split(t, '.');
    if |parts| == 1 then
      if t != [] && AllDigits(t) then Some(DigitsValue(t) as real) else None
    else if |parts| == 2 then
      var whole := parts[0];
      var frac := parts[1];
      if AllDigits(whole) && AllDigits(frac) && (whole != [] || frac != []) then
        Some(DigitsValue(whole) as real + DigitsValue(frac) as real / Pow10(|frac|) as real)
      else None
    else None
  }

  /** `float(s)`, on signed decimals with an optional fractional part. */
  function ParseDecimal(s: string): (r: Option<real>)
  {
    var t := Strip(s);
    if t != [] && (t[0] == '-' || t[0] == '+') then
      var v := ParseUnsignedDecimal(t[1..]);
      if v.None? then None else Some(if t[0] == '-' then -v.value else v.value)
    else ParseUnsignedDecimal(t)
  }

  /** `float(str(n)) == n` */
  lemma NatToStringDecimal(n: nat)
    ensures ParseDecimal(NatToString(n)) == Some(n as real)
  {
    var s := NatToString(n);
    StripUnchanged(s);
    assert '.' !in s;
    SplitNoSep(s, '.');
  }

  /** A string with no whitespace and no sign parses as the digits before and after its one `.`. */
  lemma {:induction false} DecimalOfParts(whole: string, frac: string)
    requires AllDigits(whole) && AllDigits(frac) && whole != []
    ensures ParseDecimal(whole + "." + frac)
         == Some(DigitsValue(whole) as real + DigitsValue(frac) as real / Pow10(|frac|) as real)
  {
    var s := whole + "." + frac;
    assert s[0] == whole[0] && IsDigit(whole[0]);
    assert s[|s| - 1] == '.' || (frac != [] && s[|s| - 1] == frac[|frac| - 1] && IsDigit(frac[|frac| - 1]));
    StripUnchanged(s);
    assert Split(s, '.') == [whole, frac] by {
      DotSplit(whole, frac);
    }
  }

  lemma DotSplit(whole: string, frac: string)
    requires AllDigits(whole) && AllDigits(frac)
    ensures Split(whole + "." + frac, '.') == [whole, frac]
  {
    assert '.' !in whole && '.' !in frac;
    assert whole + "." + frac == whole + ['.'] + frac;
    SplitConcat(whole, '.', frac);
    SplitNoSep(frac, '.');
  }
}
