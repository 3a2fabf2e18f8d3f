/**
  The parts of Python's `str` that the handler relies on: `strip()`, the `in`
  operator, `split(sep, 1)`, `startswith`, `str(int)` and `int(str)` in base 10.
  Strings are sequences of Unicode scalar values, as Python's `len` counts them.
 */
module PyText {
  import opened Wrappers

  /** The characters for which Python's `str.isspace()` is true. */
  predicate IsSpace(c: char)
  {
    ('\t' <= c <= '\r') || ('\U{1C}' <= c <= '\U{1F}') || c == ' ' ||
    c == '\U{85}' || c == '\U{A0}' || c == '\U{1680}' ||
    ('\U{2000}' <= c <= '\U{200A}') || c == '\U{2028}' || c == '\U{2029}' ||
    c == '\U{202F}' || c == '\U{205F}' || c == '\U{3000}'
  }

  /** The characters `int(s)` skips around a number. CPython maps every non-ASCII
      character for which `isspace()` is true to an ASCII space and then skips
      only `\t`, `\n`, `\v`, `\f`, `\r` and the space: the information separators
      U+001C..U+001F, which `isspace()` accepts, are not skipped. */
  predicate IsIntSpace(c: char)
  {
    IsSpace(c) && !('\U{1C}' <= c <= '\U{1F}')
  }

  /** Every character of `s` satisfies `isSpace`. */
  predicate AllSpace(isSpace: char -> bool, s: string)
  {
    forall i :: 0 <= i < |s| ==> isSpace(s[i])
  }

  /** A string with no character satisfying `isSpace` at either end. */
  predicate IsStrippedBy(isSpace: char -> bool, s: string)
  {
    s == [] || (!isSpace(s[0]) && !isSpace(s[|s| - 1]))
  }

  /** A string with nothing left for `strip()` to remove. */
  predicate IsStripped(s: string)
  {
    IsStrippedBy(IsSpace, s)
  }

  /** Every character of `s` in `[lo, hi)` satisfies `isSpace`. */
  predicate SpaceBetween(isSpace: char -> bool, s: string, lo: nat, hi: nat)
    requires hi <= |s|
  {
    forall k :: lo <= k < hi ==> isSpace(s[k])
  }

  /** The end of the run of whitespace that starts at `k`. */
  function SpaceEnd(isSpace: char -> bool, s: string, k: nat): (n: nat)
    requires k <= |s|
    ensures k <= n <= |s| && SpaceBetween(isSpace, s, k, n)
    ensures n < |s| ==> !isSpace(s[n])
    decreases |s| - k
  {
    if k < |s| && isSpace(s[k]) then SpaceEnd(isSpace, s, k + 1) else k
  }

  /** The start of the run of whitespace that ends at `k`. */
  function SpaceStart(isSpace: char -> bool, s: string, k: nat): (n: nat)
    requires k <= |s|
    ensures n <= k && SpaceBetween(isSpace, s, n, k)
    ensures n > 0 ==> !isSpace(s[n - 1])
  {
    if k > 0 && isSpace(s[k - 1]) then SpaceStart(isSpace, s, k - 1) else k
  }

  /** `s` without its leading and trailing characters that satisfy `isSpace`. */
  function StripBy(isSpace: char -> bool, s: string): (r: string)
    ensures IsStrippedBy(isSpace, r) && |r| <= |s|
  {
    var i := SpaceEnd(isSpace, s, 0);
    if i == |s| then []
    else
      var j := SpaceStart(isSpace, s, |s|);
      assert !isSpace(s[i]);
      s[i..j]
  }

  /** Python's `s.strip()`. */
  function Strip(s: string): (r: string)
    ensures IsStripped(r) && |r| <= |s|
  {
    StripBy(IsSpace, s)
  }

  /** What `int(s)` reads once the whitespace it skips is removed. */
  function IntStrip(s: string): (r: string)
    ensures IsStrippedBy(IsIntSpace, r) && |r| <= |s|
  {
    StripBy(IsIntSpace, s)
  }

  /** `StripBy(isSpace, s)` is the one factor of `s` that has only whitespace
      around it and none at its own ends. */
  lemma StripUnique(isSpace: char -> bool, s: string, i: nat, j: nat)
    requires i <= j <= |s| && SpaceBetween(isSpace, s, 0, i) && SpaceBetween(isSpace, s, j, |s|)
    requires IsStrippedBy(isSpace, s[i..j])
    ensures StripBy(isSpace, s) == s[i..j]
  {
    var a := SpaceEnd(isSpace, s, 0);
    if i < j {
      assert !isSpace(s[i]) && !isSpace(s[j - 1]);
      assert a == i;
      assert SpaceStart(isSpace, s, |s|) == j;
    }
  }

  /** Stripping twice removes nothing more. */
  lemma StripIdempotent(isSpace: char -> bool, s: string)
    ensures StripBy(isSpace, StripBy(isSpace, s)) == StripBy(isSpace, s)
  {
    StripStripped(isSpace, StripBy(isSpace, s));
  }

  /** `strip()` leaves a string that has nothing to remove unchanged. */
  lemma StripStripped(isSpace: char -> bool, s: string)
    requires IsStrippedBy(isSpace, s)
    ensures StripBy(isSpace, s) == s
  {
    assert s[0..|s|] == s;
    StripUnique(isSpace, s, 0, |s|);
  }

  /** The factor `StripBy(isSpace, s)` has only whitespace around it in `s`. */
  lemma StripBounds(isSpace: char -> bool, s: string) returns (i: nat, j: nat)
    ensures i <= j <= |s| && SpaceBetween(isSpace, s, 0, i) && SpaceBetween(isSpace, s, j, |s|)
    ensures StripBy(isSpace, s) == s[i..j]
  {
    i := SpaceEnd(isSpace, s, 0);
    j := if i == |s| then i else SpaceStart(isSpace, s, |s|);
  }

  /** A whitespace-bounded factor of `s` stays one once whitespace is added
      around `s`. */
  lemma Embed(isSpace: char -> bool, a: string, s: string, b: string, i: nat, j: nat)
    requires AllSpace(isSpace, a) && AllSpace(isSpace, b)
    requires i <= j <= |s| && SpaceBetween(isSpace, s, 0, i) && SpaceBetween(isSpace, s, j, |s|)
    ensures var u := a + s + b;
            SpaceBetween(isSpace, u, 0, |a| + i) && SpaceBetween(isSpace, u, |a| + j, |u|) &&
            u[|a| + i..|a| + j] == s[i..j]
  {
    var u := a + s + b;
    assert forall k :: 0 <= k < |u| ==>
      u[k] == if k < |a| then a[k] else if k < |a| + |s| then s[k - |a|] else b[k - |a| - |s|];
  }

  /** Whitespace added around a string is stripped with the whitespace it had. */
  lemma StripSurrounded(isSpace: char -> bool, a: string, s: string, b: string)
    requires AllSpace(isSpace, a) && AllSpace(isSpace, b)
    ensures StripBy(isSpace, a + s + b) == StripBy(isSpace, s)
  {
    var i, j := StripBounds(isSpace, s);
    Embed(isSpace, a, s, b, i, j);
    var r := StripBy(isSpace, s);
    assert IsStrippedBy(isSpace, (a + s + b)[|a| + i..|a| + j]);
    StripUnique(isSpace, a + s + b, |a| + i, |a| + j);
  }

  /** `pat` occurs in `s` starting at index `i`. */
  predicate OccursAt(s: string, pat: string, i: nat)
  {
    i + |pat| <= |s| && s[i..i + |pat|] == pat
  }

  /** The first occurrence of `pat` in `s` at or after `k`. */
  function FindFrom(s: string, pat: string, k: nat): (r: Option<nat>)
    requires k <= |s|
    ensures r.Some? ==> k <= r.value && OccursAt(s, pat, r.value)
    ensures forall j: nat :: k <= j && (r.None? || j < r.value) ==> !OccursAt(s, pat, j)
    decreases |s| - k
  {
    if OccursAt(s, pat, k) then Some(k)
    else if k + |pat| >= |s| then None
    else FindFrom(s, pat, k + 1)
  }

  /** Python's `s.find(pat)`, with `None` for -1. */
  function Find(s: string, pat: string): (r: Option<nat>)
    ensures r.Some? ==> OccursAt(s, pat, r.value) && forall j: nat :: j < r.value ==> !OccursAt(s, pat, j)
    ensures r.None? ==> forall j: nat :: !OccursAt(s, pat, j)
  {
    FindFrom(s, pat, 0)
  }

  /** Python's `pat in s`. */
  predicate Contains(s: string, pat: string)
  {
    Find(s, pat).Some?
  }

  /** `pat in s` holds exactly when `pat` occurs somewhere in `s`. */
  lemma ContainsIffOccurs(s: string, pat: string)
    ensures Contains(s, pat) <==> exists i: nat :: OccursAt(s, pat, i)
  {
    if Contains(s, pat) {
      assert OccursAt(s, pat, Find(s, pat).value);
    }
  }

  /** Python's `s.split(sep, 1)[1]`: what follows the first occurrence of `sep`. */
  function AfterFirst(s: string, sep: string): (r: string)
    requires sep != [] && Contains(s, sep)
    ensures |r| + |sep| <= |s| && s[|s| - |r|..] == r
    ensures OccursAt(s, sep, |s| - |r| - |sep|)
    ensures forall j: nat :: j < |s| - |r| - |sep| ==> !OccursAt(s, sep, j)
  {
    s[Find(s, sep).value + |sep|..]
  }

  /** Python's `s.startswith(prefix)`. */
  predicate StartsWith(s: string, prefix: string)
    ensures StartsWith(s, prefix) <==> OccursAt(s, prefix, 0)
  {
    prefix <= s
  }

  /** The first `n` characters of `s` (C's `%.nR` precision on a repr). */
  function Truncate(s: string, n: nat): (r: string)
    ensures r <= s
    ensures |r| == if |s| < n then |s| else n
  {
    if |s| <= n then s else s[..n]
  }

  predicate IsDigit(c: char)
  {
    '0' <= c <= '9'
  }

  function DigitChar(d: nat): (c: char)
    requires d < 10
    ensures IsDigit(c) && c as int - '0' as int == d
  {
    "0123456789"[d]
  }

  /** Decimal digits of `n`, most significant first, no leading zero. */
  function NatToString(n: nat): (s: string)
    ensures s != [] && forall i :: 0 <= i < |s| ==> IsDigit(s[i])
    ensures |s| > 1 ==> s[0] != '0'
  {
    if n < 10 then [DigitChar(n)] else NatToString(n / 10) + [DigitChar(n % 10)]
  }

  function Pow10(k: nat): (p: nat)
    ensures p >= 1
  {
    if k == 0 then 1 else 10 * Pow10(k - 1)
  }

  /** A number below `10^k` has at most `k` decimal digits. */
  lemma {:induction false} NatToStringLength(n: nat, k: nat)
    requires 1 <= k && n < Pow10(k)
    ensures |NatToString(n)| <= k
  {
    if n >= 10 {
      assert k != 1;
      NatToStringLength(n / 10, k - 1);
    }
  }

  /** The digits of `str(n)`: everything after a leading minus sign. */
  function Magnitude(s: string, n: int): string
    requires n < 0 ==> s != []
  {
    if n < 0 then s[1..] else s
  }

  /** Python's `str(n)` for an integer: an optional minus sign, then the decimal
      digits of `|n|` with no leading zero. */
  function IntToString(n: int): (s: string)
    ensures s != [] && IsStripped(s)
    ensures n < 0 <==> s[0] == '-'
    ensures var d := Magnitude(s, n);
      d != [] && (forall i :: 0 <= i < |d| ==> IsDigit(d[i])) && (|d| > 1 ==> d[0] != '0') &&
      DigitsValue(d) == (if n < 0 then -n else n)
  {
    var m := if n < 0 then -n else n;
    NatToStringValue(m);
    if n < 0 then "-" + NatToString(m) else NatToString(m)
  }

  /** The digit part accepted by Python's `int(s)` in base 10: digits, with single
      underscores allowed between two digits. */
  predicate ValidDigits(s: string)
  {
    s != [] && IsDigit(s[0]) && IsDigit(s[|s| - 1]) &&
    forall i :: 0 <= i < |s| ==> DigitOrSeparator(s, i)
  }

  /** `s[i]` is a digit, or an underscore between two digits. */
  predicate DigitOrSeparator(s: string, i: nat)
    requires i < |s|
  {
    IsDigit(s[i]) || (s[i] == '_' && 0 < i < |s| - 1 && IsDigit(s[i - 1]) && IsDigit(s[i + 1]))
  }

  /** The value of a digit string, underscores ignored. */
  function DigitsValue(s: string): nat
  {
    if s == [] then 0
    else if IsDigit(s[|s| - 1]) then 10 * DigitsValue(s[..|s| - 1]) + (s[|s| - 1] as int - '0' as int)
    else DigitsValue(s[..|s| - 1])
  }

  /** CPython's default bound on the number of digits `int()` converts from a string
      (`sys.get_int_max_str_digits()`). */
  const MaxStrDigits: nat := 4300

  /** Outcome of Python's `int(s)` on a string in base 10: a value, the
      "invalid literal" ValueError, or the ValueError for exceeding the digit limit
      (carrying the number of digits counted). */
  datatype IntParse = Parsed(value: int) | InvalidLiteral | TooManyDigits(digits: nat)

  /** Number of digits in `s`, underscores not counted. */
  function DigitCount(s: string): (n: nat)
    ensures n <= |s|
  {
    if s == [] then 0 else DigitCount(s[..|s| - 1]) + (if IsDigit(s[|s| - 1]) then 1 else 0)
  }

  /** Python's `int(s)` on a string, base 10: the whitespace of `IsIntSpace`
      around the number is skipped, and the rest is read by `ParseSigned`. */
  function ParseInt(s: string): (r: IntParse)
    ensures r.TooManyDigits? ==> MaxStrDigits < r.digits <= |s|
    ensures r.Parsed? ==> var t := IntStrip(s); t != [] && IsDigit(t[|t| - 1]) && (r.value < 0 ==> t[0] == '-')
  {
    var t := IntStrip(s);
    ParsedEndsInDigit(t);
    ParseSigned(t)
  }

  /** An optional sign, then a digit run read by `ParseDigits`. */
  function ParseSigned(t: string): (r: IntParse)
    ensures r.TooManyDigits? ==> MaxStrDigits < r.digits <= |t|
    ensures r.Parsed? ==> t != [] && (r.value < 0 ==> t[0] == '-')
  {
    if t == [] then InvalidLiteral
    else ParseDigits(t[0] == '-', if t[0] == '-' || t[0] == '+' then t[1..] else t)
  }

  /** The first NUL of `s` at or after `k`, or `|s|` when there is none. CPython
      parses the text as a C string, for which a NUL is its end. */
  function NulFrom(s: string, k: nat): (n: nat)
    requires k <= |s|
    ensures k <= n <= |s| && forall i :: k <= i < n ==> s[i] != '\0'
    ensures n < |s| ==> s[n] == '\0'
    decreases |s| - k
  {
    if k < |s| && s[k] != '\0' then NulFrom(s, k + 1) else k
  }

  /** What CPython takes for the digit run of the text after the sign: the part
      before the first NUL, less the whitespace that ends it. */
  function DigitScan(body: string): (run: string)
    ensures run <= body && |run| <= NulFrom(body, 0)
  {
    body[..SpaceStart(IsIntSpace, body, NulFrom(body, 0))]
  }

  /** `DigitScan(body)` is the part of `body` before its first NUL, less the
      whitespace at its end: the run CPython's parser checks. */
  lemma DigitScanRun(body: string)
    ensures var run, k := DigitScan(body), NulFrom(body, 0);
      run <= body && |run| <= k && (k < |body| ==> body[k] == '\0') && '\0' !in body[..k] &&
      SpaceBetween(IsIntSpace, body, |run|, k) && (run != [] ==> !IsIntSpace(run[|run| - 1]))
  {
    var k := NulFrom(body, 0);
    assert forall i :: 0 <= i < k ==> body[..k][i] != '\0';
  }

  /** The text after the sign, read as CPython 3.12 reads it. Its digit run is
      `DigitScan(body)`. A run that is not well formed (no digit, a leading,
      trailing or doubled underscore, any other character) is an invalid
      literal; a well-formed run is then refused for having more than
      `MaxStrDigits` digits; a shorter one is an invalid literal when a NUL cut
      the text short, and its value otherwise. */
  function ParseDigits(neg: bool, body: string): (r: IntParse)
    ensures r.TooManyDigits? ==> MaxStrDigits < r.digits <= |body|
    ensures r.Parsed? ==> r.value < 0 ==> neg
  {
    var run := DigitScan(body);
    if !ValidDigits(run) then InvalidLiteral
    else if DigitCount(run) > MaxStrDigits then TooManyDigits(DigitCount(run))
    else if NulFrom(body, 0) < |body| then InvalidLiteral
    else Parsed(if neg then -(DigitsValue(run) as int) else DigitsValue(run) as int)
  }

  lemma {:induction false} NatToStringValue(n: nat)
    ensures ValidDigits(NatToString(n)) && DigitsValue(NatToString(n)) == n
  {
    var s := NatToString(n);
    if n >= 10 {
      NatToStringValue(n / 10);
      assert s[..|s| - 1] == NatToString(n / 10);
    }
  }

  /** In a string of digits alone every character counts as a digit. */
  lemma {:induction false} AllDigitsCount(d: string)
    requires forall i :: 0 <= i < |d| ==> IsDigit(d[i])
    ensures DigitCount(d) == |d|
  {
    if d != [] {
      AllDigitsCount(d[..|d| - 1]);
    }
  }

  /** A well-formed run holds no NUL and does not end in whitespace, so it is
      its own digit scan. */
  lemma ValidRunScan(d: string)
    requires ValidDigits(d)
    ensures NulFrom(d, 0) == |d| && DigitScan(d) == d
  {
    var n := NulFrom(d, 0);
    assert n < |d| ==> DigitOrSeparator(d, n);
    assert IsDigit(d[|d| - 1]);
    assert SpaceStart(IsIntSpace, d, |d|) == |d|;
  }

  /** A text whose digit scan `int()` converts is, once stripped, one that ends
      in a digit. */
  lemma ParsedEndsInDigit(t: string)
    ensures ParseSigned(t).Parsed? && IsStrippedBy(IsIntSpace, t) ==> IsDigit(t[|t| - 1])
  {
    if ParseSigned(t).Parsed? && IsStrippedBy(IsIntSpace, t) {
      var body := if t[0] == '-' || t[0] == '+' then t[1..] else t;
      var run := DigitScan(body);
      assert ValidDigits(run) && NulFrom(body, 0) == |body|;
      assert body != [] && body[|body| - 1] == t[|t| - 1];
      assert SpaceStart(IsIntSpace, body, |body|) == |body|;
      assert run == body;
    }
  }

  /** `t` is an optional sign followed by the well-formed digit run `d`: the
      shape of a base-10 integer literal. */
  predicate IsSignedDigits(t: string, sign: string, d: string)
  {
    (sign == "" || sign == "+" || sign == "-") && t == sign + d && ValidDigits(d)
  }

  /** `t` is an optional sign and the well-formed run `d`, then the whitespace
      `sp`, then a NUL, which ends the text for CPython's parser, then `rest`. */
  predicate IsCutSignedDigits(t: string, sign: string, d: string, sp: string, rest: string)
  {
    (sign == "" || sign == "+" || sign == "-") && ValidDigits(d) && AllSpace(IsIntSpace, sp) &&
    t == sign + d + sp + "\0" + rest
  }

  /** A signed digit run reads as its signed value, or is refused for its
      length when it has more than `MaxStrDigits` digits. */
  lemma ParseSignedAccepts(t: string, sign: string, d: string)
    requires IsSignedDigits(t, sign, d)
    ensures ParseSigned(t) ==
      if DigitCount(d) > MaxStrDigits then TooManyDigits(DigitCount(d))
      else Parsed(if sign == "-" then -(DigitsValue(d) as int) else DigitsValue(d) as int)
  {
    SignedParts(t, sign, d);
    ValidRunScan(d);
  }

  /** The sign and the rest that `ParseSigned` finds in `sign + body`, when
      `body` starts with a digit. */
  lemma SignedParts(t: string, sign: string, body: string)
    requires (sign == "" || sign == "+" || sign == "-") && t == sign + body && body != [] && IsDigit(body[0])
    ensures t != [] && (if t[0] == '-' || t[0] == '+' then t[1..] else t) == body && (t[0] == '-' <==> sign == "-")
  {
    assert t[0] == if sign == "" then body[0] else sign[0];
  }

  /** An integer literal reads as its signed value, or is refused for its length
      when its run has more than `MaxStrDigits` digits. */
  lemma ParseIntAccepts(s: string, sign: string, d: string)
    requires IsSignedDigits(IntStrip(s), sign, d)
    ensures ParseInt(s) ==
      if DigitCount(d) > MaxStrDigits then TooManyDigits(DigitCount(d))
      else Parsed(if sign == "-" then -(DigitsValue(d) as int) else DigitsValue(d) as int)
  {
    ParseSignedAccepts(IntStrip(s), sign, d);
  }

  /** The digit scan of a run followed by whitespace and a NUL is that run. */
  lemma CutRunScan(d: string, sp: string, rest: string)
    requires ValidDigits(d) && AllSpace(IsIntSpace, sp)
    ensures var body := d + sp + "\0" + rest;
      NulFrom(body, 0) == |d| + |sp| < |body| && DigitScan(body) == d
  {
    var body := d + sp + "\0" + rest;
    var k := |d| + |sp|;
    ValidRunScan(d);
    assert body[k] == '\0';
    assert forall i :: 0 <= i < k ==> body[i] == if i < |d| then d[i] else sp[i - |d|];
    assert NulFrom(body, 0) == k;
    var n := SpaceStart(IsIntSpace, body, k);
    assert IsDigit(d[|d| - 1]);
    assert n == |d|;
    assert body[..|d|] == d;
  }

  /** A signed run cut short by a NUL is refused for its length when it has more
      than `MaxStrDigits` digits, and is an invalid literal otherwise: the NUL
      is noticed only once the run has been converted. */
  lemma ParseSignedCut(t: string, sign: string, d: string, sp: string, rest: string)
    requires IsCutSignedDigits(t, sign, d, sp, rest)
    ensures ParseSigned(t) ==
      if DigitCount(d) > MaxStrDigits then TooManyDigits(DigitCount(d)) else InvalidLiteral
  {
    CutParts(t, sign, d, sp, rest);
    CutRunScan(d, sp, rest);
  }

  /** `SignedParts` for a run cut short by a NUL. */
  lemma CutParts(t: string, sign: string, d: string, sp: string, rest: string)
    requires IsCutSignedDigits(t, sign, d, sp, rest)
    ensures t != [] && (if t[0] == '-' || t[0] == '+' then t[1..] else t) == d + sp + "\0" + rest
    ensures t[0] == '-' <==> sign == "-"
  {
    assert t == sign + (d + sp + "\0" + rest);
    SignedParts(t, sign, d + sp + "\0" + rest);
  }

  /** `int()` reads a literal that a NUL cuts short up to the NUL: it is refused
      for its length past `MaxStrDigits` digits, and an invalid literal
      otherwise. */
  lemma ParseIntCut(s: string, sign: string, d: string, sp: string, rest: string)
    requires IsCutSignedDigits(IntStrip(s), sign, d, sp, rest)
    ensures ParseInt(s) ==
      if DigitCount(d) > MaxStrDigits then TooManyDigits(DigitCount(d)) else InvalidLiteral
  {
    ParseSignedCut(IntStrip(s), sign, d, sp, rest);
  }

  /** `ParseSigned` refuses exactly the stripped texts that are neither a signed
      digit run nor one of more than `MaxStrDigits` digits cut short by a NUL. */
  lemma ParseSignedRejects(t: string)
    requires IsStrippedBy(IsIntSpace, t)
    ensures ParseSigned(t).InvalidLiteral? <==>
      !(exists sign, d :: IsSignedDigits(t, sign, d)) &&
      !(exists sign, d, sp, rest :: IsCutSignedDigits(t, sign, d, sp, rest) && DigitCount(d) > MaxStrDigits)
  {
    if !ParseSigned(t).InvalidLiteral? {
      var sign, d, sp, rest, cut := ParseSignedShape(t);
      if cut {
        assert IsCutSignedDigits(t, sign, d, sp, rest) && DigitCount(d) > MaxStrDigits;
      } else {
        assert IsSignedDigits(t, sign, d);
      }
    } else if exists sign, d :: IsSignedDigits(t, sign, d) {
      var sign, d :| IsSignedDigits(t, sign, d);
      ParseSignedAccepts(t, sign, d);
    } else if exists sign, d, sp, rest :: IsCutSignedDigits(t, sign, d, sp, rest) && DigitCount(d) > MaxStrDigits {
      var sign, d, sp, rest :| IsCutSignedDigits(t, sign, d, sp, rest) && DigitCount(d) > MaxStrDigits;
      ParseSignedCut(t, sign, d, sp, rest);
    }
  }

  /** What `ParseSigned` does not call an invalid literal is a signed digit run,
      whole or cut short by a NUL after more than `MaxStrDigits` digits. */
  lemma ParseSignedShape(t: string) returns (sign: string, d: string, sp: string, rest: string, cut: bool)
    requires IsStrippedBy(IsIntSpace, t) && !ParseSigned(t).InvalidLiteral?
    ensures cut ==> IsCutSignedDigits(t, sign, d, sp, rest) && DigitCount(d) > MaxStrDigits
    ensures !cut ==> IsSignedDigits(t, sign, d)
  {
    var body := if t[0] == '-' || t[0] == '+' then t[1..] else t;
    UnsignedEnd(t);
    d, sp, rest, cut := DigitsShape(t[0] == '-', body);
    sign := SignSplit(t);
    JoinSign(t, sign, body, d, sp, rest, cut);
  }

  /** A text is its sign, if any, followed by the rest. */
  lemma SignSplit(t: string) returns (sign: string)
    requires t != []
    ensures var body := if t[0] == '-' || t[0] == '+' then t[1..] else t;
      (sign == "" || sign == "+" || sign == "-") && t == sign + body
  {
    var body := if t[0] == '-' || t[0] == '+' then t[1..] else t;
    sign := if t[0] == '-' || t[0] == '+' then [t[0]] else "";
    assert t == sign + body;
  }

  /** What follows the sign of a stripped text does not end in whitespace. */
  lemma UnsignedEnd(t: string)
    requires IsStrippedBy(IsIntSpace, t) && t != []
    ensures var body := if t[0] == '-' || t[0] == '+' then t[1..] else t;
      body != [] ==> !IsIntSpace(body[|body| - 1])
  {
    var body := if t[0] == '-' || t[0] == '+' then t[1..] else t;
    assert body != [] ==> body[|body| - 1] == t[|t| - 1];
  }

  /** Puts the sign back in front of the shape `DigitsShape` finds. */
  lemma JoinSign(t: string, sign: string, body: string, d: string, sp: string, rest: string, cut: bool)
    requires (sign == "" || sign == "+" || sign == "-") && t == sign + body && ValidDigits(d)
    requires cut ==> AllSpace(IsIntSpace, sp) && body == d + sp + "\0" + rest
    requires !cut ==> body == d
    ensures cut ==> IsCutSignedDigits(t, sign, d, sp, rest)
    ensures !cut ==> IsSignedDigits(t, sign, d)
  {
    if cut {
      assert t == sign + d + sp + "\0" + rest;
    }
  }

  /** The unsigned half of `ParseSignedShape`. */
  lemma DigitsShape(neg: bool, body: string) returns (d: string, sp: string, rest: string, cut: bool)
    requires body != [] ==> !IsIntSpace(body[|body| - 1])
    requires !ParseDigits(neg, body).InvalidLiteral?
    ensures ValidDigits(d)
    ensures cut ==> AllSpace(IsIntSpace, sp) && body == d + sp + "\0" + rest && DigitCount(d) > MaxStrDigits
    ensures !cut ==> body == d
  {
    d := DigitScan(body);
    var n := NulFrom(body, 0);
    cut := n < |body|;
    if cut {
      sp, rest := body[|d|..n], body[n + 1..];
      assert body == d + sp + "\0" + rest;
    } else {
      sp, rest := [], [];
      assert SpaceStart(IsIntSpace, body, |body|) == |body|;
    }
  }

  /** `int()` calls its argument an invalid literal exactly when, once its
      whitespace is skipped, it is neither an integer literal nor a literal of
      more than `MaxStrDigits` digits cut short by a NUL. */
  lemma ParseIntRejects(s: string)
    ensures ParseInt(s).InvalidLiteral? <==>
      !(exists sign, d :: IsSignedDigits(IntStrip(s), sign, d)) &&
      !(exists sign, d, sp, rest :: IsCutSignedDigits(IntStrip(s), sign, d, sp, rest) && DigitCount(d) > MaxStrDigits)
  {
    ParseSignedRejects(IntStrip(s));
  }

  /** `int(str(n)) == n` for every `n` whose `str` is within the digit limit. */
  lemma IntToStringRoundTrip(n: int)
    requires |NatToString(if n < 0 then -n else n)| <= MaxStrDigits
    ensures ParseInt(IntToString(n)) == Parsed(n)
  {
    var m := if n < 0 then -n else n;
    var s, d := IntToString(n), NatToString(m);
    NatToStringValue(m);
    AllDigitsCount(d);
    var sign := if n < 0 then "-" else "";
    assert s == sign + d;
    assert IsStrippedBy(IsIntSpace, s) by {
      assert s[0] == (if n < 0 then '-' else d[0]);
    }
    StripStripped(IsIntSpace, s);
    ParseIntAccepts(s, sign, d);
  }

  /** `int()` refuses a string of more than `MaxStrDigits` digits, reporting how
      many it found. */
  lemma DigitLimit(d: string)
    requires |d| > MaxStrDigits && forall i :: 0 <= i < |d| ==> IsDigit(d[i])
    ensures ParseInt(d) == TooManyDigits(|d|)
  {
    LongDigitRun(d);
    assert IsStrippedBy(IsIntSpace, d) by {
      assert IsDigit(d[0]) && IsDigit(d[|d| - 1]);
    }
    StripStripped(IsIntSpace, d);
  }

  /** The unsigned half of `DigitLimit`, before any whitespace is skipped. */
  lemma LongDigitRun(d: string)
    requires |d| > MaxStrDigits && forall i :: 0 <= i < |d| ==> IsDigit(d[i])
    ensures ParseSigned(d) == TooManyDigits(|d|)
  {
    AllDigitsCount(d);
    assert IsSignedDigits(d, "", d) by {
      assert "" + d == d;
    }
    ParseSignedAccepts(d, "", d);
  }

  /** `int()` stops reading at a NUL, so a run of more than `MaxStrDigits`
      digits followed by a NUL is refused for its length, not as an invalid
      literal. */
  lemma DigitLimitBeforeNul(d: string)
    requires |d| > MaxStrDigits && forall i :: 0 <= i < |d| ==> IsDigit(d[i])
    ensures ParseInt(d + "\0") == TooManyDigits(|d|)
  {
    var s := d + "\0";
    assert IsStrippedBy(IsIntSpace, s) by {
      assert s[0] == d[0] && s[|s| - 1] == '\0';
    }
    StripStripped(IsIntSpace, s);
    AllDigitsCount(d);
    assert ValidDigits(d);
    assert AllSpace(IsIntSpace, "");
    assert s == "" + d + "" + "\0" + "";
    ParseIntCut(s, "", d, "", "");
  }

  /** `int()` ignores the whitespace it skips around its argument. */
  lemma ParseIntIgnoresSurroundingSpace(a: string, s: string, b: string)
    requires AllSpace(IsIntSpace, a) && AllSpace(IsIntSpace, b)
    ensures ParseInt(a + s + b) == ParseInt(s)
  {
    StripSurrounded(IsIntSpace, a, s, b);
  }

  /** `int()` does not skip the information separator U+001C that `strip()`
      removes: `int("\x1c5")` is an invalid literal although
      `"\x1c5".strip() == "5"`. */
  lemma SeparatorIsNotIntSpace(s: string)
    requires s == "\U{1C}5"
    ensures Strip(s) == "5"
    ensures ParseInt(s) == InvalidLiteral
  {
    assert s[1..] == "5";
    assert StripBy(IsSpace, s[1..]) == "5";
    assert IsStrippedBy(IsIntSpace, s);
    StripStripped(IsIntSpace, s);
    assert !ValidDigits(s);
  }
}
