/** The parts of ECMAScript string semantics that the downloader relies on: the white-space
    class shared by the regular-expression class `\s`, `String.prototype.trim` and
    `parseInt`; `endsWith` and `includes` (with `startsWith` as the step `includes` is built
    from, which the downloader does not call itself); and `parseInt` called without a
    radix. Strings are sequences of Unicode scalar values. */
module JsText {
  import opened Wrappers

  // ---------------------------------------------------------------------------------
  // Character classes
  // ---------------------------------------------------------------------------------

  /** ECMAScript WhiteSpace or LineTerminator: what `\s` matches, what `trim` removes and
      what `parseInt` skips before the number. */
  predicate IsSpace(c: char)
  {
    || c == '\t' || c == '\n' || c == '\U{000B}' || c == '\U{000C}' || c == '\r'
    || c == ' ' || c == '\U{00A0}' || c == '\U{1680}' || ('\U{2000}' <= c <= '\U{200A}')
    || c == '\U{2028}' || c == '\U{2029}' || c == '\U{202F}' || c == '\U{205F}'
    || c == '\U{3000}' || c == '\U{FEFF}'
  }

  /** `\d`: the ASCII digits only. */
  predicate IsDecimalDigit(c: char)
  {
    '0' <= c <= '9'
  }

  predicate IsHexDigit(c: char)
  {
    IsDecimalDigit(c) || 'a' <= c <= 'f' || 'A' <= c <= 'F'
  }

  /** A digit of the radix `parseInt` settled on: 16 after a `0x` prefix, otherwise 10. */
  predicate IsDigitOf(c: char, hex: bool)
  {
    if hex then IsHexDigit(c) else IsDecimalDigit(c)
  }

  function Base(hex: bool): nat
  {
    if hex then 16 else 10
  }

  function DigitValue(c: char): (v: nat)
    requires IsHexDigit(c)
    ensures v < 16
    ensures IsDecimalDigit(c) <==> v < 10
  {
    if IsDecimalDigit(c) then c as int - '0' as int
    else if 'a' <= c <= 'f' then c as int - 'a' as int + 10
    else c as int - 'A' as int + 10
  }

  function DecimalChar(d: nat): (c: char)
    requires d < 10
    ensures IsDecimalDigit(c) && DigitValue(c) == d
  {
    ('0' as int + d) as char
  }

  // ---------------------------------------------------------------------------------
  // trim, startsWith, endsWith, includes
  // ---------------------------------------------------------------------------------

  /** The string with its white space removed: what trimming and collapsing must keep. */
  function NonSpace(s: string): (r: string)
    ensures |r| <= |s|
    ensures forall i :: 0 <= i < |r| ==> !IsSpace(r[i])
  {
    if s == [] then []
    else (if IsSpace(s[0]) then [] else [s[0]]) + NonSpace(s[1..])
  }

  lemma {:induction false} NonSpaceAppend(a: string, b: string)
    ensures NonSpace(a + b) == NonSpace(a) + NonSpace(b)
  {
    if a == [] {
      assert a + b == b;
    } else {
      assert (a + b)[1..] == a[1..] + b;
      NonSpaceAppend(a[1..], b);
    }
  }

  lemma {:induction false} NonSpaceOfSpaces(s: string)
    requires forall i :: 0 <= i < |s| ==> IsSpace(s[i])
    ensures NonSpace(s) == []
  {
    if s != [] {
      NonSpaceOfSpaces(s[1..]);
    }
  }

  /** White space at the front removed, as `trimStart` and the first step of `parseInt`. */
  function TrimStart(s: string): (r: string)
    ensures |r| <= |s| && r == s[|s| - |r|..]
    ensures forall i :: 0 <= i < |s| - |r| ==> IsSpace(s[i])
    ensures r != [] ==> !IsSpace(r[0])
  {
    if s != [] && IsSpace(s[0]) then TrimStart(s[1..]) else s
  }

  /** White space at the end removed, as `trimEnd`. */
  function TrimEnd(s: string): (r: string)
    ensures |r| <= |s| && r == s[..|r|]
    ensures forall i :: |r| <= i < |s| ==> IsSpace(s[i])
    ensures r != [] ==> !IsSpace(r[|r| - 1])
  {
    if s != [] && IsSpace(s[|s| - 1]) then TrimEnd(s[..|s| - 1]) else s
  }

  /** `String.prototype.trim`. */
  function Trim(s: string): string
  {
    TrimEnd(TrimStart(s))
  }

  lemma {:induction false} TrimStartKeepsNonSpace(s: string)
    ensures NonSpace(TrimStart(s)) == NonSpace(s)
  {
    if s != [] && IsSpace(s[0]) {
      TrimStartKeepsNonSpace(s[1..]);
    }
  }

  lemma {:induction false} TrimEndKeepsNonSpace(s: string)
    ensures NonSpace(TrimEnd(s)) == NonSpace(s)
  {
    if s != [] && IsSpace(s[|s| - 1]) {
      var init := s[..|s| - 1];
      assert s == init + [s[|s| - 1]];
      NonSpaceAppend(init, [s[|s| - 1]]);
      TrimEndKeepsNonSpace(init);
    }
  }

  /** Trimming yields the middle of the string, with white space at neither end, and
      loses nothing but white space. */
  lemma TrimSpec(s: string)
    ensures var r := Trim(s);
      && r == s[|s| - |TrimStart(s)|..][..|r|]
      && (r != [] ==> !IsSpace(r[0]) && !IsSpace(r[|r| - 1]))
      && NonSpace(r) == NonSpace(s)
  {
    var t := TrimStart(s);
    var r := TrimEnd(t);
    if r != [] {
      assert r[0] == t[0];
    }
    TrimStartKeepsNonSpace(s);
    TrimEndKeepsNonSpace(t);
  }

  /** A string that has white space at neither end is its own trim. */
  lemma TrimOfTrimmed(s: string)
    requires s != [] ==> !IsSpace(s[0]) && !IsSpace(s[|s| - 1])
    ensures Trim(s) == s
  {
  }

  predicate StartsWith(s: string, p: string)
  {
    p <= s
  }

  predicate EndsWith(s: string, p: string)
  {
    |p| <= |s| && s[|s| - |p|..] == p
  }

  /** `String.prototype.includes`: `p` occurs somewhere in `s`. */
  predicate Includes(s: string, p: string)
  {
    StartsWith(s, p) || (s != [] && Includes(s[1..], p))
  }

  /** `includes` holds exactly when `p` occurs at some position of `s`. */
  lemma {:induction false} IncludesAt(s: string, p: string, k: nat)
    requires k <= |s| && StartsWith(s[k..], p)
    ensures Includes(s, p)
  {
    if k > 0 {
      assert s[1..][k - 1..] == s[k..];
      IncludesAt(s[1..], p, k - 1);
    }
  }

  lemma {:induction false} IncludesWitness(s: string, p: string) returns (k: nat)
    requires Includes(s, p)
    ensures k <= |s| && StartsWith(s[k..], p)
  {
    if StartsWith(s, p) {
      k := 0;
    } else {
      var j := IncludesWitness(s[1..], p);
      assert s[1..][j..] == s[j + 1..];
      k := j + 1;
    }
  }

  /** A string cannot contain a text that has a character it lacks. */
  lemma {:induction false} MissingCharExcludes(s: string, p: string, i: nat)
    requires i < |p| && p[i] !in s
    ensures !Includes(s, p)
  {
    if i < |s| {
      assert s[i] in s;
    }
    if s != [] {
      assert forall c :: c in s[1..] ==> c in s;
      MissingCharExcludes(s[1..], p, i);
    }
  }

  /** No position of `s` holds `a` immediately followed by `b`. */
  predicate PairFree(s: string, a: char, b: char)
  {
    forall i :: 0 <= i < |s| - 1 ==> !(s[i] == a && s[i + 1] == b)
  }

  lemma PairFreeAppend(s: string, t: string, a: char, b: char)
    requires PairFree(s, a, b) && PairFree(t, a, b)
    requires s != [] && t != [] ==> !(s[|s| - 1] == a && t[0] == b)
    ensures PairFree(s + t, a, b)
  {
    var u := s + t;
    forall i | 0 <= i < |u| - 1
      ensures !(u[i] == a && u[i + 1] == b)
    {
      if i + 1 < |s| {
        assert u[i] == s[i] && u[i + 1] == s[i + 1];
      } else if i >= |s| {
        assert u[i] == t[i - |s|] && u[i + 1] == t[i - |s| + 1];
      }
    }
  }

  /** A string cannot contain a text one of whose adjacent pairs it lacks. */
  lemma {:induction false} MissingPairExcludes(s: string, p: string, i: nat)
    requires i + 1 < |p| && PairFree(s, p[i], p[i + 1])
    ensures !Includes(s, p)
  {
    if i + 1 < |s| {
      assert !(s[i] == p[i] && s[i + 1] == p[i + 1]);
    }
    if s != [] {
      assert PairFree(s[1..], p[i], p[i + 1]) by {
        forall j | 0 <= j < |s[1..]| - 1
          ensures !(s[1..][j] == p[i] && s[1..][j + 1] == p[i + 1])
        {
          assert s[1..][j] == s[j + 1] && s[1..][j + 1] == s[j + 2];
        }
      }
      MissingPairExcludes(s[1..], p, i);
    }
  }

  // ---------------------------------------------------------------------------------
  // parseInt(string) with no radix argument
  // ---------------------------------------------------------------------------------

  /** Length of the longest prefix of `s` made of digits of the radix. */
  function DigitRun(s: string, hex: bool): (n: nat)
    ensures n <= |s|
    ensures forall i :: 0 <= i < n ==> IsDigitOf(s[i], hex)
    ensures n < |s| ==> !IsDigitOf(s[n], hex)
  {
    if s != [] && IsDigitOf(s[0], hex) then 1 + DigitRun(s[1..], hex) else 0
  }

  /** The number a run of digits denotes, most significant digit first. */
  function DigitsValue(ds: string, hex: bool): nat
    requires forall i :: 0 <= i < |ds| ==> IsDigitOf(ds[i], hex)
  {
    if ds == [] then 0
    else
      assert IsDigitOf(ds[|ds| - 1], hex);
      DigitsValue(ds[..|ds| - 1], hex) * Base(hex) + DigitValue(ds[|ds| - 1])
  }

  /** What `parseInt` sees once white space and sign are gone: a `0x`/`0X` prefix switches
      to radix 16. */
  predicate HasHexPrefix(u: string)
  {
    |u| >= 2 && u[0] == '0' && (u[1] == 'x' || u[1] == 'X')
  }

  /** The text after one optional sign character. */
  function Unsigned(t: string): (u: string)
    ensures |u| <= |t|
  {
    if t != [] && (t[0] == '-' || t[0] == '+') then t[1..] else t
  }

  /** The number at the start of a sign-less text: a `0x`/`0X` prefix selects radix 16,
      then the longest run of digits counts; no digits gives `None` (NaN). */
  function ParseUnsigned(u: string): Option<nat>
  {
    var hex := HasHexPrefix(u);
    var body := if hex then u[2..] else u;
    var n := DigitRun(body, hex);
    if n == 0 then None else Some(DigitsValue(body[..n], hex))
  }

  /** The number at the start of a text that has no leading white space, with its sign. */
  function ParseSigned(t: string): Option<int>
  {
    match ParseUnsigned(Unsigned(t))
    case None => None
    case Some(v) =>
      var m: int := v;
      Some(if t != [] && t[0] == '-' then -m else m)
  }

  /** `parseInt(s)`: skip white space, take one optional sign, then read the number;
      NaN is written `None`. A negative zero is returned as 0, which behaves the same
      wherever the downloader uses the result. */
  function ParseInt(s: string): Option<int>
  {
    ParseSigned(TrimStart(s))
  }

  /** `parseInt` gives a number exactly when, after white space and sign, the text starts
      with a decimal digit, except that `0x` or `0X` must be followed by a hex digit. */
  lemma ParseIntDefined(s: string)
    ensures var u := Unsigned(TrimStart(s));
      ParseInt(s).Some? <==>
        if HasHexPrefix(u) then |u| > 2 && IsHexDigit(u[2]) else u != [] && IsDecimalDigit(u[0])
  {
  }

  /** Leading white space never changes what `parseInt` returns. */
  lemma {:induction false} ParseIntSkipsSpace(w: string, s: string)
    requires forall i :: 0 <= i < |w| ==> IsSpace(w[i])
    ensures ParseInt(w + s) == ParseInt(s)
  {
    TrimStartSkipsSpace(w, s);
  }

  lemma {:induction false} TrimStartSkipsSpace(w: string, s: string)
    requires forall i :: 0 <= i < |w| ==> IsSpace(w[i])
    ensures TrimStart(w + s) == TrimStart(s)
  {
    if w != [] {
      assert (w + s)[1..] == w[1..] + s;
      TrimStartSkipsSpace(w[1..], s);
    } else {
      assert w + s == s;
    }
  }

  /** Decimal rendering of a natural number, without leading zeros. */
  function ShowNat(n: nat): (r: string)
    ensures r != [] && forall i :: 0 <= i < |r| ==> IsDecimalDigit(r[i])
    ensures r[0] == '0' ==> n == 0
  {
    if n < 10 then [DecimalChar(n)] else ShowNat(n / 10) + [DecimalChar(n % 10)]
  }

  /** Decimal rendering of an integer, with a `-` for negative values. */
  function ShowInt(n: int): string
  {
    if n < 0 then "-" + ShowNat(-n) else ShowNat(n)
  }

  lemma {:induction false} ShowNatValue(n: nat)
    ensures DigitsValue(ShowNat(n), false) == n
  {
    if n >= 10 {
      var r := ShowNat(n);
      assert r[..|r| - 1] == ShowNat(n / 10);
      ShowNatValue(n / 10);
    }
  }

  lemma {:induction false} DigitRunOfDigits(ds: string, rest: string, hex: bool)
    requires forall i :: 0 <= i < |ds| ==> IsDigitOf(ds[i], hex)
    requires rest == [] || !IsDigitOf(rest[0], hex)
    ensures DigitRun(ds + rest, hex) == |ds|
  {
    if ds != [] {
      assert (ds + rest)[1..] == ds[1..] + rest;
      DigitRunOfDigits(ds[1..], rest, hex);
    } else {
      assert ds + rest == rest;
    }
  }

  lemma ParseUnsignedShowNat(m: nat, rest: string)
    requires rest == [] || (!IsDecimalDigit(rest[0]) && (m == 0 ==> rest[0] != 'x' && rest[0] != 'X'))
    ensures ParseUnsigned(ShowNat(m) + rest) == Some(m)
  {
    var d := ShowNat(m);
    var u := d + rest;
    assert !HasHexPrefix(u) by {
      if d[0] == '0' {
        assert m == 0 && d == "0";
      }
    }
    DigitRunOfDigits(d, rest, false);
    assert u[..|d|] == d;
    ShowNatValue(m);
  }

  lemma UnsignedShowInt(n: int, rest: string)
    ensures Unsigned(ShowInt(n) + rest) == ShowNat(if n < 0 then -n else n) + rest
  {
    var s := ShowInt(n) + rest;
    if n < 0 {
      assert s == "-" + (ShowNat(-n) + rest);
      assert s[1..] == ShowNat(-n) + rest;
    } else {
      assert s == ShowNat(n) + rest;
      assert s[0] == ShowNat(n)[0] && IsDecimalDigit(s[0]);
    }
  }

  /** `parseInt` inverts decimal rendering, whatever non-digit text follows the number
      (so `parseInt("720p")` is 720). Only after zero is an `x` or `X` excluded, because
      `0x` starts a hexadecimal number. */
  lemma ParseIntShowInt(n: int, rest: string)
    requires rest == [] || (!IsDecimalDigit(rest[0]) && (n == 0 ==> rest[0] != 'x' && rest[0] != 'X'))
    ensures ParseInt(ShowInt(n) + rest) == Some(n)
  {
    var s := ShowInt(n) + rest;
    ShowIntHead(n, rest);
    assert TrimStart(s) == s;
    ParseSignedShowInt(n, rest);
  }

  /** The decimal form of an integer starts with `-` exactly when it is negative, and
      never with white space. */
  lemma ShowIntHead(n: int, rest: string)
    ensures var s := ShowInt(n) + rest;
      s != [] && !IsSpace(s[0]) && (s[0] == '-' <==> n < 0)
  {
    var s := ShowInt(n) + rest;
    if n >= 0 {
      assert s[0] == ShowNat(n)[0];
    }
  }

  lemma ParseSignedShowInt(n: int, rest: string)
    requires rest == [] || (!IsDecimalDigit(rest[0]) && (n == 0 ==> rest[0] != 'x' && rest[0] != 'X'))
    ensures ParseSigned(ShowInt(n) + rest) == Some(n)
  {
    var m: nat := if n < 0 then -n else n;
    ShowIntHead(n, rest);
    UnsignedShowInt(n, rest);
    ParseUnsignedShowNat(m, rest);
  }
}
