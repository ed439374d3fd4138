/**
 * The listening port chosen in `main` of server/src/main.rs: the `PORT`
 * environment value, trimmed and parsed as a `u16`, or 11265 when it is
 * missing or does not parse.
 */
module Port {
  import opened Wrappers

  const DefaultPort: nat := 11265
  const MaxU16: nat := 65535

  /** The characters with the Unicode White_Space property, which `str::trim` removes. */
  predicate IsWhiteSpace(c: char) {
    var n := c as int;
    (0x09 <= n <= 0x0D) || n == 0x20 || n == 0x85 || n == 0xA0 || n == 0x1680 ||
    (0x2000 <= n <= 0x200A) || n == 0x2028 || n == 0x2029 || n == 0x202F ||
    n == 0x205F || n == 0x3000
  }

  /** `s` without its leading white space: a suffix of `s` that starts with no white space. */
  function TrimStart(s: string): (t: string)
    ensures |t| <= |s| && t == s[|s| - |t|..]
    ensures t == [] || !IsWhiteSpace(t[0])
    ensures forall i :: 0 <= i < |s| - |t| ==> IsWhiteSpace(s[i])
  {
    if s != [] && IsWhiteSpace(s[0]) then TrimStart(s[1..]) else s
  }

  /** `s` without its trailing white space: a prefix of `s` that ends with no white space. */
  function TrimEnd(s: string): (t: string)
    ensures |t| <= |s| && t == s[..|t|]
    ensures t == [] || !IsWhiteSpace(t[|t| - 1])
    ensures forall i :: |t| <= i < |s| ==> IsWhiteSpace(s[i])
  {
    if s != [] && IsWhiteSpace(s[|s| - 1]) then TrimEnd(s[..|s| - 1]) else s
  }

  /** `str::trim`: white space removed at both ends. */
  function Trim(s: string): (t: string)
    ensures Trimmed(t)
    ensures Trimmed(s) ==> t == s
  {
    var u := TrimStart(s);
    var v := TrimEnd(u);
    assert v != [] ==> v[0] == u[0];
    v
  }

  /** No white space at either end of `s`. */
  predicate Trimmed(s: string) {
    s == [] || (!IsWhiteSpace(s[0]) && !IsWhiteSpace(s[|s| - 1]))
  }

  lemma {:induction false} TrimStartPadded(pad: string, s: string)
    requires forall i :: 0 <= i < |pad| ==> IsWhiteSpace(pad[i])
    requires s == [] || !IsWhiteSpace(s[0])
    ensures TrimStart(pad + s) == s
  {
    if pad == [] {
      assert pad + s == s;
    } else {
      assert (pad + s)[0] == pad[0];
      assert (pad + s)[1..] == pad[1..] + s;
      TrimStartPadded(pad[1..], s);
    }
  }

  lemma {:induction false} TrimEndPadded(s: string, pad: string)
    requires forall i :: 0 <= i < |pad| ==> IsWhiteSpace(pad[i])
    requires s == [] || !IsWhiteSpace(s[|s| - 1])
    ensures TrimEnd(s + pad) == s
  {
    if pad == [] {
      assert s + pad == s;
    } else {
      var p := pad[..|pad| - 1];
      assert (s + pad)[|s + pad| - 1] == pad[|pad| - 1];
      assert (s + pad)[..|s + pad| - 1] == s + p;
      TrimEndPadded(s, p);
    }
  }

  /** Trimming undoes padding with white space on both sides. */
  lemma TrimPadded(before: string, s: string, after: string)
    requires forall i :: 0 <= i < |before| ==> IsWhiteSpace(before[i])
    requires forall i :: 0 <= i < |after| ==> IsWhiteSpace(after[i])
    requires Trimmed(s)
    ensures Trim(before + s + after) == s
  {
    if s == [] {
      assert before + s + after == before + after;
      TrimStartPadded(before + after, []);
      assert before + after + [] == before + after;
      TrimEndPadded([], []);
    } else {
      assert before + s + after == before + (s + after);
      TrimStartPadded(before, s + after);
      TrimEndPadded(s, after);
    }
  }

  predicate IsDigit(c: char) {
    '0' <= c <= '9'
  }

  predicate AllDigits(s: string) {
    forall i :: 0 <= i < |s| ==> IsDigit(s[i])
  }

  function DigitValue(c: char): nat
    requires IsDigit(c)
  {
    c as int - '0' as int
  }

  function DigitChar(d: nat): (c: char)
    requires d < 10
    ensures IsDigit(c) && DigitValue(c) == d
  {
    ('0' as int + d) as char
  }

  /** The number written by a string of decimal digits, most significant first. */
  function DigitsValue(ds: string): nat
    requires AllDigits(ds)
  {
    if ds == [] then 0 else DigitsValue(ds[..|ds| - 1]) * 10 + DigitValue(ds[|ds| - 1])
  }

  /**
   * `u16::from_str`: an optional leading '+' (a '-' is refused, the type being
   * unsigned), then one or more ASCII digits whose value is at most 65535.
   */
  function ParseU16(s: string): (r: Option<nat>)
    ensures r.Some? ==> r.value <= MaxU16
  {
    var digits := if |s| > 0 && s[0] == '+' then s[1..] else s;
    if digits == [] || !AllDigits(digits) then None
    else if DigitsValue(digits) <= MaxU16 then Some(DigitsValue(digits))
    else None
  }

  /** The decimal rendering of `n`, with no leading zero. */
  function Decimal(n: nat): (s: string)
    ensures s != [] && AllDigits(s)
    ensures DigitsValue(s) == n
  {
    if n < 10 then [DigitChar(n)]
    else
      var s := Decimal(n / 10) + [DigitChar(n % 10)];
      assert s[..|s| - 1] == Decimal(n / 10);
      s
  }

  /** Parsing is the inverse of printing, exactly for the values a `u16` holds. */
  lemma ParseDecimal(n: nat)
    ensures ParseU16(Decimal(n)) == (if n <= MaxU16 then Some(n) else None)
    ensures ParseU16("+" + Decimal(n)) == ParseU16(Decimal(n))
  {
    var s := Decimal(n);
    assert s[0] != '+' by { assert IsDigit(s[0]); }
    assert ("+" + s)[1..] == s;
  }

  /** A successful parse read an optional '+' and then only digits, whose value it returns. */
  lemma ParseU16Accepts(s: string)
    requires ParseU16(s).Some?
    ensures var digits := if s[0] == '+' then s[1..] else s;
      digits != [] && AllDigits(digits) && DigitsValue(digits) == ParseU16(s).value
  {
  }

  /** A '-' sign, or anything that is not a digit after the optional '+', makes the parse fail. */
  lemma ParseU16Rejects(s: string, i: nat)
    requires i < |s| && !IsDigit(s[i]) && !(i == 0 && s[0] == '+')
    ensures ParseU16(s) == None
  {
    if |s| > 0 && s[0] == '+' {
      assert s[1..][i - 1] == s[i];
    }
  }

  /** The port the server listens on, given the `PORT` value (None when unset or not Unicode). */
  function SelectPort(env: Option<string>): (port: nat)
    ensures port <= MaxU16
    ensures env.Some? && ParseU16(Trim(env.value)).Some? ==> port == ParseU16(Trim(env.value)).value
    ensures env.None? || ParseU16(Trim(env.value)).None? ==> port == DefaultPort
  {
    match env
    case None => DefaultPort
    case Some(s) => ParseU16(Trim(s)).UnwrapOr(DefaultPort)
  }

  /** A `PORT` that is a number up to 65535, padded with white space, selects that number. */
  lemma SelectPortOfPaddedNumber(before: string, n: nat, after: string)
    requires forall i :: 0 <= i < |before| ==> IsWhiteSpace(before[i])
    requires forall i :: 0 <= i < |after| ==> IsWhiteSpace(after[i])
    ensures SelectPort(Some(before + Decimal(n) + after)) == if n <= MaxU16 then n else DefaultPort
  {
    var s := Decimal(n);
    assert Trimmed(s) by {
      assert IsDigit(s[0]) && IsDigit(s[|s| - 1]);
    }
    TrimPadded(before, s, after);
    ParseDecimal(n);
  }
}
