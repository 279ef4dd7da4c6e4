/** The few JavaScript built-ins the dictionary core relies on:
    String.prototype.toLowerCase, String.prototype.trim, Math.min,
    the bytes of a Uint8Array, and the decimal rendering of a number. */
module JsBuiltins {

  /** One element of a Uint8Array. */
  newtype byte = x: int | 0 <= x < 256

  datatype Option<+T> = None | Some(value: T)

  /** A value, or the message of the Error thrown instead. */
  datatype Result<+T> = Ok(value: T) | Err(message: string)

  /** Math.min on two reals (the percent formula never sees NaN here). */
  function MinReal(a: real, b: real): (r: real)
    ensures r <= a && r <= b
    ensures r == a || r == b
  {
    if a <= b then a else b
  }

  // ---------------------------------------------------------------------
  // toLowerCase

  /** Case folding of one character; only the ASCII letters A-Z are mapped. */
  function LowerChar(c: char): (d: char)
    ensures 'A' <= c <= 'Z' ==> d as int == c as int + 32
    ensures !('A' <= c <= 'Z') ==> d == c
  {
    if 'A' <= c <= 'Z' then (c as int + 32) as char else c
  }

  /** String.prototype.toLowerCase, character by character. */
  function Lower(s: string): (r: string)
    ensures |r| == |s|
    ensures forall i :: 0 <= i < |s| ==> r[i] == LowerChar(s[i])
  {
    if s == [] then [] else [LowerChar(s[0])] + Lower(s[1..])
  }

  /** Lower-casing twice is lower-casing once: a lower-cased key is stable. */
  lemma LowerIdempotent(s: string)
    ensures Lower(Lower(s)) == Lower(s)
  {
    var l := Lower(s);
    assert forall i :: 0 <= i < |l| ==> LowerChar(l[i]) == l[i];
  }

  /** Two strings that differ only in ASCII letter case lower-case alike. */
  lemma LowerIgnoresAsciiCase(s: string, t: string)
    requires |s| == |t|
    requires forall i :: 0 <= i < |s| ==> LowerChar(s[i]) == LowerChar(t[i])
    ensures Lower(s) == Lower(t)
  {
  }

  // ---------------------------------------------------------------------
  // trim

  /** The characters String.prototype.trim removes: the WhiteSpace and
      LineTerminator code points of the ECMAScript grammar. */
  predicate IsJsWhitespace(c: char)
  {
    var n := c as int;
    n == 0x09 || n == 0x0A || n == 0x0B || n == 0x0C || n == 0x0D || n == 0x20 ||
    n == 0xA0 || n == 0x1680 || (0x2000 <= n <= 0x200A) || n == 0x2028 ||
    n == 0x2029 || n == 0x202F || n == 0x205F || n == 0x3000 || n == 0xFEFF
  }

  function TrimStart(s: string): (r: string)
  {
    if s != [] && IsJsWhitespace(s[0]) then TrimStart(s[1..]) else s
  }

  function TrimEnd(s: string): (r: string)
  {
    if s != [] && IsJsWhitespace(s[|s| - 1]) then TrimEnd(s[..|s| - 1]) else s
  }

  /** String.prototype.trim. */
  function Trim(s: string): (r: string)
  {
    TrimEnd(TrimStart(s))
  }

  /** `!query.trim()` holds exactly when the query is empty or all whitespace. */
  predicate IsBlank(s: string)
  {
    Trim(s) == ""
  }

  /** trimStart of an all-whitespace string is empty. */
  lemma {:induction false} TrimStartOfWhitespace(s: string)
    requires forall i :: 0 <= i < |s| ==> IsJsWhitespace(s[i])
    ensures TrimStart(s) == []
  {
    if s != [] {
      TrimStartOfWhitespace(s[1..]);
    }
  }

  /** trimStart stops at the first character that is not whitespace. */
  lemma {:induction false} TrimStartStops(s: string, k: int)
    requires 0 <= k < |s| && !IsJsWhitespace(s[k])
    ensures TrimStart(s) != [] && !IsJsWhitespace(TrimStart(s)[0])
  {
    if IsJsWhitespace(s[0]) {
      TrimStartStops(s[1..], k - 1);
    }
  }

  /** trimEnd yields nothing only from an all-whitespace string. */
  lemma {:induction false} TrimEndEmpty(s: string)
    ensures TrimEnd(s) == [] <==> forall i :: 0 <= i < |s| ==> IsJsWhitespace(s[i])
  {
    if s != [] {
      var n := |s| - 1;
      TrimEndEmpty(s[..n]);
      if !IsJsWhitespace(s[n]) {
        assert TrimEnd(s) == s;
      }
    }
  }

  lemma BlankIffAllWhitespace(s: string)
    ensures IsBlank(s) <==> forall i :: 0 <= i < |s| ==> IsJsWhitespace(s[i])
  {
    if forall i :: 0 <= i < |s| ==> IsJsWhitespace(s[i]) {
      TrimStartOfWhitespace(s);
    } else {
      var k :| 0 <= k < |s| && !IsJsWhitespace(s[k]);
      TrimStartStops(s, k);
      TrimEndEmpty(TrimStart(s));
    }
  }

  // ---------------------------------------------------------------------
  // Number -> string

  function DigitChar(d: nat): (c: char)
    requires d < 10
    ensures '0' <= c <= '9'
  {
    ('0' as int + d) as char
  }

  /** The number a string of decimal digits spells, most significant first. */
  function DigitsValue(s: string): (v: int)
  {
    if s == [] then 0 else DigitsValue(s[..|s| - 1]) * 10 + (s[|s| - 1] as int - '0' as int)
  }

  /** The decimal rendering `'' + n` of a non-negative integer: digits that
      spell `n`, with no leading zero. */
  function NatToString(n: nat): (r: string)
    ensures r != []
    ensures forall i :: 0 <= i < |r| ==> '0' <= r[i] <= '9'
    ensures DigitsValue(r) == n
    ensures r[0] == '0' <==> n == 0
    ensures |r| == 1 <==> n < 10
  {
    if n < 10 then [DigitChar(n)] else NatToString(n / 10) + [DigitChar(n % 10)]
  }
}
