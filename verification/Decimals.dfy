/** Exact 64-bit integers as decimal strings (the string path of bindings/lua/src/codec.c). */
module Decimals {
  import opened Tlv

  const INT64_MAX: int := 0x7FFF_FFFF_FFFF_FFFF

  predicate AllDigits(t: string) {
    forall c :: c in t ==> '0' <= c <= '9'
  }

  function DigitValue(c: char): nat {
    if '0' <= c <= '9' then c as nat - '0' as nat else 0
  }

  /** The number a digit string denotes, unbounded. */
  function ValueOf(t: string): nat {
    if t == "" then 0 else ValueOf(t[..|t| - 1]) * 10 + DigitValue(t[|t| - 1])
  }

  /** Shortest decimal digits, as printf writes them. */
  function Decimal(n: nat): (t: string)
    ensures t != "" && AllDigits(t)
  {
    if n < 10 then ["0123456789"[n]] else Decimal(n / 10) + ["0123456789"[n % 10]]
  }

  function Signed(n: int): string {
    if n < 0 then "-" + Decimal(-n) else Decimal(n)
  }

  lemma {:induction false} DecimalDenotes(n: nat)
    ensures ValueOf(Decimal(n)) == n
  {
    var t := Decimal(n);
    if n < 10 {
      assert t[..0] == "";
    } else {
      DecimalDenotes(n / 10);
      assert t[..|t| - 1] == Decimal(n / 10);
    }
  }

  lemma {:induction false} PrefixIsSmaller(t: string, k: nat)
    requires k <= |t|
    ensures ValueOf(t[..k]) <= ValueOf(t)
  {
    if k == |t| {
      assert t[..k] == t;
    } else {
      PrefixIsSmaller(t[..|t| - 1], k);
      assert t[..|t| - 1][..k] == t[..k];
    }
  }

  /** The comparison made before multiplying is the comparison after it. */
  lemma BoundTest(value: nat, digit: nat, limit: nat)
    requires digit < 10
    ensures (value > limit / 10 || (value == limit / 10 && digit > limit % 10)) <==> value * 10 + digit > limit
  {
  }

  lemma OneMoreDigit(digits: string, k: nat)
    requires k < |digits| && '0' <= digits[k] <= '9'
    ensures ValueOf(digits[..k + 1]) == ValueOf(digits[..k]) * 10 + (digits[k] as nat - '0' as nat)
  {
    assert digits[..k + 1][..k] == digits[..k];
  }

  datatype Magnitude = Invalid | Magnitude(value: u64, negative: bool)

  function Unsigned(text: string): string {
    if text != "" && text[0] == '-' then text[1..] else text
  }

  /**
   * magnitude: an optional minus sign and at least one digit, at most `limit`. No step of the
   * accumulation leaves the 64-bit range: the bound is checked before multiplying.
   */
  method ParseMagnitude(text: string, limit: u64) returns (m: Magnitude)
    ensures var digits := Unsigned(text);
      m.Magnitude? <==> digits != "" && AllDigits(digits) && ValueOf(digits) <= limit
    ensures m.Magnitude? ==> m.value == ValueOf(Unsigned(text)) && m.negative == (text != "" && text[0] == '-')
  {
    var negative, i := false, 0;
    if |text| > 0 && text[0] == '-' {
      negative, i := true, 1;
    }
    ghost var digits, start := Unsigned(text), i;
    if i == |text| {
      return Invalid;
    }
    var value: u64 := 0;
    while i < |text|
      invariant start <= i <= |text| && digits == text[start..]
      invariant value == ValueOf(digits[..i - start]) <= limit
      invariant forall k :: start <= k < i ==> '0' <= text[k] <= '9'
    {
      var c := text[i];
      assert c == digits[i - start];
      if !('0' <= c <= '9') {
        assert c in digits;
        return Invalid;
      }
      var digit := c as nat - '0' as nat;
      OneMoreDigit(digits, i - start);
      BoundTest(value, digit, limit);
      if value > limit / 10 || (value == limit / 10 && digit > limit % 10) {
        PrefixIsSmaller(digits, i + 1 - start);
        return Invalid;
      }
      value := value * 10 + digit;
      i := i + 1;
    }
    assert digits[..i - start] == digits;
    return Magnitude(value, negative);
  }

  /** opentlv_lua_codec_uint on a string; None stands for an argument error. */
  method ParseUnsigned(text: string, maximum: u64) returns (r: Option<u64>)
    ensures r.Some? <==> text != "" && AllDigits(text) && ValueOf(text) <= maximum
    ensures r.Some? ==> r.value == ValueOf(text)
  {
    var m := ParseMagnitude(text, maximum);
    assert text != "" ==> text[0] in text;
    if m.Invalid? || m.negative {
      return None;
    }
    return Some(m.value);
  }

  /** The number a signed decimal string denotes. */
  function SignedValue(text: string): int {
    if text != "" && text[0] == '-' then -(ValueOf(text[1..]) as int) else ValueOf(text)
  }

  /** opentlv_lua_codec_int on a string, for any bounds within int64. */
  method ParseSigned(text: string, minimum: int, maximum: int) returns (r: Option<int>)
    requires -INT64_MAX - 1 <= minimum && maximum <= INT64_MAX
    ensures r.Some? <==>
      Unsigned(text) != "" && AllDigits(Unsigned(text)) && minimum <= SignedValue(text) <= maximum
    ensures r.Some? ==> r.value == SignedValue(text)
  {
    var m := ParseMagnitude(text, 0x8000_0000_0000_0000);
    if m.Invalid? {
      return None;
    }
    var result: int;
    if m.negative {
      result := if m.value > 0 then -(m.value - 1) - 1 else 0;
    } else {
      if m.value > INT64_MAX {
        return None;
      }
      result := m.value;
    }
    if result < minimum || result > maximum {
      return None;
    }
    return Some(result);
  }

  /** Printing and parsing are inverse on every int64, its minimum included. */
  lemma SignedRoundTrip(n: int)
    ensures Unsigned(Signed(n)) != "" && AllDigits(Unsigned(Signed(n))) && SignedValue(Signed(n)) == n
  {
    DecimalDenotes(if n < 0 then -n else n);
    var t := Decimal(if n < 0 then -n else n);
    assert t[0] in t;
    if n < 0 {
      assert Signed(n)[1..] == t;
    }
  }
}
