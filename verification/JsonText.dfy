/** The growing text buffer of bindings/wasm/src/opentlv_wasm.c and its JSON string literals. */
module JsonText {
  import opened Tlv

  // ----- The growing buffer -----

  /**
   * builder_t. Once an allocation failed, nothing is appended any more. Whether memory is granted is
   * any function of the request's number and size.
   */
  class Builder {
    var data: array<char>
    var size: nat
    var failed: bool
    const grants: (nat, nat) -> bool
    var requests: nat

    ghost predicate Valid()
      reads this, data
    {
      data.Length <= SIZE_MAX && ((data.Length == 0 && size == 0) || (size < data.Length && data[size] == '\0'))
    }

    ghost function Text(): string
      requires Valid()
      reads this, data
    {
      data[..size]
    }

    constructor (grants: (nat, nat) -> bool)
      ensures Valid() && !failed && Text() == "" && fresh(data) && this.grants == grants
    {
      data := new char[0];
      size, failed := 0, false;
      this.grants, requests := grants, 0;
    }

    /** Appending up to n characters in all may fail: memory is refused at times, or a size_t is too small. */
    ghost predicate Excused(n: nat) {
      n >= SIZE_MAX || exists k, size :: !grants(k, size)
    }

    /** The capacity asked for: at least 256, and twice the present one where that is more and does not wrap. */
    static function Asked(needed: nat, capacity: size_t): nat {
      var least := if needed < 256 then 256 else needed;
      if least < Twice(capacity) then Twice(capacity) else least
    }

    /** builder_reserve: room for `extra` more characters and a terminator, doubling where that does not wrap. */
    method Reserve(extra: nat)
      requires Valid()
      modifies this, data
      ensures Valid() && size == old(size) && Text() == old(Text())
      ensures old(failed) ==> failed
      ensures !failed ==> size + extra < data.Length
      ensures data == old(data) || fresh(data)
      ensures old(failed) || size + extra < old(data.Length) ==> data == old(data) && requests == old(requests)
      ensures !old(failed) && size + extra >= old(data.Length) ==>
        var asked := Asked(size + extra + 1, old(data.Length));
        && (failed <==> size + extra >= SIZE_MAX || !grants(old(requests), asked))
        && (!failed ==> data.Length == asked)
      ensures failed && !old(failed) ==> Excused(size + extra)
    {
      if failed {
        return;
      }
      if extra > SIZE_MAX - size - 1 {
        failed := true;
        return;
      }
      var needed := size + extra + 1;
      if needed <= data.Length {
        return;
      }
      needed := if needed < 256 then 256 else needed;
      var doubled := Twice(data.Length);
      if needed < doubled {
        needed := doubled;
      }
      requests := requests + 1;
      if !grants(requests - 1, needed) {
        failed := true;
        return;
      }
      var grown := new char[needed](_ => '\0');
      forall i | 0 <= i < size {
        grown[i] := data[i];
      }
      data := grown;
    }

    /** builder_append. */
    method Append(text: string)
      requires Valid()
      modifies this, data
      ensures Valid() && (old(failed) ==> failed)
      ensures Text() == if failed then old(Text()) else old(Text()) + text
      ensures failed && !old(failed) ==> Excused(|old(Text())| + |text|)
      ensures data == old(data) || fresh(data)
    {
      Reserve(|text|);
      if failed {
        return;
      }
      forall i | 0 <= i < |text| {
        data[size + i] := text[i];
      }
      size := size + |text|;
      data[size] := '\0';
    }

    /** builder_hex: two digits a byte, written in place after one reservation. */
    method AppendHex(data: bytes)
      requires Valid() && |data| <= SIZE_MAX / 2
      modifies this, this.data
      ensures Valid() && (old(failed) ==> failed)
      ensures !failed ==> Text() == old(Text()) + Hex(data)
      ensures failed && !old(failed) ==> Excused(|old(Text())| + |Hex(data)|)
      ensures this.data == old(this.data) || fresh(this.data)
    {
      HexRoomIsExact(|data|);
      Reserve(Twice(|data|));
      if failed {
        return;
      }
      ghost var before, done := Text(), "";
      assert Hex(data[..0]) == "";
      hide Hex, HexDigit;
      for i := 0 to |data|
        invariant size == |before| + 2 * i && |before| + 2 * |data| < this.data.Length <= SIZE_MAX
        invariant this.data == old(this.data) || fresh(this.data)
        invariant done == Hex(data[..i]) && this.data[..size] == before + done
        invariant !failed
      {
        var high, low := HexDigit(data[i] / 16), HexDigit(data[i] % 16);
        HexGrows(data, i);
        AppendPair(high, low);
        Regroup(before, done, [high, low]);
        done := done + [high, low];
      }
      assert data[..|data|] == data;
      Terminate();
    }

    method AppendPair(high: char, low: char)
      requires size + 2 < data.Length
      modifies this`size, data
      ensures size == old(size) + 2 && data[..size] == old(data[..size]) + [high, low]
    {
      data[size] := high;
      data[size + 1] := low;
      size := size + 2;
    }

    /** Write the terminator behind the text. */
    method Terminate()
      requires size < data.Length <= SIZE_MAX
      modifies data
      ensures Valid() && data[..size] == old(data[..size])
    {
      data[size] := '\0';
    }

    /** One character of a string literal. */
    method AppendEscaped(c: char)
      requires Valid()
      modifies this, data
      ensures Valid() && (old(failed) ==> failed)
      ensures !failed ==> Text() == old(Text()) + EscapedChar(c)
      ensures failed && !old(failed) ==> Excused(|old(Text())| + |EscapedChar(c)|)
      ensures data == old(data) || fresh(data)
    {
      if c < ' ' {
        Append("\\u00" + [HexDigit(c as nat / 16), HexDigit(c as nat % 16)]);
        return;
      }
      if c == '"' || c == '\\' {
        Append("\\");
      }
      Append([c]);
      assert ['\\'] + [c] == ['\\', c];
    }

    method AppendEscapedText(text: string)
      requires Valid()
      modifies this, data
      ensures Valid() && (old(failed) ==> failed)
      ensures !failed ==> Text() == old(Text()) + Escaped(text)
      ensures failed && !old(failed) ==> Excused(|old(Text())| + |Escaped(text)|)
      ensures data == old(data) || fresh(data)
    {
      ghost var before, done := Text(), "";
      for i := 0 to |text|
        invariant Valid() && (old(failed) ==> failed)
        invariant done == Escaped(text[..i]) && (!failed ==> Text() == before + done)
        invariant failed && !old(failed) ==> Excused(|before| + |done|)
        invariant data == old(data) || fresh(data)
      {
        AppendEscaped(text[i]);
        EscapedGrows(text, i);
        Regroup(before, done, EscapedChar(text[i]));
        done := done + EscapedChar(text[i]);
      }
      assert text[..|text|] == text;
    }

    /** builder_json_string. */
    method AppendJsonString(text: string)
      requires Valid()
      modifies this, data
      ensures Valid() && (old(failed) ==> failed)
      ensures !failed ==> Text() == old(Text()) + Quoted(text)
      ensures failed && !old(failed) ==> Excused(|old(Text())| + |Quoted(text)|)
      ensures data == old(data) || fresh(data)
    {
      ghost var before := Text();
      Append("\"");
      AppendEscapedText(text);
      Append("\"");
      Enclosed(before, "\"", Escaped(text), "\"");
    }

    method AppendPart(part: Part)
      requires Valid() && PartFits(part)
      modifies this, data
      ensures Valid() && (old(failed) ==> failed)
      ensures !failed ==> Text() == old(Text()) + Render(part)
      ensures failed && !old(failed) ==> Excused(|old(Text())| + |Render(part)|)
      ensures data == old(data) || fresh(data)
    {
      hide Hex, Quoted, Excused;
      match part {
        case Plain(text) => Append(text);
        case HexOf(bytes) => AppendHex(bytes);
        case StringOf(text) => AppendJsonString(text);
      }
    }

    /** Consecutive appends, each by the call that fits its part. */
    method AppendParts(parts: seq<Part>)
      requires Valid() && AllFit(parts)
      modifies this, data
      ensures Valid() && (old(failed) ==> failed)
      ensures !failed ==> Text() == old(Text()) + Rendered(parts)
      ensures failed && !old(failed) ==> Excused(|old(Text())| + |Rendered(parts)|)
      ensures data == old(data) || fresh(data)
    {
      ghost var before, done := Text(), "";
      for i := 0 to |parts|
        invariant Valid() && (old(failed) ==> failed)
        invariant !failed ==> Text() == before + done
        invariant done + Rendered(parts[i..]) == Rendered(parts)
        invariant failed && !old(failed) ==> Excused(|before| + |done|)
        invariant data == old(data) || fresh(data)
      {
        assert PartFits(parts[i]);
        AppendPart(parts[i]);
        assert parts[i..][1..] == parts[i + 1..];
        Regroup(done, Render(parts[i]), Rendered(parts[i + 1..]));
        Regroup(before, done, Render(parts[i]));
        done := done + Render(parts[i]);
      }
      assert done + "" == done;
    }
  }

  /** A size_t value times two, which wraps. */
  function Twice(n: size_t): size_t {
    if n * 2 <= SIZE_MAX then n * 2 else n * 2 - SIZE_MAX - 1
  }

  /** The room for two digits a byte is computed without wrapping exactly up to half of SIZE_MAX. */
  lemma HexRoomIsExact(length: size_t)
    ensures Twice(length) == length * 2 <==> length <= SIZE_MAX / 2
    ensures length > SIZE_MAX / 2 ==> Twice(length) < length
  {
  }

  /** Raw bytes short enough to be printed as digits. */
  predicate PartFits(p: Part) {
    p.HexOf? ==> |p.data| <= SIZE_MAX / 2
  }

  predicate AllFit(parts: seq<Part>) {
    forall i :: 0 <= i < |parts| ==> PartFits(parts[i])
  }

  datatype Part = Plain(text: string) | HexOf(data: bytes) | StringOf(text: string)

  function Render(p: Part): string {
    match p
    case Plain(text) => text
    case HexOf(data) => Hex(data)
    case StringOf(text) => Quoted(text)
  }

  function Rendered(parts: seq<Part>): string {
    if parts == [] then "" else Render(parts[0]) + Rendered(parts[1..])
  }

  lemma Regroup(a: string, b: string, c: string)
    ensures (a + b) + c == a + (b + c)
  {
  }

  lemma Enclosed(a: string, b: string, c: string, d: string)
    ensures ((a + b) + c) + d == a + (b + c + d)
  {
  }

  // ----- String literals, section 7 of RFC 8259 -----

  function HexDigit(n: nat): (c: char)
    requires n < 16
  {
    "0123456789ABCDEF"[n]
  }

  function Hex(data: bytes): (h: string)
    ensures |h| == 2 * |data|
  {
    if data == [] then "" else [HexDigit(data[0] / 16), HexDigit(data[0] % 16)] + Hex(data[1..])
  }

  lemma {:induction false} HexGrows(data: bytes, i: nat)
    requires i < |data|
    ensures Hex(data[..i + 1]) == Hex(data[..i]) + [HexDigit(data[i] / 16), HexDigit(data[i] % 16)]
  {
    if i == 0 {
      assert data[..1][1..] == [];
    } else {
      HexGrows(data[1..], i - 1);
      assert data[..i + 1][1..] == data[1..][..i] && data[..i][1..] == data[1..][..i - 1];
    }
  }

  /** Digits are upper-case, one pair a byte: the byte at i stands at 2 * i. */
  lemma {:induction false} HexPairs(data: bytes, i: nat)
    requires i < |data|
    ensures var digits := "0123456789ABCDEF";
      Hex(data)[2 * i] == digits[data[i] / 16] && Hex(data)[2 * i + 1] == digits[data[i] % 16]
  {
    if i > 0 {
      HexPairs(data[1..], i - 1);
      assert Hex(data)[2 * i] == Hex(data[1..])[2 * (i - 1)];
      assert Hex(data)[2 * i + 1] == Hex(data[1..])[2 * (i - 1) + 1];
    }
  }

  function HexValue(c: char): Option<nat> {
    if '0' <= c <= '9' then Some(c as nat - '0' as nat)
    else if 'A' <= c <= 'F' then Some(c as nat - 'A' as nat + 10)
    else if 'a' <= c <= 'f' then Some(c as nat - 'a' as nat + 10)
    else None
  }

  function EscapedChar(c: char): string {
    if c < ' ' then "\\u00" + [HexDigit(c as nat / 16), HexDigit(c as nat % 16)]
    else if c == '"' || c == '\\' then ['\\', c]
    else [c]
  }

  function Escaped(text: string): string {
    if text == "" then "" else EscapedChar(text[0]) + Escaped(text[1..])
  }

  function Quoted(text: string): string {
    "\"" + Escaped(text) + "\""
  }

  /** Text without quotation marks, backslashes and control characters stands for itself. */
  lemma {:induction false} PlainTextIsKept(text: string)
    requires forall i :: 0 <= i < |text| ==> text[i] >= ' ' && text[i] !in "\"\\"
    ensures Escaped(text) == text
  {
    if text != "" {
      assert text[0] >= ' ' && text[0] !in "\"\\";
      PlainTextIsKept(text[1..]);
      assert [text[0]] + text[1..] == text;
    }
  }

  /** No control character is left in a literal. */
  lemma {:induction false} NoControlIsLeft(text: string, i: nat)
    requires i < |Escaped(text)|
    ensures Escaped(text)[i] >= ' '
    decreases |text|
  {
    var first := EscapedChar(text[0]);
    assert forall k :: 0 <= k < |first| ==> first[k] >= ' ';
    if i >= |first| {
      NoControlIsLeft(text[1..], i - |first|);
    }
  }

  function Simple(c: char): Option<char> {
    match c
    case '"' => Some('"')
    case '\\' => Some('\\')
    case '/' => Some('/')
    case 'b' => Some(8 as char)
    case 'f' => Some(12 as char)
    case 'n' => Some('\n')
    case 'r' => Some('\r')
    case 't' => Some('\t')
    case _ => None
  }

  datatype Literal = Malformed | Literal(text: string, rest: string)

  /** A reader of string literals, from after the opening quote; escapes up to U+00FF only. */
  function Unescape(s: string): (r: Literal)
    ensures r.Literal? ==> |r.rest| < |s|
  {
    if s == "" || s[0] < ' ' then Malformed
    else if s[0] == '"' then Literal("", s[1..])
    else if s[0] != '\\' then Before(s[0], Unescape(s[1..]))
    else if |s| >= 2 && Simple(s[1]).Some? then Before(Simple(s[1]).value, Unescape(s[2..]))
    else if |s| >= 6 && s[1] == 'u' && s[2] == '0' && s[3] == '0' && HexValue(s[4]).Some? && HexValue(s[5]).Some? then
      Before((HexValue(s[4]).value * 16 + HexValue(s[5]).value) as char, Unescape(s[6..]))
    else Malformed
  }

  function Before(c: char, rest: Literal): Literal {
    if rest.Malformed? then Malformed else Literal([c] + rest.text, rest.rest)
  }

  function Unhex(t: string): Option<bytes> {
    if t == "" then Some([])
    else if |t| >= 2 && HexValue(t[0]).Some? && HexValue(t[1]).Some? && Unhex(t[2..]).Some? then
      Some([HexByte(t[0], t[1])] + Unhex(t[2..]).value)
    else None
  }

  function HexByte(high: char, low: char): byte
    requires HexValue(high).Some? && HexValue(low).Some?
  {
    HexValue(high).value * 16 + HexValue(low).value
  }

  /** Hexadecimal digits give their bytes back. */
  lemma {:induction false} UnhexInvertsHex(data: bytes)
    ensures Unhex(Hex(data)) == Some(data)
  {
    if data != [] {
      UnhexInvertsHex(data[1..]);
      HexRoundTrip(data[0] / 16);
      HexRoundTrip(data[0] % 16);
      UnhexPair(HexDigit(data[0] / 16), HexDigit(data[0] % 16), data[0], Hex(data[1..]), data[1..]);
      assert [data[0]] + data[1..] == data;
    }
  }

  lemma UnhexPair(high: char, low: char, b: byte, text: string, others: bytes)
    requires HexValue(high) == Some(b / 16) && HexValue(low) == Some(b % 16) && Unhex(text) == Some(others)
    ensures Unhex([high, low] + text) == Some([b] + others)
  {
    assert ([high, low] + text)[2..] == text;
  }

  /** Text that needs no escaping. */
  predicate Verbatim(t: string) {
    forall i :: 0 <= i < |t| ==> t[i] >= ' ' && t[i] != '"' && t[i] != '\\'
  }

  lemma {:induction false} VerbatimIsNotEscaped(t: string)
    requires Verbatim(t)
    ensures Escaped(t) == t
  {
    if t != "" {
      assert [t[0]] + t[1..] == t;
      VerbatimIsNotEscaped(t[1..]);
    }
  }

  lemma {:induction false} HexIsVerbatim(data: bytes)
    ensures Verbatim(Hex(data))
  {
    if data != [] {
      HexIsVerbatim(data[1..]);
    }
  }

  lemma HexRoundTrip(n: nat)
    requires n < 16
    ensures HexValue(HexDigit(n)) == Some(n)
  {
  }

  lemma {:induction false} EscapedGrows(text: string, i: nat)
    requires i < |text|
    ensures Escaped(text[..i + 1]) == Escaped(text[..i]) + EscapedChar(text[i])
  {
    if i == 0 {
      assert text[..1][1..] == "";
    } else {
      EscapedGrows(text[1..], i - 1);
      assert text[..i + 1][1..] == text[1..][..i] && text[..i][1..] == text[1..][..i - 1];
      Regroup(EscapedChar(text[0]), Escaped(text[1..][..i - 1]), EscapedChar(text[i]));
    }
  }

  lemma UnescapeControl(c: char, tail: string)
    requires c < ' '
    ensures Unescape(EscapedChar(c) + tail) == Before(c, Unescape(tail))
  {
    HexRoundTrip(c as nat / 16);
    HexRoundTrip(c as nat % 16);
    var s := EscapedChar(c) + tail;
    assert s[..6] == EscapedChar(c) && s[6..] == tail;
    assert s[0] == '\\' && s[1] == 'u' && s[2] == '0' && s[3] == '0';
    assert s[4] == HexDigit(c as nat / 16) && s[5] == HexDigit(c as nat % 16);
  }

  lemma UnescapeOther(c: char, tail: string)
    requires c >= ' '
    ensures Unescape(EscapedChar(c) + tail) == Before(c, Unescape(tail))
  {
    var s := EscapedChar(c) + tail;
    if c == '"' || c == '\\' {
      assert s[0] == '\\' && s[1] == c && s[2..] == tail;
    } else {
      assert s[0] == c && s[1..] == tail;
    }
  }

  /** Reading a quoted string gives the text back and stops right behind it. */
  lemma {:induction false} UnescapeInvertsQuoting(text: string, rest: string)
    ensures Unescape(Escaped(text) + "\"" + rest) == Literal(text, rest)
  {
    if text == "" {
      assert Escaped(text) + "\"" + rest == ['"'] + rest;
    } else {
      var c, tail := text[0], Escaped(text[1..]) + "\"" + rest;
      UnescapeInvertsQuoting(text[1..], rest);
      assert Escaped(text) + "\"" + rest == EscapedChar(c) + tail;
      if c < ' ' {
        UnescapeControl(c, tail);
      } else {
        UnescapeOther(c, tail);
      }
    }
  }
}
