/** Integers of one to eight bytes in either byte order (tlv/src/endian.c). */
module Endian {
  import opened Tlv

  datatype Order = BigEndian | LittleEndian | OtherOrder

  function Power(width: nat): (p: nat)
    ensures p > 0
  {
    if width == 0 then 1 else 256 * Power(width - 1)
  }

  /** What bytes mean, most significant first. */
  function Value(data: bytes): nat {
    if data == [] then 0 else Value(data[..|data| - 1]) * 256 + data[|data| - 1] as int
  }

  function Reverse(data: bytes): (r: bytes)
    ensures |r| == |data| && forall i :: 0 <= i < |r| ==> r[i] == data[|data| - 1 - i]
  {
    if data == [] then [] else [data[|data| - 1]] + Reverse(data[..|data| - 1])
  }

  /** What bytes mean in an order. */
  function Meaning(data: bytes, order: Order): nat {
    if order.LittleEndian? then Value(Reverse(data)) else Value(data)
  }

  lemma {:induction false} ValueBound(data: bytes)
    ensures Value(data) < Power(|data|)
  {
    if data != [] {
      ValueBound(data[..|data| - 1]);
    }
  }

  lemma {:induction false} ValueIsInjective(a: bytes, b: bytes)
    requires |a| == |b| && Value(a) == Value(b)
    ensures a == b
    decreases |a|
  {
    if a != [] {
      ValueIsInjective(a[..|a| - 1], b[..|b| - 1]);
      assert a == a[..|a| - 1] + [a[|a| - 1]] && b == b[..|b| - 1] + [b[|b| - 1]];
    }
  }

  /** Different bytes of one width mean different numbers. */
  lemma MeaningIsInjective(a: bytes, b: bytes, order: Order)
    requires |a| == |b| && Meaning(a, order) == Meaning(b, order)
    ensures a == b
  {
    if order.LittleEndian? {
      ValueIsInjective(Reverse(a), Reverse(b));
      forall i | 0 <= i < |a|
        ensures a[i] == b[i]
      {
        assert Reverse(a)[|a| - 1 - i] == Reverse(b)[|a| - 1 - i];
      }
    } else {
      ValueIsInjective(a, b);
    }
  }

  /** The first byte counts most in one order and least in the other. */
  lemma FirstByteCounts(data: bytes)
    requires data != []
    ensures Meaning(data, BigEndian) == data[0] * Power(|data| - 1) + Value(data[1..])
    ensures Meaning(data, LittleEndian) == data[0] + 256 * Meaning(data[1..], LittleEndian)
  {
    FromFront(data);
    ReversedFront(data);
    hide Power, Reverse, Value;
  }

  lemma ReversedFront(data: bytes)
    requires data != []
    ensures Value(Reverse(data)) == Value(Reverse(data[1..])) * 256 + data[0] as int
  {
    hide Reverse;
    var r := Reverse(data);
    assert r[|r| - 1] == data[0] && r[..|r| - 1] == Reverse(data[1..]);
  }

  lemma {:induction false} FromFront(data: bytes)
    requires data != []
    ensures Value(data) == data[0] * Power(|data| - 1) + Value(data[1..])
    decreases |data|
  {
    var n := |data|;
    if n == 1 {
      assert data[..0] == [] && data[1..] == [];
    } else {
      FromFront(data[..n - 1]);
      assert data[..n - 1][1..] == data[1..][..n - 2] && data[1..][n - 2] == data[n - 1];
      assert data[0] * (256 * Power(n - 2)) == 256 * (data[0] * Power(n - 2));
    }
  }

  lemma PowerBound(width: nat)
    requires width <= 8
    ensures Power(width) <= U64_MAX + 1 && (width == 8 ==> Power(width) == U64_MAX + 1)
  {
    assert Power(2) == 0x1_0000;
    assert Power(4) == 0x1_0000_0000;
    assert Power(6) == 0x1_0000_0000_0000;
    assert Power(8) == 0x1_0000_0000_0000_0000;
    if width < 8 {
      PowerGrows(width, 8);
    }
  }

  lemma {:induction false} PowerGrows(a: nat, b: nat)
    requires a <= b
    ensures Power(a) <= Power(b)
  {
    if a < b {
      PowerGrows(a, b - 1);
    }
  }

  /** tlv_read_uint. */
  method ReadUint(data: bytes, width: nat, order: Order) returns (rc: Status, value: u64)
    requires 1 <= width <= 8 ==> width <= |data|
    ensures rc == if width == 0 || width > 8 then ErrInvalidLength else if order.OtherOrder? then ErrInvalidArg else Ok
    ensures rc == Ok ==> value == Meaning(data[..width], order)
  {
    value := 0;
    if width == 0 || width > 8 {
      return ErrInvalidLength, 0;
    }
    if order.OtherOrder? {
      return ErrInvalidArg, 0;
    }
    ghost var wire := if order.LittleEndian? then Reverse(data[..width]) else data[..width];
    for i := 0 to width
      invariant value == Value(wire[..i])
    {
      var index := if order.BigEndian? then i else width - 1 - i;
      assert wire[..i + 1][..i] == wire[..i] && wire[i] == data[index];
      ValueBound(wire[..i + 1]);
      PowerBound(i + 1);
      value := value * 256 % (U64_MAX + 1) + data[index] as int;
    }
    assert wire[..width] == wire;
    return Ok, value;
  }

  /** tlv_write_uint at the front of a buffer: all of the value, or nothing is written. */
  method WriteUint(data: array<byte>, width: nat, order: Order, value: u64) returns (rc: Status)
    requires 1 <= width <= 8 ==> width <= data.Length
    modifies data
    ensures rc == if width == 0 || width > 8 then ErrInvalidLength else if order.OtherOrder? then ErrInvalidArg
                  else if value >= Power(width) then ErrOverflow else Ok
    ensures rc != Ok ==> data[..] == old(data[..])
    ensures rc == Ok ==> Meaning(data[..width], order) == value && data[width..] == old(data[width..])
  {
    if width == 0 || width > 8 {
      return ErrInvalidLength;
    }
    if order.OtherOrder? {
      return ErrInvalidArg;
    }
    PowerBound(width);
    if width < 8 && value / Power(width) != 0 {
      QuotientIsZero(value, Power(width));
      return ErrOverflow;
    }
    QuotientIsZero(value, Power(width));
    PlaceBytes(data, width, order.LittleEndian?, value);
    return Ok;
  }

  /** The write loop: the low byte goes to the next index of the order, the rest is shifted down. */
  method PlaceBytes(data: array<byte>, width: nat, little: bool, value: nat)
    requires width <= data.Length && value < Power(width)
    modifies data
    ensures Meaning(data[..width], if little then LittleEndian else BigEndian) == value
    ensures data[width..] == old(data[width..])
  {
    var rest: nat := value;
    ghost var tail: bytes := [];
    for i := 0 to width
      invariant |tail| == i && rest < Power(width - i)
      invariant rest * Power(i) + Value(tail) == value
      invariant forall k :: 0 <= k < i ==> tail[k] == data[if little then i - 1 - k else width - i + k]
      invariant data[width..] == old(data[width..])
    {
      Peel(rest, tail, value, width - i - 1);
      var index := if little then i else width - 1 - i;
      data[index] := rest % 256;
      tail := [rest % 256] + tail;
      rest := rest / 256;
    }
    if little {
      assert Reverse(data[..width]) == tail;
    } else {
      assert data[..width] == tail;
    }
  }

  lemma Peel(rest: nat, tail: bytes, value: nat, above: nat)
    requires rest * Power(|tail|) + Value(tail) == value && rest < Power(above + 1)
    ensures rest / 256 * Power(|tail| + 1) + Value([rest % 256] + tail) == value
    ensures rest / 256 < Power(above)
  {
    var low: byte := rest % 256;
    var h, p := rest / 256, Power(|tail|);
    Prepend(low, tail);
    assert rest == h * 256 + low as int;
    assert (h * 256 + low as int) * p == h * (256 * p) + low as int * p;
  }

  lemma QuotientIsZero(value: nat, p: nat)
    requires p > 0
    ensures value / p == 0 <==> value < p
  {
  }

  lemma {:induction false} Prepend(low: byte, tail: bytes)
    ensures Value([low] + tail) == low as int * Power(|tail|) + Value(tail)
  {
    var all := [low] + tail;
    if tail == [] {
      assert all[..0] == [];
    } else {
      var t := tail[..|tail| - 1];
      Prepend(low, t);
      assert all[..|all| - 1] == [low] + t;
      assert (low as int * Power(|t|)) * 256 == low as int * (256 * Power(|t|));
    }
  }

  // ----- The fixed-width forms -----

  function U16BE(d: bytes): nat
    requires |d| >= 2
  {
    d[0] as int * 256 + d[1] as int
  }

  function U16LE(d: bytes): nat
    requires |d| >= 2
  {
    d[0] as int + d[1] as int * 256
  }

  function U32BE(d: bytes): nat
    requires |d| >= 4
  {
    d[0] as int * 0x100_0000 + d[1] as int * 0x1_0000 + d[2] as int * 256 + d[3] as int
  }

  function U32LE(d: bytes): nat
    requires |d| >= 4
  {
    d[0] as int + d[1] as int * 256 + d[2] as int * 0x1_0000 + d[3] as int * 0x100_0000
  }

  type u16 = n: nat | n < 0x1_0000
  type u32 = n: nat | n < 0x1_0000_0000

  function BytesU16BE(v: u16): bytes {
    [v / 256, v % 256]
  }

  function BytesU16LE(v: u16): bytes {
    [v % 256, v / 256]
  }

  function BytesU32BE(v: u32): bytes {
    [v / 0x100_0000, v / 0x1_0000 % 256, v / 256 % 256, v % 256]
  }

  function BytesU32LE(v: u32): bytes {
    [v % 256, v / 256 % 256, v / 0x1_0000 % 256, v / 0x100_0000]
  }

  /** tlv_write_u16_be. */
  method WriteU16BE(data: array<byte>, value: u16)
    requires data.Length >= 2
    modifies data
    ensures Meaning(data[..2], BigEndian) == value && data[2..] == old(data[2..])
  {
    data[0] := value / 256;
    data[1] := value % 256;
    assert data[..2] == BytesU16BE(value);
    FixedWritesAgree(value, 0);
  }

  /** tlv_write_u16_le. */
  method WriteU16LE(data: array<byte>, value: u16)
    requires data.Length >= 2
    modifies data
    ensures Meaning(data[..2], LittleEndian) == value && data[2..] == old(data[2..])
  {
    data[0] := value % 256;
    data[1] := value / 256;
    assert data[..2] == BytesU16LE(value);
    FixedWritesAgree(value, 0);
  }

  /** tlv_write_u32_be. */
  method WriteU32BE(data: array<byte>, value: u32)
    requires data.Length >= 4
    modifies data
    ensures Meaning(data[..4], BigEndian) == value && data[4..] == old(data[4..])
  {
    data[0] := value / 0x100_0000;
    data[1] := value / 0x1_0000 % 256;
    data[2] := value / 256 % 256;
    data[3] := value % 256;
    assert data[..4] == BytesU32BE(value);
    FixedWritesAgree(0, value);
  }

  /** tlv_write_u32_le. */
  method WriteU32LE(data: array<byte>, value: u32)
    requires data.Length >= 4
    modifies data
    ensures Meaning(data[..4], LittleEndian) == value && data[4..] == old(data[4..])
  {
    data[0] := value % 256;
    data[1] := value / 256 % 256;
    data[2] := value / 0x1_0000 % 256;
    data[3] := value / 0x100_0000;
    assert data[..4] == BytesU32LE(value);
    FixedWritesAgree(0, value);
  }

  /** The fixed write forms place the bytes that denote the value, as the general writer does. */
  lemma FixedWritesAgree(v: u16, w: u32)
    ensures Meaning(BytesU16BE(v), BigEndian) == v && Meaning(BytesU16LE(v), LittleEndian) == v
    ensures Meaning(BytesU32BE(w), BigEndian) == w && Meaning(BytesU32LE(w), LittleEndian) == w
  {
    Value2(v / 256, v % 256);
    assert Reverse(BytesU16LE(v)) == BytesU16BE(v);
    var a, b, c, d := w / 0x100_0000, w / 0x1_0000 % 256, w / 256 % 256, w % 256;
    Value4(a, b, c, d);
    assert Reverse(BytesU32LE(w)) == BytesU32BE(w);
    assert w / 0x1_0000 == a * 256 + b && w / 256 == (w / 0x1_0000) * 256 + c;
  }

  lemma Value2(a: byte, b: byte)
    ensures Value([a, b]) == a as int * 256 + b as int
  {
    assert [a][..0] == [] && Value([a]) == a as int;
    assert [a, b][..1] == [a];
  }

  lemma Value4(a: byte, b: byte, c: byte, d: byte)
    ensures Value([a, b, c, d]) == a as int * 0x100_0000 + b as int * 0x1_0000 + c as int * 256 + d as int
  {
    assert [a, b, c, d][..3] == [a, b, c] && [a, b, c][..2] == [a, b];
    Value2(a, b);
  }

  /** The fixed forms read the same numbers as the general reader. */
  lemma FixedFormsAgree(d: bytes)
    requires |d| >= 4
    ensures U16BE(d) == Meaning(d[..2], BigEndian) && U16LE(d) == Meaning(d[..2], LittleEndian)
    ensures U32BE(d) == Meaning(d[..4], BigEndian) && U32LE(d) == Meaning(d[..4], LittleEndian)
  {
    assert d[..2] == [d[0], d[1]] && Reverse(d[..2]) == [d[1], d[0]];
    assert d[..4] == [d[0], d[1], d[2], d[3]] && Reverse(d[..4]) == [d[3], d[2], d[1], d[0]];
    Value2(d[0], d[1]);
    Value2(d[1], d[0]);
    Value4(d[0], d[1], d[2], d[3]);
    Value4(d[3], d[2], d[1], d[0]);
  }
}
