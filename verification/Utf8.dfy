/**
 * The streaming UTF-8 validator (tlv/src/utf8_internal.c). Mask tests on a byte are written
 * as divisions: (b & 0xE0) == 0xC0 is b / 32 == 6, and b & 0x3F is b % 64.
 */
module Utf8 {
  import opened Tlv

  // ----- RFC 3629, sections 3 and 4 -----

  type scalar = n: nat | n <= 0x10FFFF && !(0xD800 <= n <= 0xDFFF)

  /** The one encoding of a scalar value: as few octets as its range needs. */
  function Encode(cp: scalar): bytes {
    if cp < 0x80 then [cp]
    else if cp < 0x800 then [0xC0 + cp / 0x40, 0x80 + cp % 0x40]
    else if cp < 0x10000 then [0xE0 + cp / 0x1000, 0x80 + cp / 0x40 % 0x40, 0x80 + cp % 0x40]
    else [0xF0 + cp / 0x40000, 0x80 + cp / 0x1000 % 0x40, 0x80 + cp / 0x40 % 0x40, 0x80 + cp % 0x40]
  }

  function EncodeAll(cps: seq<scalar>): bytes {
    if cps == [] then [] else Encode(cps[0]) + EncodeAll(cps[1..])
  }

  // ----- One byte at a time -----

  predicate Continuation(b: byte) {
    b / 64 == 2
  }

  /** Octets announced by a leading byte; none for a byte that cannot lead. */
  function Announced(b: byte): nat {
    if b < 0x80 then 1
    else if b / 32 == 6 then 2
    else if b / 16 == 14 then 3
    else if b / 8 == 30 then 4
    else 0
  }

  function LeadBits(b: byte): nat {
    if b / 32 == 6 then b % 32 else if b / 16 == 14 then b % 16 else b % 8
  }

  function Minimum(b: byte): nat {
    if b / 32 == 6 then 0x80 else if b / 16 == 14 then 0x800 else 0x10000
  }

  /** The number collected so far: leading bits, then six bits a continuation. */
  function Assembled(collected: bytes): nat
    requires collected != []
  {
    if |collected| == 1 then LeadBits(collected[0])
    else Assembled(collected[..|collected| - 1]) * 64 + collected[|collected| - 1] % 64
  }

  predicate Admissible(collected: bytes)
    requires collected != []
  {
    var cp := Assembled(collected);
    Minimum(collected[0]) <= cp <= 0x10FFFF && !(0xD800 <= cp <= 0xDFFF)
  }

  /** Bytes of an unfinished character; none between characters. */
  type Pending = p: bytes |
      p == [] || (|p| < Announced(p[0]) && forall i :: 0 < i < |p| ==> Continuation(p[i]))

  function Step(p: Pending, b: byte): Option<Pending> {
    if p == [] then
      if Announced(b) == 0 then None else if Announced(b) == 1 then Some([]) else Some([b])
    else if !Continuation(b) then None
    else
      var collected := p + [b];
      if |collected| < Announced(p[0]) then Some(collected)
      else if Admissible(collected) then Some([])
      else None
  }

  function Run(p: Pending, value: bytes): Option<Pending>
    decreases |value|
  {
    if value == [] then Some(p)
    else
      match Step(p, value[0])
      case None => None
      case Some(q) => Run(q, value[1..])
  }

  // ----- The validator -----

  class Stream {
    const pending: array<byte>
    var length: nat
    var need: nat

    ghost predicate Valid()
      reads this, pending
    {
      && pending.Length == 4 && length <= 4
      && (need == 0 ==> length == 0)
      && (need != 0 ==> 0 < length < need == Announced(pending[0]) <= 4)
      && forall i :: 0 < i < length ==> Continuation(pending[i])
    }

    ghost function State(): Pending
      requires Valid()
      reads this, pending
    {
      pending[..length]
    }

    constructor ()
      ensures Valid() && State() == [] && fresh(pending)
    {
      pending := new byte[4](i => 0);
      length, need := 0, 0;
    }

    /** utf8_stream_finish_codepoint. */
    method FinishCodepoint() returns (ok: bool)
      requires pending.Length == 4 && 1 < need == Announced(pending[0]) <= 4
      ensures ok <==> Admissible(pending[..need])
    {
      var b0 := pending[0];
      var cp: nat, min;
      if b0 / 32 == 6 {
        cp, min := b0 % 32, 0x80;
      } else if b0 / 16 == 14 {
        cp, min := b0 % 16, 0x800;
      } else {
        cp, min := b0 % 8, 0x10000;
      }
      for k := 1 to need
        invariant cp == Assembled(pending[..k])
      {
        assert pending[..k + 1][..k] == pending[..k];
        cp := cp * 64 + pending[k] % 64;
      }
      return !(cp < min || cp > 0x10FFFF || 0xD800 <= cp <= 0xDFFF);
    }

    /** Start a character with its leading byte, or refuse a byte that cannot lead. */
    method Lead(b0: byte) returns (ok: bool)
      requires Valid() && need == 0
      modifies this, pending
      ensures ok <==> Step([], b0).Some?
      ensures ok ==> Valid() && State() == Step([], b0).value
    {
      if b0 < 0x80 {
        return true;
      }
      var extra: nat;
      if b0 / 32 == 6 {
        extra := 1;
      } else if b0 / 16 == 14 {
        extra := 2;
      } else if b0 / 8 == 30 {
        extra := 3;
      } else {
        return false;
      }
      pending[0] := b0;
      length := 1;
      need := 1 + extra;
      assert pending[..length] == [b0];
      return true;
    }

    /** Collect continuation bytes until the character or the input ends; finish a whole character. */
    method Collect(value: bytes, from: nat) returns (ok: bool, i: nat)
      requires Valid() && need != 0 && from < |value|
      modifies this, pending
      ensures ok ==> Valid() && from < i <= |value| && Run(State(), value[i..]) == Run(old(State()), value[from..])
      ensures !ok ==> Run(old(State()), value[from..]) == None
    {
      i := from;
      ghost var p := State();
      while length < need && i < |value|
        invariant from <= i <= |value| && pending.Length == 4 && 0 < length <= need == Announced(pending[0]) <= 4
        invariant need > 1 && forall k :: 0 < k < length ==> Continuation(pending[k])
        invariant i == from ==> length < need
        invariant length < need ==> Run(pending[..length], value[i..]) == Run(p, value[from..])
        invariant length == need ==>
          Run(p, value[from..]) == if Admissible(pending[..need]) then Run([], value[i..]) else None
        decreases |value| - i
      {
        var b := value[i];
        if b / 64 != 2 {
          return false, i;
        }
        ghost var before := pending[..length];
        pending[length] := b;
        length := length + 1;
        i := i + 1;
        assert pending[..length] == before + [b];
        assert value[i - 1..][1..] == value[i..];
      }
      if length == need {
        ok := FinishCodepoint();
        if !ok {
          return false, i;
        }
        length, need := 0, 0;
      }
      return true, i;
    }

    method Update(value: bytes) returns (ok: bool)
      requires Valid()
      modifies this, pending
      ensures ok <==> Run(old(State()), value).Some?
      ensures ok ==> Valid() && State() == Run(old(State()), value).value
    {
      var i := 0;
      while i < |value|
        invariant 0 <= i <= |value| && Valid()
        invariant Run(State(), value[i..]) == Run(old(State()), value)
      {
        if need == 0 {
          ok := Lead(value[i]);
          if !ok {
            return false;
          }
          assert value[i..][1..] == value[i + 1..];
          i := i + 1;
        } else {
          ok, i := Collect(value, i);
          if !ok {
            return false;
          }
        }
      }
      return true;
    }

    method Finish() returns (ok: bool)
      requires Valid()
      ensures ok <==> State() == []
    {
      return need == 0;
    }
  }

  predicate Accepts(value: bytes) {
    Run([], value) == Some([])
  }

  method Validate(value: bytes) returns (ok: bool)
    ensures ok <==> Accepts(value)
  {
    var state := new Stream();
    ok := state.Update(value);
    if ok {
      ok := state.Finish();
    }
  }

  // ----- Chunk boundaries do not matter -----

  lemma {:induction false} RunSplits(p: Pending, x: bytes, y: bytes)
    ensures Run(p, x + y) == match Run(p, x) case None => None case Some(q) => Run(q, y)
    decreases |x|
  {
    if x == [] {
      assert x + y == y;
    } else {
      assert (x + y)[1..] == x[1..] + y;
      if Step(p, x[0]).Some? {
        RunSplits(Step(p, x[0]).value, x[1..], y);
      }
    }
  }

  /** Feeding chunks one after another, as update calls do. */
  function RunChunks(p: Pending, chunks: seq<bytes>): Option<Pending>
    decreases |chunks|
  {
    if chunks == [] then Some(p)
    else
      match Run(p, chunks[0])
      case None => None
      case Some(q) => RunChunks(q, chunks[1..])
  }

  function Concat(chunks: seq<bytes>): bytes {
    if chunks == [] then [] else chunks[0] + Concat(chunks[1..])
  }

  /** The state after any split of a byte string is the state after the whole of it. */
  lemma {:induction false} ChunksAreOneRun(p: Pending, chunks: seq<bytes>)
    ensures RunChunks(p, chunks) == Run(p, Concat(chunks))
    decreases |chunks|
  {
    if chunks != [] {
      RunSplits(p, chunks[0], Concat(chunks[1..]));
      if Run(p, chunks[0]).Some? {
        ChunksAreOneRun(Run(p, chunks[0]).value, chunks[1..]);
      }
    }
  }

  /** Chunked validation, ended by finish, agrees with one-shot validation. */
  method ValidateChunks(chunks: seq<bytes>) returns (ok: bool)
    ensures ok <==> Accepts(Concat(chunks))
  {
    var state := new Stream();
    ok := true;
    var i := 0;
    while ok && i < |chunks|
      invariant 0 <= i <= |chunks|
      invariant ok ==> state.Valid() && RunChunks(state.State(), chunks[i..]) == RunChunks([], chunks)
      invariant !ok ==> RunChunks([], chunks) == None
      invariant fresh(state) && fresh(state.pending)
      decreases |chunks| - i, ok
    {
      assert chunks[i..][1..] == chunks[i + 1..];
      ok := state.Update(chunks[i]);
      i := i + 1;
    }
    ChunksAreOneRun([], chunks);
    if ok {
      ok := state.Finish();
    }
  }

  // ----- The accepted language -----

  lemma StepsThrough(p: Pending, b: byte, rest: bytes)
    ensures Run(p, [b] + rest) == match Step(p, b) case None => None case Some(q) => Run(q, rest)
  {
    assert ([b] + rest)[1..] == rest;
  }

  /** The leading octet's class, by its value. */
  lemma LeadClass(b: byte)
    ensures 0xC0 <= b < 0xE0 <==> Announced(b) == 2
    ensures 0xE0 <= b < 0xF0 <==> Announced(b) == 3
    ensures 0xF0 <= b < 0xF8 <==> Announced(b) == 4
    ensures Announced(b) == 2 ==> LeadBits(b) == b - 0xC0 && Minimum(b) == 0x80
    ensures Announced(b) == 3 ==> LeadBits(b) == b - 0xE0 && Minimum(b) == 0x800
    ensures Announced(b) == 4 ==> LeadBits(b) == b - 0xF0 && Minimum(b) == 0x10000
  {
  }

  lemma TailClass(b: byte)
    ensures Continuation(b) <==> 0x80 <= b < 0xC0
    ensures Continuation(b) ==> b % 64 == b - 0x80
  {
  }

  /** Well-formed octets standing for cp: announced length, continuations, value and range. */
  ghost predicate StandsFor(e: bytes, cp: nat) {
    && 2 <= |e| == Announced(e[0]) && Assembled(e) == cp && Admissible(e)
    && forall i :: 0 < i < |e| ==> Continuation(e[i])
  }

  lemma Encodes2(cp: scalar)
    requires 0x80 <= cp < 0x800
    ensures StandsFor(Encode(cp), cp)
  {
    var e := Encode(cp);
    LeadClass(e[0]);
    TailClass(e[1]);
    Assembles2(e[0], e[1]);
  }

  lemma Encodes3(cp: scalar)
    requires 0x800 <= cp < 0x10000
    ensures StandsFor(Encode(cp), cp)
  {
    var e := Encode(cp);
    Shape3(cp);
    LeadClass(e[0]);
    TailClass(e[1]);
    TailClass(e[2]);
    Assembles3(e[0], e[1], e[2]);
  }

  lemma Encodes4(cp: scalar)
    requires 0x10000 <= cp
    ensures StandsFor(Encode(cp), cp)
  {
    var e := Encode(cp);
    Shape4(cp);
    LeadClass(e[0]);
    TailClass(e[1]);
    TailClass(e[2]);
    TailClass(e[3]);
    Assembles4(e[0], e[1], e[2], e[3]);
  }

  /** Encoding then assembling gives the scalar value back, through well-shaped octets. */
  lemma EncodeAssembles(cp: scalar)
    requires cp >= 0x80
    ensures StandsFor(Encode(cp), cp)
  {
    if cp < 0x800 {
      Encodes2(cp);
    } else if cp < 0x10000 {
      Encodes3(cp);
    } else {
      Encodes4(cp);
    }
  }

  lemma Shape3(cp: nat)
    requires cp < 0x10000
    ensures (cp / 0x1000 * 64 + cp / 0x40 % 0x40) * 64 + cp % 0x40 == cp && cp / 0x1000 < 16
  {
    assert cp / 0x1000 == cp / 0x40 / 0x40;
  }

  lemma Shape4(cp: nat)
    requires cp < 0x110000
    ensures ((cp / 0x40000 * 64 + cp / 0x1000 % 0x40) * 64 + cp / 0x40 % 0x40) * 64 + cp % 0x40 == cp
    ensures cp / 0x40000 < 8
  {
    assert cp / 0x1000 == cp / 0x40 / 0x40;
    assert cp / 0x40000 == cp / 0x1000 / 0x40;
  }

  /** Stepping through the rest of a character whose first octets are pending. */
  lemma {:induction false} RunsThroughTail(e: bytes, k: nat, rest: bytes)
    requires 0 < k < |e| && |e| == Announced(e[0]) && Admissible(e)
    requires forall i :: 0 < i < |e| ==> Continuation(e[i])
    ensures Run(e[..k], e[k..] + rest) == Run([], rest)
    decreases |e| - k
  {
    assert e[k..] + rest == [e[k]] + (e[k + 1..] + rest);
    assert e[..k] + [e[k]] == e[..k + 1];
    StepsThrough(e[..k], e[k], e[k + 1..] + rest);
    if k + 1 < |e| {
      RunsThroughTail(e, k + 1, rest);
    } else {
      assert e[..k + 1] == e;
      assert e[k + 1..] + rest == rest;
    }
  }

  /** Reading one encoded scalar value leaves the validator between characters. */
  lemma RunsThroughOne(cp: scalar, rest: bytes)
    ensures Run([], Encode(cp) + rest) == Run([], rest)
  {
    var e := Encode(cp);
    assert e + rest == [e[0]] + (e[1..] + rest);
    StepsThrough([], e[0], e[1..] + rest);
    if |e| == 1 {
      assert e[1..] + rest == rest;
    } else {
      EncodeAssembles(cp);
      assert e[..1] == [e[0]];
      RunsThroughTail(e, 1, rest);
    }
  }

  lemma Assembles2(a: byte, b: byte)
    ensures Assembled([a, b]) == LeadBits(a) * 64 + b % 64
  {
    assert [a, b][..1] == [a];
  }

  lemma Assembles3(a: byte, b: byte, c: byte)
    ensures Assembled([a, b, c]) == (LeadBits(a) * 64 + b % 64) * 64 + c % 64
  {
    assert [a, b, c][..2] == [a, b];
    Assembles2(a, b);
  }

  lemma Assembles4(a: byte, b: byte, c: byte, d: byte)
    ensures Assembled([a, b, c, d]) == ((LeadBits(a) * 64 + b % 64) * 64 + c % 64) * 64 + d % 64
  {
    assert [a, b, c, d][..3] == [a, b, c];
    Assembles3(a, b, c);
  }

  /** A pending character in a string that ends well is completed by the bytes that follow it. */
  lemma {:induction false} Completes(p: Pending, value: bytes) returns (e: bytes)
    requires p != [] && Run(p, value) == Some([])
    ensures |p| < |e| == Announced(p[0]) && |e| <= |p| + |value| && e == p + value[..|e| - |p|]
    ensures Admissible(e) && (forall i :: 0 < i < |e| ==> Continuation(e[i]))
    ensures Accepts(value[|e| - |p|..])
    decreases |value|
  {
    var q := p + [value[0]];
    if |q| < Announced(p[0]) {
      e := Completes(q, value[1..]);
      var k := |e| - |q|;
      assert value[..k + 1] == [value[0]] + value[1..][..k];
      assert value[k + 1..] == value[1..][k..];
    } else {
      e := q;
      assert value[..1] == [value[0]];
    }
  }

  /** Well-shaped, admissible octets are the encoding of what they assemble to. */
  lemma AssembledEncodes(e: bytes)
    requires 2 <= |e| && StandsFor(e, Assembled(e))
    ensures Encode(Assembled(e)) == e
  {
    LeadClass(e[0]);
    if |e| == 2 {
      assert e == [e[0], e[1]];
      Rebuilds2(e[0], e[1]);
    } else if |e| == 3 {
      assert e == [e[0], e[1], e[2]];
      Rebuilds3(e[0], e[1], e[2]);
    } else {
      assert e == [e[0], e[1], e[2], e[3]];
      Rebuilds4(e[0], e[1], e[2], e[3]);
    }
  }

  lemma Rebuilds2(a: byte, b: byte)
    requires StandsFor([a, b], Assembled([a, b]))
    ensures Encode(Assembled([a, b])) == [a, b]
  {
    var e := [a, b];
    assert e[0] == a && e[1] == b;
    LeadClass(a);
    TailClass(b);
    Assembles2(a, b);
  }

  lemma Rebuilds3(a: byte, b: byte, c: byte)
    requires StandsFor([a, b, c], Assembled([a, b, c]))
    ensures Encode(Assembled([a, b, c])) == [a, b, c]
  {
    var e := [a, b, c];
    assert e[0] == a && e[1] == b && e[2] == c;
    LeadClass(a);
    TailClass(b);
    TailClass(c);
    Assembles3(a, b, c);
    Digits3(LeadBits(a), b % 64, c % 64);
  }

  lemma Rebuilds4(a: byte, b: byte, c: byte, d: byte)
    requires StandsFor([a, b, c, d], Assembled([a, b, c, d]))
    ensures Encode(Assembled([a, b, c, d])) == [a, b, c, d]
  {
    var e := [a, b, c, d];
    assert e[0] == a && e[1] == b && e[2] == c && e[3] == d;
    LeadClass(a);
    TailClass(b);
    TailClass(c);
    TailClass(d);
    Assembles4(a, b, c, d);
    Digits4(LeadBits(a), b % 64, c % 64, d % 64);
  }

  lemma Digits3(a: nat, b: nat, c: nat)
    requires b < 64 && c < 64
    ensures var cp := (a * 64 + b) * 64 + c; cp / 0x1000 == a && cp / 0x40 % 0x40 == b && cp % 0x40 == c
  {
  }

  lemma Digits4(a: nat, b: nat, c: nat, d: nat)
    requires b < 64 && c < 64 && d < 64
    ensures var cp := ((a * 64 + b) * 64 + c) * 64 + d;
      cp / 0x40000 == a && cp / 0x1000 % 0x40 == b && cp / 0x40 % 0x40 == c && cp % 0x40 == d
  {
    Digits3(a * 64 + b, c, d);
  }

  /** An accepted nonempty string begins with the encoding of a scalar value. */
  lemma BeginsWithScalar(value: bytes) returns (cp: scalar, rest: bytes)
    requires Accepts(value) && value != []
    ensures value == Encode(cp) + rest && Accepts(rest)
  {
    if Announced(value[0]) == 1 {
      cp, rest := value[0], value[1..];
    } else {
      var e := Completes([value[0]], value[1..]);
      AssembledEncodes(e);
      cp, rest := Assembled(e), value[|e|..];
      assert rest == value[1..][|e| - 1..];
      assert value == [value[0]] + value[1..][..|e| - 1] + value[1..][|e| - 1..];
    }
  }

  lemma {:induction false} EncodingsAreAccepted(cps: seq<scalar>)
    ensures Accepts(EncodeAll(cps))
  {
    if cps != [] {
      EncodingsAreAccepted(cps[1..]);
      RunsThroughOne(cps[0], EncodeAll(cps[1..]));
    }
  }

  lemma {:induction false} AcceptedAreEncodings(value: bytes) returns (cps: seq<scalar>)
    requires Accepts(value)
    ensures EncodeAll(cps) == value
    decreases |value|
  {
    if value == [] {
      return [];
    }
    var cp, rest := BeginsWithScalar(value);
    var others := AcceptedAreEncodings(rest);
    cps := [cp] + others;
  }

  /** Accepted strings are exactly the concatenations of shortest-form encodings of scalar values. */
  lemma AcceptsExactlyUtf8(value: bytes)
    ensures Accepts(value) <==> exists cps :: EncodeAll(cps) == value
  {
    if Accepts(value) {
      var cps := AcceptedAreEncodings(value);
    }
    forall cps | EncodeAll(cps) == value
      ensures Accepts(value)
    {
      EncodingsAreAccepted(cps);
    }
  }

  lemma SameFirst(a: scalar, b: scalar, x: bytes, y: bytes)
    requires Encode(a) + x == Encode(b) + y
    ensures a == b && x == y
  {
    var u, v := Encode(a), Encode(b);
    assert u[0] == (u + x)[0] == v[0];
    assert |u| == Announced(u[0]) == |v|;
    forall i | 0 <= i < |u|
      ensures u[i] == v[i]
    {
      assert (u + x)[i] == (v + y)[i];
    }
    assert u == v;
    assert (u + x)[|u|..] == x && (v + y)[|v|..] == y;
    SameEncoding(a, b);
  }

  lemma SameEncoding(a: scalar, b: scalar)
    requires Encode(a) == Encode(b)
    ensures a == b
  {
    if |Encode(a)| == 1 {
      assert Encode(a)[0] == Encode(b)[0];
    } else {
      EncodeAssembles(a);
      EncodeAssembles(b);
    }
  }

  /** The decomposition is unique. */
  lemma {:induction false} DecompositionIsUnique(a: seq<scalar>, b: seq<scalar>)
    requires EncodeAll(a) == EncodeAll(b)
    ensures a == b
  {
    if a != [] && b != [] {
      SameFirst(a[0], b[0], EncodeAll(a[1..]), EncodeAll(b[1..]));
      DecompositionIsUnique(a[1..], b[1..]);
    }
  }
}
