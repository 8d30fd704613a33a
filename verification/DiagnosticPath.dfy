/** The bounded identifier path of tlv/src/diagnostic.c and its printed form. */
module DiagnosticPath {
  import opened Tlv
  import opened JsonText

  const MAX: nat := 32

  // ----- Printed form -----

  const SEPARATOR := " > "

  /** Uppercase hexadecimal identifiers, outermost first. */
  function TagsText(tags: seq<Tag>): string {
    if tags == [] then ""
    else TagsText(tags[..|tags| - 1]) + (if |tags| > 1 then SEPARATOR else "") + Hex(tags[|tags| - 1].Bytes())
  }

  function Suffix(length: nat, omitted: nat): string {
    if omitted == 0 then "" else if length > 0 then " > ..." else "..."
  }

  /** The text once i identifiers are out: a separator follows every one but the last. */
  ghost function Printed(kept: seq<Tag>, i: nat): string
    requires i <= |kept|
  {
    if 0 < i < |kept| then TagsText(kept[..i]) + SEPARATOR else TagsText(kept[..i])
  }

  lemma AllPrinted(kept: seq<Tag>)
    ensures Printed(kept, |kept|) == TagsText(kept)
  {
    assert kept[..|kept|] == kept;
  }

  lemma PrintedGrows(kept: seq<Tag>, i: nat)
    requires i < |kept|
    ensures Printed(kept, i) + Hex(kept[i].Bytes()) == TagsText(kept[..i + 1])
  {
    assert kept[..i + 1][..i] == kept[..i];
  }

  // ----- The bounded path as a view of a stack -----

  /** What the path holds: the kept identifiers and the count of omitted ones. */
  datatype View = View(kept: seq<Tag>, omitted: nat)

  /** The deepest stack whose omissions can still be counted. */
  const DEEPEST: nat := MAX + SIZE_MAX

  /** The outermost identifiers of a stack, and how many lie below them. */
  function Cut(stack: seq<Tag>): View {
    if |stack| <= MAX then View(stack, 0) else View(stack[..MAX], |stack| - MAX)
  }

  /** Descending into an element; a stack as deep as can be counted takes no more. */
  function Descend(stack: seq<Tag>, tag: Tag): seq<Tag> {
    if |stack| < DEEPEST then stack + [tag] else stack
  }

  /** Returning to the parent; at the outermost level there is none. */
  function Return(stack: seq<Tag>): seq<Tag> {
    if stack == [] then [] else stack[..|stack| - 1]
  }

  class Path {
    const tags: array<Tag>
    var length: nat
    var omitted: size_t

    ghost predicate Valid()
      reads this
    {
      tags.Length == MAX && length <= MAX && (omitted > 0 ==> length == MAX)
    }

    ghost function Now(): View
      requires Valid()
      reads this, tags
    {
      View(tags[..length], omitted)
    }

    constructor ()
      ensures Valid() && fresh(tags) && Now() == Cut([])
    {
      tags := new Tag[MAX](_ => Absent);
      length, omitted := 0, 0;
    }

    /** tlv_diagnostic_path_push, on whatever stack the path is a view of. */
    method Push(tag: Tag) returns (rc: Status)
      requires Valid()
      modifies this, tags
      ensures Valid() && forall stack :: old(Now()) == Cut(stack) ==> Now() == Cut(Descend(stack, tag))
      ensures rc == if |old(Now()).kept| < MAX then Ok else ErrBufferTooShort
    {
      if length > MAX {
        return ErrInvalidArg;
      }
      if length == MAX || omitted > 0 {
        if omitted != SIZE_MAX {
          omitted := omitted + 1;
        }
        return ErrBufferTooShort;
      }
      ghost var kept := tags[..length];
      tags[length] := tag;
      length := length + 1;
      assert tags[..length] == kept + [tag];
      return Ok;
    }

    /** tlv_diagnostic_path_pop. */
    method Pop()
      requires Valid()
      modifies this
      ensures Valid() && forall stack :: |stack| <= DEEPEST && old(Now()) == Cut(stack) ==> Now() == Cut(Return(stack))
    {
      if omitted > 0 {
        omitted := omitted - 1;
      } else if length > 0 {
        length := length - 1;
      }
    }

    /** Any sequence of pushes and pops: the path is a view of the stack they describe. */
    method Replay(steps: seq<Step>, ghost stack: seq<Tag>)
      requires Valid() && Now() == Cut(stack) && |stack| <= DEEPEST
      modifies this, tags
      ensures Valid() && Now() == Cut(Followed(stack, steps))
    {
      ghost var here := stack;
      for i := 0 to |steps|
        invariant Valid() && Now() == Cut(here) && |here| <= DEEPEST
        invariant Followed(here, steps[i..]) == Followed(stack, steps)
      {
        assert steps[i..][1..] == steps[i + 1..];
        match steps[i] {
          case Down(tag) =>
            var rc := Push(tag);
            here := Descend(here, tag);
          case Up =>
            Pop();
            here := Return(here);
        }
      }
    }

    ghost predicate Printable()
      requires Valid()
      reads this, tags
    {
      forall i :: 0 <= i < length ==> tags[i].Bytes() != []
    }

    ghost function Text(): string
      requires Valid()
      reads this, tags
    {
      TagsText(tags[..length]) + Suffix(length, omitted)
    }

    /** Write `text` behind `done` if it keeps room for a terminator; count it in any case. */
    method Emit(out: array<char>, ghost done: string, needed: nat, text: string) returns (total: nat)
      requires needed == |done| && (needed < out.Length ==> out[..needed] == done)
      modifies out
      ensures total == needed + |text| && (total < out.Length ==> out[..total] == done + text)
    {
      for k := 0 to |text|
        invariant needed + k < out.Length ==> out[..needed + k] == done + text[..k]
      {
        if needed + k + 1 < out.Length {
          out[needed + k] := text[k];
        }
      }
      assert text[..|text|] == text;
      return needed + |text|;
    }

    /** Two digits a byte, each pair only if it keeps room for a terminator. */
    method EmitHex(out: array<char>, ghost done: string, needed: nat, data: bytes) returns (total: nat)
      requires needed == |done| && (needed < out.Length ==> out[..needed] == done)
      modifies out
      ensures total == needed + 2 * |data| && (total < out.Length ==> out[..total] == done + Hex(data))
    {
      total := needed;
      ghost var text := done;
      for j := 0 to |data|
        invariant total == needed + 2 * j == |text| && text == done + Hex(data[..j])
        invariant total < out.Length ==> out[..total] == text
      {
        var high, low := HexDigit(data[j] / 16), HexDigit(data[j] % 16);
        HexGrows(data, j);
        Regroup(done, Hex(data[..j]), [high, low]);
        if total + 2 < out.Length {
          out[total] := high;
          out[total + 1] := low;
          assert out[..total + 2] == text + [high, low];
        }
        text := text + [high, low];
        total := total + 2;
      }
      assert data[..|data|] == data;
    }

    /** The identifiers, or false at the first empty one. */
    method PrintTags(out: array<char>) returns (ok: bool, n: nat)
      requires Valid()
      modifies out
      ensures ok <==> Printable()
      ensures ok ==> var text := TagsText(tags[..length]); n == |text| && (n < out.Length ==> out[..n] == text)
    {
      ghost var kept, text := tags[..length], "";
      n := 0;
      assert Printed(kept, 0) == "";
      hide TagsText, Printed;
      for i := 0 to length
        invariant kept == tags[..length] && text == Printed(kept, i)
        invariant n == |text| && (n < out.Length ==> out[..n] == text)
        invariant forall k :: 0 <= k < i ==> kept[k].Bytes() != []
      {
        assert kept[i] == tags[i];
        if |tags[i].Bytes()| == 0 {
          return false, n;
        }
        n := PrintOne(out, kept, i, tags[i].Bytes(), i + 1 < length, n);
        text := Printed(kept, i + 1);
      }
      AllPrinted(kept);
      assert forall k :: 0 <= k < length ==> tags[k] == kept[k];
      return true, n;
    }

    method PrintOne(out: array<char>, ghost kept: seq<Tag>, ghost i: nat, data: bytes, more: bool, n: nat)
      returns (total: nat)
      requires i < |kept| && data == kept[i].Bytes() && more == (i + 1 < |kept|)
      requires n == |Printed(kept, i)| && (n < out.Length ==> out[..n] == Printed(kept, i))
      modifies out
      ensures total == |Printed(kept, i + 1)| && (total < out.Length ==> out[..total] == Printed(kept, i + 1))
    {
      PrintedGrows(kept, i);
      total := EmitHex(out, Printed(kept, i), n, data);
      if more {
        total := Emit(out, TagsText(kept[..i + 1]), total, SEPARATOR);
      }
    }

    /** The identifiers and what stands for the omitted levels, or false at the first empty identifier. */
    method PrintAll(out: array<char>) returns (ok: bool, n: nat)
      requires Valid()
      modifies out
      ensures ok <==> Printable()
      ensures ok ==> n == |Text()| && (n < out.Length ==> out[..n] == Text())
    {
      hide TagsText, Printable;
      ok, n := PrintTags(out);
      if ok && omitted > 0 {
        n := Emit(out, TagsText(tags[..length]), n, if length > 0 then " > ..." else "...");
      }
    }

    /** tlv_diagnostic_path_string: the length is the same for every capacity. */
    method ToString(out: array<char>) returns (rc: Status, needed: Option<nat>)
      requires Valid()
      modifies out
      ensures rc == if !Printable() then ErrInvalidArg else if |Text()| + 1 <= out.Length then Ok else ErrBufferTooShort
      ensures Printable() ==> needed == Some(|Text()|)
      ensures rc == Ok ==> out[..|Text()|] == Text() && out[|Text()|] == '\0'
      ensures rc == ErrBufferTooShort && out.Length > 0 ==> out[0] == '\0'
    {
      hide TagsText, Suffix, Printable;
      var ok, n := PrintAll(out);
      if !ok {
        return ErrInvalidArg, None;
      }
      if n + 1 > out.Length {
        if out.Length > 0 {
          out[0] := '\0';
        }
        return ErrBufferTooShort, Some(n);
      }
      out[n] := '\0';
      return Ok, Some(n);
    }
  }

  // ----- Whole traversals -----

  datatype Step = Down(tag: Tag) | Up

  /** The stack after some steps, if no more than the deepest one can be counted. */
  function Followed(stack: seq<Tag>, steps: seq<Step>): seq<Tag>
    decreases |steps|
  {
    if steps == [] then stack
    else Followed(if steps[0].Down? then Descend(stack, steps[0].tag) else Return(stack), steps[1..])
  }

  /** The stack without any limit. */
  function Unbounded(stack: seq<Tag>, steps: seq<Step>): seq<Tag>
    decreases |steps|
  {
    if steps == [] then stack
    else Unbounded(if steps[0].Down? then stack + [steps[0].tag] else Return(stack), steps[1..])
  }

  /** No step descends below the deepest level that can be counted. */
  predicate Countable(depth: nat, steps: seq<Step>)
    decreases |steps|
  {
    if steps == [] then true
    else if steps[0].Down? then depth < DEEPEST && Countable(depth + 1, steps[1..])
    else Countable(if depth == 0 then 0 else depth - 1, steps[1..])
  }

  /** Until the count of omitted identifiers would overflow, the path is a view of the unbounded stack. */
  lemma {:induction false} TraversalsAreExact(stack: seq<Tag>, steps: seq<Step>)
    requires Countable(|stack|, steps)
    ensures Followed(stack, steps) == Unbounded(stack, steps)
    decreases |steps|
  {
    if steps != [] {
      TraversalsAreExact(if steps[0].Down? then stack + [steps[0].tag] else Return(stack), steps[1..]);
    }
  }

  /** At every step, the path's stack and the unbounded one look the same. */
  ghost predicate AlwaysInView(stack: seq<Tag>, unbounded: seq<Tag>, steps: seq<Step>)
    decreases |steps|
  {
    && Cut(stack) == Cut(unbounded)
    && (steps != [] ==>
        AlwaysInView(
          if steps[0].Down? then Descend(stack, steps[0].tag) else Return(stack),
          if steps[0].Down? then unbounded + [steps[0].tag] else Return(unbounded),
          steps[1..]))
  }

  /** All along a traversal the path is a view of the unbounded stack exactly if no count overflows. */
  lemma {:induction false} InViewExactlyIfCountable(stack: seq<Tag>, steps: seq<Step>)
    requires |stack| <= DEEPEST
    ensures AlwaysInView(stack, stack, steps) <==> Countable(|stack|, steps)
    decreases |steps|
  {
    if steps != [] {
      if steps[0].Up? {
        InViewExactlyIfCountable(Return(stack), steps[1..]);
      } else if |stack| < DEEPEST {
        InViewExactlyIfCountable(stack + [steps[0].tag], steps[1..]);
      } else {
        assert Cut(stack).omitted != Cut(stack + [steps[0].tag]).omitted;
      }
    }
  }

  /** The step that overflows the count is lost: the next return loses its place. */
  lemma OverflowIsLost(stack: seq<Tag>, tag: Tag)
    requires |stack| == DEEPEST
    ensures Followed(stack, [Down(tag), Up]) != Unbounded(stack, [Down(tag), Up]) == stack
    ensures Cut(Followed(stack, [Down(tag), Up])) != Cut(stack)
  {
    var steps := [Down(tag), Up];
    assert steps[1..] == [Up] && steps[1..][1..] == [];
    assert Followed(stack, steps) == Followed(stack, [Up]) == Followed(Return(stack), []);
    assert Unbounded(stack, steps) == Unbounded(stack + [tag], [Up]) == Unbounded(Return(stack + [tag]), []);
    assert Return(stack + [tag]) == stack;
  }

  // ----- Reading the text back -----

  /** Leading hexadecimal pairs, and what follows them. */
  function ReadTag(t: string): (bytes, string) {
    if |t| >= 2 && HexValue(t[0]).Some? && HexValue(t[1]).Some? then
      var rest := ReadTag(t[2..]);
      ([HexByte(t[0], t[1])] + rest.0, rest.1)
    else ([], t)
  }

  /** The identifiers of a printed path, and whether deeper levels are left out. */
  function ReadShown(t: string): Option<(seq<bytes>, bool)> {
    if t == "" then Some(([], false))
    else if t == "..." then Some(([], true))
    else
      var n := |t| - 6;
      var more := n >= 0 && t[n..] == " > ...";
      match ReadPath(if more then t[..n] else t)
      case None => None
      case Some(tags) => Some((tags, more))
  }

  /** Identifiers separated by " > ". */
  function ReadPath(t: string): Option<seq<bytes>>
    decreases |t|
  {
    var (tag, rest) := ReadTag(t);
    if tag == [] then None
    else if rest == "" then Some([tag])
    else if SEPARATOR <= rest && |rest| <= |t| then
      match ReadPath(rest[3..])
      case None => None
      case Some(tags) => Some([tag] + tags)
    else None
  }

  lemma ReadsPair(b: byte, tail: string)
    ensures ReadTag([HexDigit(b / 16), HexDigit(b % 16)] + tail) == ([b] + ReadTag(tail).0, ReadTag(tail).1)
  {
    var high, low := HexDigit(b / 16), HexDigit(b % 16);
    HexRoundTrip(b / 16);
    HexRoundTrip(b % 16);
    var t := [high, low] + tail;
    assert t[0] == high && t[1] == low && t[2..] == tail && HexByte(high, low) == b;
  }

  lemma {:induction false} ReadsHex(data: bytes, rest: string)
    requires rest == "" || rest[0] == ' '
    ensures ReadTag(Hex(data) + rest) == (data, rest)
  {
    if data == [] {
      assert Hex(data) + rest == rest;
    } else {
      var pair, tail := [HexDigit(data[0] / 16), HexDigit(data[0] % 16)], Hex(data[1..]) + rest;
      ReadsHex(data[1..], rest);
      ReadsPair(data[0], tail);
      Regroup(pair, Hex(data[1..]), rest);
      assert [data[0]] + data[1..] == data;
    }
  }

  lemma Associates(a: string, b: string, c: string, s: string, l: string)
    ensures ((a + (b + c)) + s) + l == a + (b + ((c + s) + l))
    ensures (a + s) + l == a + (s + l)
  {
  }

  /** The same text, seen from its first identifier. */
  lemma {:induction false} TextFromFront(tags: seq<Tag>)
    requires |tags| > 1
    ensures TagsText(tags) == Hex(tags[0].Bytes()) + (SEPARATOR + TagsText(tags[1..]))
    decreases |tags|
  {
    var before, rest := tags[..|tags| - 1], tags[1..];
    var first, last := Hex(tags[0].Bytes()), Hex(tags[|tags| - 1].Bytes());
    if |tags| == 2 {
      OneTag(before);
      OneTag(rest);
      Associates(first, "", "", SEPARATOR, last);
    } else {
      TextFromFront(before);
      assert before[1..] == rest[..|rest| - 1];
      Associates(first, SEPARATOR, TagsText(before[1..]), SEPARATOR, last);
    }
  }

  lemma OneTag(tags: seq<Tag>)
    requires |tags| == 1
    ensures TagsText(tags) == Hex(tags[0].Bytes())
  {
    assert tags[..0] == [];
    assert "" + "" + Hex(tags[0].Bytes()) == Hex(tags[0].Bytes());
  }

  function Contents(tags: seq<Tag>): seq<bytes> {
    if tags == [] then [] else [tags[0].Bytes()] + Contents(tags[1..])
  }

  lemma ReadsFirst(data: bytes, text: string)
    requires data != []
    ensures ReadPath(Hex(data) + (SEPARATOR + text))
         == match ReadPath(text) case None => None case Some(others) => Some([data] + others)
  {
    ReadsHex(data, SEPARATOR + text);
    assert (SEPARATOR + text)[3..] == text;
  }

  /** A printed path without omissions reads back as its identifiers. */
  lemma {:induction false} TextReadsBack(tags: seq<Tag>)
    requires tags != [] && forall i :: 0 <= i < |tags| ==> tags[i].Bytes() != []
    ensures ReadPath(TagsText(tags)) == Some(Contents(tags))
    decreases |tags|
  {
    if |tags| == 1 {
      OneTag(tags);
      ReadsHex(tags[0].Bytes(), "");
      assert Hex(tags[0].Bytes()) + "" == Hex(tags[0].Bytes());
      assert Contents(tags) == [tags[0].Bytes()];
    } else {
      TextFromFront(tags);
      TextReadsBack(tags[1..]);
      ReadsFirst(tags[0].Bytes(), TagsText(tags[1..]));
    }
  }

  lemma Ends(a: string, b: string)
    ensures (a + b)[|a|..] == b && (a + b)[..|a|] == a
    ensures b != "" ==> (a + b)[|a + b| - 1] == b[|b| - 1]
  {
  }

  /** A printed path ends in a digit. */
  lemma EndsInDigit(tags: seq<Tag>)
    requires tags != [] && tags[|tags| - 1].Bytes() != []
    ensures var t := TagsText(tags); t != "" && t[|t| - 1] != '.'
  {
    hide Hex;
    var data := tags[|tags| - 1].Bytes();
    LastDigit(data);
    var before := TagsText(tags[..|tags| - 1]) + if |tags| > 1 then SEPARATOR else "";
    assert TagsText(tags) == before + Hex(data);
    hide TagsText;
    Ends(before, Hex(data));
  }

  lemma LastDigit(data: bytes)
    requires data != []
    ensures Hex(data) != "" && Hex(data)[|Hex(data)| - 1] != '.'
  {
    HexPairs(data, |data| - 1);
    hide Hex;
    NoDot(data[|data| - 1] % 16);
  }

  lemma NoDot(n: nat)
    requires n < 16
    ensures "0123456789ABCDEF"[n] != '.'
  {
  }

  lemma ReadsWithMore(t: string)
    requires t != ""
    ensures ReadShown(t + " > ...")
         == match ReadPath(t) case None => None case Some(tags) => Some((tags, true))
  {
    hide ReadPath;
    Ends(t, " > ...");
  }

  lemma ReadsWithoutMore(t: string)
    requires t != "" && t[|t| - 1] != '.'
    ensures ReadShown(t)
         == match ReadPath(t) case None => None case Some(tags) => Some((tags, false))
  {
    hide ReadPath;
    assert |t| >= 6 ==> t[|t| - 6..][5] == t[|t| - 1];
  }

  /** Every printed path reads back as its identifiers and whether any were omitted. */
  lemma WholeTextReadsBack(tags: seq<Tag>, omitted: nat)
    requires forall i :: 0 <= i < |tags| ==> tags[i].Bytes() != []
    ensures ReadShown(TagsText(tags) + Suffix(|tags|, omitted)) == Some((Contents(tags), omitted > 0))
  {
    hide ReadPath, TagsText, ReadShown, Contents;
    var text := TagsText(tags);
    if tags != [] {
      EndsInDigit(tags);
      TextReadsBack(tags);
      ReadsWithMore(text);
      ReadsWithoutMore(text);
      assert text + "" == text;
    } else {
      NoTagsReadBack(omitted);
    }
  }

  lemma NoTagsReadBack(omitted: nat)
    ensures ReadShown(TagsText([]) + Suffix(0, omitted)) == Some((Contents([]), omitted > 0))
  {
    assert "" + "" == "" && "" + "..." == "...";
  }
}
