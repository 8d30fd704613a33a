/** Streams put together from separately encoded elements, and what a Reader makes of them. */
module Streams {
  import opened Tlv
  import opened Reader

  datatype Piece = Piece(element: Element, wire: bytes)

  /** Pieces in stream order, the last one outermost. */
  datatype Stream = Start | More(earlier: Stream, last: Piece)

  function Joined(s: Stream): bytes {
    match s
    case Start => []
    case More(earlier, last) => Joined(earlier) + last.wire
  }

  /** Each piece, read alone, is one complete element. */
  ghost predicate Readable(f: Native, s: Stream) {
    match s
    case Start => true
    case More(earlier, last) => Readable(f, earlier) && f(last.wire, false) == Got(last.element, |last.wire|)
  }

  /** Where each piece's element lies in the joined stream. */
  function Places(s: Stream): seq<Located> {
    match s
    case Start => []
    case More(earlier, last) => Places(earlier) + [Located(last.element, |Joined(earlier)|, |last.wire|)]
  }

  lemma ReadsOne(f: Native, piece: Piece, full: bytes, at: nat, behind: bytes)
    requires PrefixStable(f) && f(piece.wire, false) == Got(piece.element, |piece.wire|)
    requires at <= |full| && full[at..] == piece.wire + behind
    ensures at + |piece.wire| <= |full|
    ensures Elements(f, full, at) == [Located(piece.element, at, |piece.wire|)] + Elements(f, full, at + |piece.wire|)
    ensures Verdict(f, full, at) == Verdict(f, full, at + |piece.wire|)
  {
    assert f(piece.wire, false) != Stop(NeedMoreData);
    assert f(piece.wire + behind, true) == f(piece.wire, false);
  }

  lemma {:induction false} ReadsPieces(f: Native, s: Stream, full: bytes)
    requires PrefixStable(f) && Readable(f, s) && Joined(s) <= full
    ensures Elements(f, full, 0) == Places(s) + Elements(f, full, |Joined(s)|)
    ensures Verdict(f, full, 0) == Verdict(f, full, |Joined(s)|)
  {
    match s
    case Start =>
    case More(earlier, last) =>
      var at := |Joined(earlier)|;
      var behind := full[at + |last.wire|..];
      ReadsPieces(f, earlier, full);
      assert full[at..] == last.wire + behind;
      ReadsOne(f, last, full, at, behind);
      var here, later := [Located(last.element, at, |last.wire|)], Elements(f, full, at + |last.wire|);
      assert Places(earlier) + (here + later) == (Places(earlier) + here) + later;
  }

  /** A complete read of the joined stream yields the pieces' elements, in place, and ends cleanly. */
  lemma JoinedStreamReadsBack(f: Native, s: Stream)
    requires PrefixStable(f) && Readable(f, s)
    ensures Elements(f, Joined(s), 0) == Places(s)
    ensures Verdict(f, Joined(s), 0) == (End, |Joined(s)|)
  {
    var full := Joined(s);
    ReadsPieces(f, s, full);
    assert full[|full|..] == [];
    assert Places(s) + [] == Places(s);
  }
}
