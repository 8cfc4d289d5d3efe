/** The grammar of the index file, byte by byte, and that a load accepts exactly the files that
    follow it. */
module IndexLayout {
  import opened Bytes
  import opened Options
  import opened IndexFile

  /** An entry as it stands in a file: its kind, the length in four bytes, the text and a
      timestamp that nobody reads. */
  datatype Piece = Piece(kind: Byte, size: seq<Byte>, fp: Fingerprint, stamp: seq<Byte>)

  predicate GoodPiece(p: Piece) { |p.size| == 4 && Number(p.size) == |p.fp| <= 1024 && |p.stamp| == 8 }

  function Laid(p: Piece): seq<Byte> { [p.kind] + (p.size + (p.fp + p.stamp)) }

  function LaidAll(ps: seq<Piece>): seq<Byte> { if ps == [] then [] else Laid(ps[0]) + LaidAll(ps[1..]) }

  function OfKind(ps: seq<Piece>, kind: Byte): seq<Piece> {
    if ps == [] then [] else (if ps[0].kind == kind then [ps[0]] else []) + OfKind(ps[1..], kind)
  }

  ghost function Texts(ps: seq<Piece>): set<Fingerprint> { set p | p in ps :: p.fp }

  /** The text of the last piece, if there is one. */
  function LastText(ps: seq<Piece>, otherwise: Fingerprint): Fingerprint {
    if ps == [] then otherwise else ps[|ps| - 1].fp
  }

  /** From an offset on there are pieces of other kinds, then a checksum, then anything. */
  ghost predicate Follows(data: seq<Byte>, offset: nat, ps: seq<Piece>, check: Piece)
    requires offset <= |data|
  {
    && (forall i :: 0 <= i < |ps| ==> GoodPiece(ps[i]) && ps[i].kind != 2)
    && GoodPiece(check) && check.kind == 2 && check.fp != []
    && LaidAll(ps) + Laid(check) <= data[offset..]
  }

  // ------------------------------------------------------------------------- one piece

  lemma PieceReads(data: seq<Byte>, offset: nat, p: Piece, rest: seq<Byte>)
    requires offset <= |data| && GoodPiece(p) && data[offset..] == Laid(p) + rest
    ensures var end := offset + 13 + |p.fp|;
      ReadAt(data, offset) == Some(Entry(p.kind, p.fp)) && data[offset..end] == Laid(p) && data[end..] == rest
  {
    var d, n := data[offset..], |p.fp|;
    assert |Laid(p)| == 13 + n;
    assert d[1..5] == p.size && d[5..5 + n] == p.fp && d[0] == p.kind && d[..13 + n] == Laid(p) && d[13 + n..] == rest;
    assert data[offset + 1..offset + 5] == d[1..5] && data[offset + 5..offset + 5 + n] == d[5..5 + n];
  }

  lemma ReadsPiece(data: seq<Byte>, offset: nat) returns (p: Piece)
    requires ReadAt(data, offset).Some?
    ensures GoodPiece(p) && ReadAt(data, offset) == Some(Entry(p.kind, p.fp))
    ensures data[offset..offset + 13 + |p.fp|] == Laid(p)
  {
    var n := Number(data[offset + 1..offset + 5]);
    p := Piece(data[offset], data[offset + 1..offset + 5], data[offset + 5..offset + 5 + n], data[offset + 5 + n..offset + 13 + n]);
  }

  // ------------------------------------------------------------------------ many pieces

  function Take(st: Scan, p: Piece): Scan { Absorb(st, Entry(p.kind, p.fp), Laid(p)) }

  function TakeAll(st: Scan, ps: seq<Piece>): Scan
    decreases |ps|
  {
    if ps == [] then st else TakeAll(Take(st, ps[0]), ps[1..])
  }

  lemma FollowsRest(data: seq<Byte>, offset: nat, ps: seq<Piece>, check: Piece)
    requires offset <= |data| && ps != [] && Follows(data, offset, ps, check)
    ensures var end := offset + 13 + |ps[0].fp|;
      && ReadAt(data, offset) == Some(Entry(ps[0].kind, ps[0].fp)) && end <= |data| && data[offset..end] == Laid(ps[0])
      && Follows(data, end, ps[1..], check)
  {
    hide ReadAt, Laid;
    var d, more := data[offset..], LaidAll(ps[1..]) + Laid(check);
    assert LaidAll(ps) + Laid(check) == Laid(ps[0]) + more;
    var rest := d[|Laid(ps[0])|..];
    assert d == Laid(ps[0]) + rest && more <= rest;
    PieceReads(data, offset, ps[0], rest);
  }

  lemma {:induction false} PiecesWalk(data: seq<Byte>, st: Scan, ps: seq<Piece>, check: Piece)
    requires st.offset <= |data| && Follows(data, st.offset, ps, check)
    ensures Walk(data, st) == Some(Take(TakeAll(st, ps), check))
    decreases |ps|
  {
    if ps == [] {
      var d := data[st.offset..];
      assert LaidAll(ps) + Laid(check) == Laid(check);
      assert d == Laid(check) + d[|Laid(check)|..];
      PieceReads(data, st.offset, check, d[|Laid(check)|..]);
      WalkStep(data, st, Take(st, check), true);
    } else {
      hide ReadAt, Laid, Walk;
      FollowsRest(data, st.offset, ps, check);
      var st' := Take(st, ps[0]);
      WalkStep(data, st, st', false);
      PiecesWalk(data, st', ps[1..], check);
    }
  }

  lemma PieceBefore(data: seq<Byte>, offset: nat, p: Piece, ps: seq<Piece>, check: Piece)
    requires GoodPiece(p) && p.kind != 2 && offset + 13 + |p.fp| <= |data| && data[offset..offset + 13 + |p.fp|] == Laid(p)
    requires Follows(data, offset + 13 + |p.fp|, ps, check)
    ensures Follows(data, offset, [p] + ps, check)
  {
    hide Laid;
    var end := offset + 13 + |p.fp|;
    assert ([p] + ps)[1..] == ps;
    assert data[offset..] == Laid(p) + data[end..];
    assert LaidAll([p] + ps) + Laid(check) == Laid(p) + (LaidAll(ps) + Laid(check));
  }

  /** A walk that is to end in a checksum goes on over the next piece. */
  lemma WalkOn(data: seq<Byte>, st: Scan) returns (p: Piece)
    requires st.offset <= |data| && Walk(data, st).Some? && st.last == [] && Walk(data, st).value.last != []
    ensures GoodPiece(p) && st.offset + 13 + |p.fp| <= |data| && data[st.offset..st.offset + 13 + |p.fp|] == Laid(p)
    ensures Walk(data, st) == if p.kind == 2 then Some(Take(st, p)) else Walk(data, Take(st, p))
  {
    p := ReadsPiece(data, st.offset);
    hide ReadAt, Laid;
    WalkStep(data, st, Take(st, p), p.kind == 2);
  }

  lemma CheckFollows(data: seq<Byte>, offset: nat, p: Piece)
    requires GoodPiece(p) && p.kind == 2 && p.fp != [] && offset + 13 + |p.fp| <= |data|
    requires data[offset..offset + 13 + |p.fp|] == Laid(p)
    ensures Follows(data, offset, [], p)
  {
    hide Laid;
    assert LaidAll([]) + Laid(p) == Laid(p);
    assert data[offset..] == Laid(p) + data[offset + 13 + |p.fp|..];
  }

  lemma {:induction false} WalkPieces(data: seq<Byte>, st: Scan) returns (ps: seq<Piece>, check: Piece)
    requires st.offset <= |data| && Walk(data, st).Some? && st.last == [] && Walk(data, st).value.last != []
    ensures Follows(data, st.offset, ps, check)
    decreases |data| - st.offset
  {
    hide Walk, Laid, Follows;
    var p := WalkOn(data, st);
    if p.kind == 2 {
      ps, check := [], p;
      CheckFollows(data, st.offset, p);
    } else {
      ps, check := WalkPieces(data, Take(st, p));
      PieceBefore(data, st.offset, p, ps, check);
      ps := [p] + ps;
    }
  }

  // -------------------------------------------------------------------- what is gathered

  ghost predicate GathersAll(st: Scan, ps: seq<Piece>, w: Scan) {
    && w.last == st.last && w.fpCount == st.fpCount + |OfKind(ps, 1)| && w.index == st.index + Texts(OfKind(ps, 1))
    && w.hashed == st.hashed + LaidAll(OfKind(ps, 1)) && w.stored == LastText(OfKind(ps, 3), st.stored)
  }

  lemma {:induction false} TakesAll(st: Scan, ps: seq<Piece>)
    requires forall i :: 0 <= i < |ps| ==> ps[i].kind != 2
    ensures GathersAll(st, ps, TakeAll(st, ps))
    decreases |ps|
  {
    hide Laid;
    if ps == [] {
      assert st.hashed + [] == st.hashed;
    } else {
      TakesAll(Take(st, ps[0]), ps[1..]);
      TakesFirst(st, ps, TakeAll(st, ps));
    }
  }

  lemma TakesFirst(st: Scan, ps: seq<Piece>, w: Scan)
    requires ps != [] && ps[0].kind != 2 && GathersAll(Take(st, ps[0]), ps[1..], w)
    ensures GathersAll(st, ps, w)
  {
    hide Laid, OfKind, LaidAll, Texts;
    var p, rest := ps[0], OfKind(ps[1..], 1);
    KindFirst(ps, 1);
    KindFirst(ps, 3);
    if p.kind == 1 {
      LaidFirst(p, rest);
      assert (st.hashed + Laid(p)) + LaidAll(rest) == st.hashed + (Laid(p) + LaidAll(rest));
    }
  }

  lemma KindFirst(ps: seq<Piece>, kind: Byte)
    requires ps != []
    ensures OfKind(ps, kind) == if ps[0].kind == kind then [ps[0]] + OfKind(ps[1..], kind) else OfKind(ps[1..], kind)
  {
  }

  lemma LaidFirst(p: Piece, rest: seq<Piece>)
    ensures LaidAll([p] + rest) == Laid(p) + LaidAll(rest) && Texts([p] + rest) == {p.fp} + Texts(rest)
  {
    hide Laid;
    assert ([p] + rest)[1..] == rest;
  }

  // -------------------------------------------------------------------------- the file

  /** A file in full: magic number and version, the count, entries, the optional digest of the
      fingerprints and the checksum of header and digest in hexadecimal. */
  ghost predicate Holds(data: seq<Byte>, sha: Digest, ps: seq<Piece>, check: Piece) {
    && |data| >= 16 && data[0..6] == [0x44, 0x44, 0x55, 0x50, 0, 1] && Follows(data, 16, ps, check)
    && Number(data[8..16]) == |OfKind(ps, 1)|
    && var digest, stored := sha(LaidAll(OfKind(ps, 1))), LastText(OfKind(ps, 3), []);
       (stored == [] || stored == digest) && check.fp == Hex(sha(data[0..16] + digest))
  }

  lemma HeaderNumbers(data: seq<Byte>)
    requires |data| >= 16
    ensures data[0..6] == [0x44, 0x44, 0x55, 0x50, 0, 1] <==> Number(data[0..4]) == MAGIC && Number(data[4..6]) == VERSION
  {
    FourBytes(data[0..4]);
    TwoBytes(data[4..6]);
    assert data[0..6] == data[0..4] + data[4..6];
    assert data[0..6][0] == data[0] && data[0..6][1] == data[1] && data[0..6][2] == data[2] && data[0..6][3] == data[3];
    assert data[0..6][4] == data[4] && data[0..6][5] == data[5];
  }

  lemma TwoBytes(s: seq<Byte>)
    requires |s| == 2
    ensures var a: int, b: int := s[0], s[1]; Number(s) == 256 * a + b
  {
    assert s[..1] == [s[0]] && s[..1][..0] == [];
    assert Number(s[..1]) == s[0];
  }

  lemma FourBytes(s: seq<Byte>)
    requires |s| == 4
    ensures var a: int, b: int, c: int, d: int := s[0], s[1], s[2], s[3];
      Number(s) == 16777216 * a + 65536 * b + 256 * c + d
  {
    TwoBytes(s[..2]);
    assert s[..3][..2] == s[..2];
    assert Number(s[..3]) == 256 * Number(s[..2]) + s[2];
  }

  lemma HoldsGathers(data: seq<Byte>, ps: seq<Piece>, check: Piece)
    requires |data| >= 16 && Follows(data, 16, ps, check)
    ensures Walk(data, SCAN_START).Some?
    ensures var w := Walk(data, SCAN_START).value;
      && w.fpCount == |OfKind(ps, 1)| && w.index == Texts(OfKind(ps, 1)) && w.hashed == LaidAll(OfKind(ps, 1))
      && w.stored == LastText(OfKind(ps, 3), []) && w.last == check.fp != []
  {
    hide Walk, Laid;
    PiecesWalk(data, SCAN_START, ps, check);
    TakesAll(SCAN_START, ps);
    assert [] + LaidAll(OfKind(ps, 1)) == LaidAll(OfKind(ps, 1));
  }

  /** A load accepts a file if and only if it is laid out so, and then returns the texts of its
      entries of kind one. */
  lemma SealedExactly(data: seq<Byte>, sha: Digest)
    ensures Sealed(data, sha) <==> exists ps, check :: Holds(data, sha, ps, check)
    ensures forall ps, check :: Holds(data, sha, ps, check) ==> Contents(data) == Texts(OfKind(ps, 1))
  {
    hide Walk, Laid, Number, Hex, OfKind, LaidAll, Follows;
    if |data| >= 16 { HeaderNumbers(data); }
    forall ps, check | Holds(data, sha, ps, check) ensures Sealed(data, sha) && Contents(data) == Texts(OfKind(ps, 1)) {
      HoldsGathers(data, ps, check);
    }
    if Sealed(data, sha) {
      var ps, check := WalkPieces(data, SCAN_START);
      HoldsGathers(data, ps, check);
      assert Holds(data, sha, ps, check);
    }
  }
}
