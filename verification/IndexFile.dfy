/** The fingerprint index file of internal/datadedup/persistence.go as a byte sequence: a
    header with a count, one entry per fingerprint, a digest of the entries and a checksum. */
module IndexFile {
  import opened Bytes
  import opened Options

  type Fingerprint = seq<Byte>
  type Digest = seq<Byte> -> seq<Byte>

  const MAGIC: int := 0x44445550
  const VERSION: int := 1
  const HEADER_SIZE: int := 16
  const KIND_FP: int := 1
  const KIND_CHECKSUM: int := 2
  const KIND_DIGEST: int := 3
  const MAX_FINGERPRINT: int := 1024

  /** What is used of SHA-256: its length. */
  ghost predicate Sha(sha: Digest) { forall s :: |sha(s)| == 32 }

  function HexDigit(n: int): Byte
    requires 0 <= n < 16
  {
    if n < 10 then 48 + n else 87 + n
  }

  function Hex(s: seq<Byte>): (r: seq<Byte>)
    ensures |r| == 2 * |s|
  {
    if s == [] then [] else Hex(s[..|s| - 1]) + [HexDigit(s[|s| - 1] / 16), HexDigit(s[|s| - 1] % 16)]
  }

  // ---------------------------------------------------------------------- entries

  datatype Entry = Entry(kind: Byte, fp: Fingerprint)

  /** uint32(len(fp)). */
  function Length32(fp: Fingerprint): (n: nat)
    ensures n <= |fp| && (|fp| < 0x1_0000_0000 ==> n == |fp|)
  {
    |fp| % 0x1_0000_0000
  }

  /** The fingerprint as it is written. */
  function Clip(fp: Fingerprint): Fingerprint { fp[..Length32(fp)] }

  /** encodeEntry, with the timestamp it is always given. */
  function Encode(e: Entry): (s: seq<Byte>)
    ensures |s| == 13 + Length32(e.fp)
  {
    JoinFour([e.kind], BigEndian(Length32(e.fp), 4), e.fp[..Length32(e.fp)], BigEndian(0, 8));
    Join([[e.kind], BigEndian(Length32(e.fp), 4), e.fp[..Length32(e.fp)], BigEndian(0, 8)])
  }

  function EncodeAll(es: seq<Entry>): seq<Byte> {
    if es == [] then [] else EncodeAll(es[..|es| - 1]) + Encode(es[|es| - 1])
  }

  function ReadAt(data: seq<Byte>, offset: nat): (r: Option<Entry>)
    ensures r.Some? ==> Short(r.value.fp) && offset + 13 + |r.value.fp| <= |data|
  {
    if offset + 5 > |data| then None
    else
      var n := Number(data[offset + 1..offset + 5]);
      if n > MAX_FINGERPRINT || offset + 5 + n + 8 > |data| then None
      else Some(Entry(data[offset], data[offset + 5..offset + 5 + n]))
  }

  lemma EncodedParts(e: Entry)
    ensures var s, n := Encode(e), Length32(e.fp);
      s[0] == e.kind && s[1..5] == BigEndian(n, 4) && s[5..5 + n] == e.fp[..n]
  {
    JoinFour([e.kind], BigEndian(Length32(e.fp), 4), e.fp[..Length32(e.fp)], BigEndian(0, 8));
  }

  /** The written length is one the readers accept. */
  predicate Readable(fp: Fingerprint) { Length32(fp) <= MAX_FINGERPRINT }

  /** An encoded entry is read back wherever it stands, unless it is too long. */
  lemma ReadsEntry(pre: seq<Byte>, e: Entry, post: seq<Byte>)
    ensures ReadAt(pre + Encode(e) + post, |pre|) == if Readable(e.fp) then Some(Entry(e.kind, Clip(e.fp))) else None
  {
    var n, mid := Length32(e.fp), Encode(e);
    EncodedParts(e);
    Powers();
    ReadsNumber(n, 4);
    ReadsBytes(pre, mid, post, e.kind, n, Clip(e.fp));
  }

  lemma ReadsBytes(pre: seq<Byte>, mid: seq<Byte>, post: seq<Byte>, kind: Byte, n: nat, fp: Fingerprint)
    requires |mid| == 13 + n && mid[0] == kind && Number(mid[1..5]) == n && mid[5..5 + n] == fp
    ensures ReadAt(pre + mid + post, |pre|) == if n <= MAX_FINGERPRINT then Some(Entry(kind, fp)) else None
  {
    Middle(pre, mid, post, 1, 5);
    Middle(pre, mid, post, 5, 5 + n);
    assert (pre + mid + post)[|pre|] == mid[0];
  }

  lemma EncodeNext(es: seq<Entry>, i: int)
    requires 0 <= i < |es|
    ensures EncodeAll(es[..i + 1]) == EncodeAll(es[..i]) + Encode(es[i])
  {
    assert es[..i + 1][..i] == es[..i];
  }

  /** Where entry i stands among all of them. */
  lemma {:induction false} EncodeSplit(es: seq<Entry>, i: int) returns (post: seq<Byte>)
    requires 0 <= i < |es|
    ensures EncodeAll(es) == EncodeAll(es[..i]) + Encode(es[i]) + post
    ensures i == |es| - 1 ==> post == []
    decreases |es|
  {
    if i == |es| - 1 {
      post := [];
    } else {
      var init, last := es[..|es| - 1], es[|es| - 1];
      assert init[..i] == es[..i] && init[i] == es[i];
      var mid := EncodeSplit(init, i);
      post := mid + Encode(last);
      Regroup(EncodeAll(es[..i]), Encode(es[i]), mid, Encode(last));
    }
  }

  lemma Regroup(a: seq<Byte>, b: seq<Byte>, c: seq<Byte>, d: seq<Byte>)
    ensures (a + b + c) + d == a + b + (c + d)
  {
  }

  // ------------------------------------------------------------------------ images

  function HeaderBytes(count: nat): (s: seq<Byte>)
    ensures |s| == HEADER_SIZE
  {
    JoinFour(BigEndian(MAGIC, 4), BigEndian(VERSION, 2), BigEndian(0, 2), BigEndian(count, 8));
    Join([BigEndian(MAGIC, 4), BigEndian(VERSION, 2), BigEndian(0, 2), BigEndian(count, 8)])
  }

  /** The bytes of a header that counts fewer than 256 entries. */
  lemma HeaderLayout(count: nat)
    requires count < 256
    ensures HeaderBytes(count) == [0x44, 0x44, 0x55, 0x50, 0, 1, 0, 0, 0, 0, 0, 0, 0, 0, 0, count]
  {
    hide BigEndian, Join;
    JoinFour(BigEndian(MAGIC, 4), BigEndian(VERSION, 2), BigEndian(0, 2), BigEndian(count, 8));
    MagicBytes();
    SmallNumber(count);
  }

  lemma MagicBytes()
    ensures BigEndian(MAGIC, 4) == [0x44, 0x44, 0x55, 0x50] && BigEndian(VERSION, 2) == [0, 1] && BigEndian(0, 2) == [0, 0]
  {
  }

  lemma SmallNumber(n: nat)
    requires n < 256
    ensures BigEndian(n, 4) == [0, 0, 0, n] && BigEndian(n, 8) == [0, 0, 0, 0, 0, 0, 0, n]
  {
    assert BigEndian(0, 3) == [0, 0, 0] && BigEndian(0, 5) == [0, 0, 0, 0, 0] && BigEndian(0, 7) == [0, 0, 0, 0, 0, 0, 0];
  }

  function FpEntries(fps: seq<Fingerprint>): (es: seq<Entry>)
    ensures |es| == |fps| && forall i :: 0 <= i < |fps| ==> es[i] == Entry(KIND_FP, fps[i])
  {
    seq(|fps|, i requires 0 <= i < |fps| => Entry(KIND_FP, fps[i]))
  }

  function EntriesDigest(sha: Digest, fps: seq<Fingerprint>): seq<Byte> { sha(EncodeAll(FpEntries(fps))) }

  function Checksum(sha: Digest, header: seq<Byte>, digest: seq<Byte>): seq<Byte> { Hex(sha(header + digest)) }

  function Records(sha: Digest, fps: seq<Fingerprint>): seq<Entry> {
    var d := EntriesDigest(sha, fps);
    FpEntries(fps) + [Entry(KIND_DIGEST, d), Entry(KIND_CHECKSUM, Checksum(sha, HeaderBytes(|fps|), d))]
  }

  /** The file that holds the given fingerprints in the given order. */
  function Image(sha: Digest, fps: seq<Fingerprint>): seq<Byte> {
    HeaderBytes(|fps|) + EncodeAll(Records(sha, fps))
  }

  ghost function Elements(fps: seq<Fingerprint>): set<Fingerprint> { set i | 0 <= i < |fps| :: fps[i] }

  predicate Short(fp: Fingerprint) { |fp| <= MAX_FINGERPRINT }

  ghost predicate AllShort(fps: seq<Fingerprint>) { forall i :: 0 <= i < |fps| ==> Short(fps[i]) }

  lemma ElementsNext(fps: seq<Fingerprint>, i: int)
    requires 0 <= i < |fps|
    ensures Elements(fps[..i + 1]) == Elements(fps[..i]) + {fps[i]}
  {
    var a, b := fps[..i], fps[..i + 1];
    forall x | x in Elements(a) ensures x in Elements(b) { var j :| 0 <= j < |a| && a[j] == x; assert b[j] == x; }
    assert b[i] == fps[i];
  }

  /** The header reads back. */
  lemma ReadsHeader(count: nat)
    requires count < 0x1_0000_0000_0000_0000
    ensures var h := HeaderBytes(count); Number(h[0..4]) == MAGIC && Number(h[4..6]) == VERSION && Number(h[8..16]) == count
  {
    hide BigEndian, Number, Power;
    var h := HeaderBytes(count);
    JoinFour(BigEndian(MAGIC, 4), BigEndian(VERSION, 2), BigEndian(0, 2), BigEndian(count, 8));
    assert h[0..4] == BigEndian(MAGIC, 4) && h[4..6] == BigEndian(VERSION, 2) && h[8..16] == BigEndian(count, 8);
    Powers();
    ReadsNumber(MAGIC, 4);
    ReadsNumber(VERSION, 2);
    ReadsNumber(count, 8);
  }

  // ----------------------------------------------------------- walking over an image

  ghost function OffsetOf(sha: Digest, fps: seq<Fingerprint>, k: nat): nat
    requires k <= |fps| + 2
  {
    HEADER_SIZE + |EncodeAll(Records(sha, fps)[..k])|
  }

  lemma RecordShort(sha: Digest, fps: seq<Fingerprint>, k: nat)
    requires Sha(sha) && k < |fps| + 2 && (k < |fps| ==> Short(fps[k]))
    ensures var e := Records(sha, fps)[k]; Readable(e.fp) && Clip(e.fp) == e.fp
  {
  }

  /** Record k of an image stands where the records before it end, and is read if its length is
      accepted. */
  lemma ImageRecord(sha: Digest, fps: seq<Fingerprint>, k: nat)
    requires Sha(sha) && k < |fps| + 2
    ensures var data, e, o := Image(sha, fps), Records(sha, fps)[k], OffsetOf(sha, fps, k);
      && ReadAt(data, o) == (if Readable(e.fp) then Some(Entry(e.kind, Clip(e.fp))) else None)
      && OffsetOf(sha, fps, k + 1) == o + 13 + |Clip(e.fp)| <= |data|
      && data[o..o + 13 + |Clip(e.fp)|] == Encode(e)
      && (k == |fps| + 1 ==> o + 13 + |Clip(e.fp)| == |data|)
  {
    var es, header := Records(sha, fps), HeaderBytes(|fps|);
    var e := es[k];
    var post := EncodeSplit(es, k);
    var pre := header + EncodeAll(es[..k]);
    Placed(header, EncodeAll(es[..k]), Encode(e), post);
    ReadsEntry(pre, e, post);
    EncodeNext(es, k);
    Middle(pre, Encode(e), post, 0, |Encode(e)|);
    assert Encode(e)[0..|Encode(e)|] == Encode(e);
  }

  lemma ShortRecord(sha: Digest, fps: seq<Fingerprint>, k: nat)
    requires Sha(sha) && k < |fps| + 2 && (k < |fps| ==> Short(fps[k]))
    ensures var data, e, o := Image(sha, fps), Records(sha, fps)[k], OffsetOf(sha, fps, k);
      && ReadAt(data, o) == Some(e) && OffsetOf(sha, fps, k + 1) == o + 13 + |e.fp| <= |data|
      && data[o..o + 13 + |e.fp|] == Encode(e)
      && (k == |fps| + 1 ==> o + 13 + |e.fp| == |data|)
  {
    hide Image, ReadAt, Encode, OffsetOf;
    RecordShort(sha, fps, k);
    ImageRecord(sha, fps, k);
  }

  lemma Placed(h: seq<Byte>, a: seq<Byte>, b: seq<Byte>, c: seq<Byte>)
    ensures h + (a + b + c) == (h + a) + b + c
  {
  }

  // ------------------------------------------------------------------------- loading

  datatype Loaded = Ok(index: set<Fingerprint>) | Corrupted | ChecksumMismatch

  /** The local variables of the loop in loadLocked. */
  datatype Scan = Scan(offset: nat, hashed: seq<Byte>, stored: seq<Byte>, index: set<Fingerprint>, last: seq<Byte>, fpCount: nat)

  function Absorb(st: Scan, e: Entry, raw: seq<Byte>): Scan {
    var st' := st.(offset := st.offset + 13 + |e.fp|);
    if e.kind == KIND_CHECKSUM then st'.(last := e.fp)
    else if e.kind == KIND_DIGEST then st'.(stored := e.fp)
    else if e.kind == KIND_FP then st'.(hashed := st.hashed + raw, index := st.index + {e.fp}, fpCount := st.fpCount + 1)
    else st'
  }

  function AtMost(k: nat, n: nat): nat { if k < n then k else n }

  /** After k records of an image, before its checksum. */
  ghost predicate ScannedTo(sha: Digest, fps: seq<Fingerprint>, k: nat, st: Scan) {
    var m := AtMost(k, |fps|);
    && k <= |fps| + 1 && st.offset == OffsetOf(sha, fps, k) && st.last == []
    && st.hashed == EncodeAll(FpEntries(fps[..m])) && st.index == Elements(fps[..m]) && st.fpCount == m
    && st.stored == (if k == |fps| + 1 then EntriesDigest(sha, fps) else [])
  }

  lemma EntriesNext(fps: seq<Fingerprint>, k: nat)
    requires k < |fps|
    ensures EncodeAll(FpEntries(fps[..k + 1])) == EncodeAll(FpEntries(fps[..k])) + Encode(Entry(KIND_FP, fps[k]))
  {
    EncodeNext(FpEntries(fps[..k + 1]), k);
    assert FpEntries(fps[..k + 1])[..k] == FpEntries(fps[..k]);
    assert FpEntries(fps[..k + 1])[..k + 1] == FpEntries(fps[..k + 1]);
  }

  lemma ScanFp(sha: Digest, fps: seq<Fingerprint>, k: nat, st: Scan)
    requires Sha(sha) && AllShort(fps) && k < |fps| && ScannedTo(sha, fps, k, st)
    ensures var e := Records(sha, fps)[k]; e.kind == KIND_FP && ScannedTo(sha, fps, k + 1, Absorb(st, e, Encode(e)))
  {
    ShortRecord(sha, fps, k);
    ElementsNext(fps, k);
    EntriesNext(fps, k);
  }

  lemma ScanDigest(sha: Digest, fps: seq<Fingerprint>, st: Scan)
    requires Sha(sha) && AllShort(fps) && ScannedTo(sha, fps, |fps|, st)
    ensures var e := Records(sha, fps)[|fps|]; e.kind == KIND_DIGEST && ScannedTo(sha, fps, |fps| + 1, Absorb(st, e, Encode(e)))
  {
    ShortRecord(sha, fps, |fps|);
  }

  /** What the walk over an image has gathered at its checksum. */
  ghost predicate Gathered(sha: Digest, fps: seq<Fingerprint>, st: Scan) {
    && st.index == Elements(fps) && st.fpCount == |fps| && st.hashed == EncodeAll(FpEntries(fps))
    && st.stored == EntriesDigest(sha, fps) && st.last == Checksum(sha, HeaderBytes(|fps|), st.stored)
  }

  const SCAN_START: Scan := Scan(HEADER_SIZE, [], [], {}, [], 0)

  /** The walk over the entries from a given point, up to the checksum or the end of the file;
      nothing if an entry is cut off or too long. */
  function Walk(data: seq<Byte>, st: Scan): Option<Scan>
    decreases |data| - st.offset
  {
    if st.offset >= |data| then Some(st)
    else
      var entry := ReadAt(data, st.offset);
      if entry.None? then None
      else
        var e := entry.value;
        var st' := Absorb(st, e, data[st.offset..st.offset + 13 + |e.fp|]);
        if e.kind == KIND_CHECKSUM then Some(st') else Walk(data, st')
  }

  /** One turn of the walk, from st to st', which ends it or not. */
  predicate Steps(data: seq<Byte>, st: Scan, st': Scan, last: bool) {
    && st.offset < |data| && ReadAt(data, st.offset).Some?
    && var e := ReadAt(data, st.offset).value;
       st' == Absorb(st, e, data[st.offset..st.offset + 13 + |e.fp|]) && (last <==> e.kind == KIND_CHECKSUM)
  }

  lemma WalkStep(data: seq<Byte>, st: Scan, st': Scan, last: bool)
    requires Steps(data, st, st', last)
    ensures Walk(data, st) == if last then Some(st') else Walk(data, st')
  {
  }

  lemma ImageTurn(sha: Digest, fps: seq<Fingerprint>, k: nat, st: Scan) returns (st': Scan)
    requires Sha(sha) && AllShort(fps) && k <= |fps| + 1 && ScannedTo(sha, fps, k, st)
    ensures Steps(Image(sha, fps), st, st', k == |fps| + 1)
    ensures if k == |fps| + 1 then Gathered(sha, fps, st') else ScannedTo(sha, fps, k + 1, st')
  {
    hide Image, ReadAt, Encode, HeaderBytes, Hex;
    ShortRecord(sha, fps, k);
    var e := Records(sha, fps)[k];
    st' := Absorb(st, e, Encode(e));
    if k < |fps| {
      ScanFp(sha, fps, k, st);
    } else if k == |fps| {
      ScanDigest(sha, fps, st);
    } else {
      assert fps[..|fps|] == fps;
    }
  }

  lemma {:induction false} ImageWalk(sha: Digest, fps: seq<Fingerprint>, k: nat, st: Scan) returns (w: Scan)
    requires Sha(sha) && AllShort(fps) && k <= |fps| + 1 && ScannedTo(sha, fps, k, st)
    ensures Walk(Image(sha, fps), st) == Some(w) && Gathered(sha, fps, w)
    decreases |fps| + 1 - k
  {
    hide *;
    w := ImageTurn(sha, fps, k, st);
    WalkStep(Image(sha, fps), st, w, k == |fps| + 1);
    if k <= |fps| { w := ImageWalk(sha, fps, k + 1, w); }
  }

  /** A known header, entries that end in a checksum and as many fingerprints as the header counts. */
  predicate Shaped(data: seq<Byte>) {
    && |data| >= HEADER_SIZE && Number(data[0..4]) == MAGIC && Number(data[4..6]) == VERSION
    && Walk(data, SCAN_START).Some?
    && var st := Walk(data, SCAN_START).value;
       st.last != [] && st.fpCount == Number(data[8..16])
  }

  /** What loadLocked accepts: a shaped file whose digests agree. */
  predicate Sealed(data: seq<Byte>, sha: Digest) {
    && Shaped(data)
    && var st := Walk(data, SCAN_START).value;
       && (st.stored != [] ==> st.stored == sha(st.hashed))
       && st.last == Checksum(sha, data[0..HEADER_SIZE], sha(st.hashed))
  }

  /** The fingerprints in a file that can be walked. */
  function Contents(data: seq<Byte>): set<Fingerprint> {
    if Walk(data, SCAN_START).Some? then Walk(data, SCAN_START).value.index else {}
  }

  lemma StartsWalk(sha: Digest, fps: seq<Fingerprint>)
    ensures ScannedTo(sha, fps, 0, SCAN_START)
  {
    assert fps[..0] == [] && Records(sha, fps)[..0] == [];
  }

  lemma ImageSealed(sha: Digest, fps: seq<Fingerprint>)
    requires Sha(sha) && AllShort(fps) && |fps| < 0x1_0000_0000_0000_0000
    ensures Sealed(Image(sha, fps), sha) && Contents(Image(sha, fps)) == Elements(fps)
  {
    StartsWalk(sha, fps);
    hide Walk, Encode, Hex, EncodeAll, Number, BigEndian, Join;
    var w := ImageWalk(sha, fps, 0, SCAN_START);
    var data, header := Image(sha, fps), HeaderBytes(|fps|);
    ReadsHeader(|fps|);
    assert data[0..HEADER_SIZE] == header;
    assert data[0..4] == header[0..4] && data[4..6] == header[4..6] && data[8..16] == header[8..16];
  }

  method ScanEntries(data: seq<Byte>) returns (ok: bool, st: Scan)
    requires |data| >= HEADER_SIZE
    ensures ok <==> Walk(data, SCAN_START).Some?
    ensures ok ==> st == Walk(data, SCAN_START).value
  {
    hide ReadAt;
    st := SCAN_START;
    while st.offset < |data|
      invariant Walk(data, SCAN_START) == Walk(data, st)
      decreases |data| - st.offset
    {
      var entry := ReadAt(data, st.offset);
      if entry.None? { return false, st; }
      var e := entry.value;
      st := Absorb(st, e, data[st.offset..st.offset + 13 + |e.fp|]);
      if e.kind == KIND_CHECKSUM { return true, st; }
    }
    ok := true;
  }

  /** loadLocked on the bytes of an existing file. */
  method Load(data: seq<Byte>, sha: Digest) returns (r: Loaded)
    ensures r.Ok? <==> Sealed(data, sha)
    ensures r.Corrupted? <==> !Shaped(data)
    ensures r.ChecksumMismatch? <==> Shaped(data) && !Sealed(data, sha)
    ensures r.Ok? ==> r.index == Contents(data)
  {
    hide Walk, Number, Checksum;
    if |data| < HEADER_SIZE { return Corrupted; }
    var headerBytes := data[0..HEADER_SIZE];
    assert headerBytes[0..4] == data[0..4] && headerBytes[4..6] == data[4..6] && headerBytes[8..16] == data[8..16];
    if Number(headerBytes[0..4]) != MAGIC || Number(headerBytes[4..6]) != VERSION { return Corrupted; }
    var ok, st := ScanEntries(data);
    if !ok || st.last == [] || st.fpCount != Number(headerBytes[8..16]) { return Corrupted; }
    var digest := sha(st.hashed);
    if st.stored != [] && st.stored != digest { return ChecksumMismatch; }
    if Checksum(sha, headerBytes, digest) != st.last { return ChecksumMismatch; }
    return Ok(st.index);
  }

  /** No fingerprint of more than 1024 bytes comes out, whatever the bytes are. */
  lemma {:induction false} WalkShort(data: seq<Byte>, st: Scan)
    requires Walk(data, st).Some? && forall f :: f in st.index ==> Short(f)
    ensures forall f :: f in Walk(data, st).value.index ==> Short(f)
    decreases |data| - st.offset
  {
    if st.offset < |data| {
      var e := ReadAt(data, st.offset).value;
      if e.kind != KIND_CHECKSUM { WalkShort(data, Absorb(st, e, data[st.offset..st.offset + 13 + |e.fp|])); }
    }
  }

  // ----------------------------------------------------------------------- integrity

  /** The fingerprints of entries one after the other, from an offset on. */
  function Decode(bytes: seq<Byte>, offset: nat): Option<set<Fingerprint>>
    decreases |bytes| - offset
  {
    if offset >= |bytes| then if offset == |bytes| then Some({}) else None
    else
      var entry := ReadAt(bytes, offset);
      if entry.None? then None
      else
        var rest := Decode(bytes, offset + 13 + |entry.value.fp|);
        if rest.None? then None else Some({entry.value.fp} + rest.value)
  }

  /** Reading looks no further than the entry. */
  lemma ReadsLocally(bytes: seq<Byte>, more: seq<Byte>, offset: nat)
    requires ReadAt(bytes, offset).Some?
    ensures ReadAt(bytes + more, offset) == ReadAt(bytes, offset)
  {
    var n := Number(bytes[offset + 1..offset + 5]);
    assert (bytes + more)[offset + 1..offset + 5] == bytes[offset + 1..offset + 5];
    assert (bytes + more)[offset + 5..offset + 5 + n] == bytes[offset + 5..offset + 5 + n];
  }

  lemma SliceOfSlice(s: seq<Byte>, a: nat, b: nat, i: nat, j: nat)
    requires a <= b <= |s| && i <= j <= b - a
    ensures s[a..b][i..j] == s[a + i..a + j]
  {
    forall k | 0 <= k < j - i ensures s[a..b][i..j][k] == s[a + i..a + j][k] { assert s[a..b][i + k] == s[a + i + k]; }
  }

  /** The bytes of an entry are an entry by themselves. */
  lemma ReadsAlone(data: seq<Byte>, offset: nat, bytes: seq<Byte>)
    requires ReadAt(data, offset).Some?
    ensures var e := ReadAt(data, offset).value; var raw := data[offset..offset + 13 + |e.fp|];
      ReadAt(bytes + raw, |bytes|) == Some(e)
  {
    var e := ReadAt(data, offset).value;
    var raw := data[offset..offset + 13 + |e.fp|];
    SliceOfSlice(data, offset, offset + 13 + |e.fp|, 1, 5);
    SliceOfSlice(data, offset, offset + 13 + |e.fp|, 5, 5 + |e.fp|);
    ReadsBytes(bytes, raw, [], e.kind, |e.fp|, e.fp);
    assert bytes + raw + [] == bytes + raw;
  }

  lemma {:induction false} DecodeMore(bytes: seq<Byte>, raw: seq<Byte>, e: Entry, offset: nat)
    requires offset <= |bytes| && Decode(bytes, offset).Some?
    requires ReadAt(bytes + raw, |bytes|) == Some(e) && |raw| == 13 + |e.fp|
    ensures Decode(bytes + raw, offset) == Some(Decode(bytes, offset).value + {e.fp})
    decreases |bytes| - offset
  {
    hide ReadAt;
    if offset == |bytes| {
      assert Decode(bytes + raw, offset + 13 + |e.fp|) == Some({}) && Decode(bytes, offset) == Some({});
      assert {e.fp} + {} == {} + {e.fp};
    } else {
      ReadsLocally(bytes, raw, offset);
      var f := ReadAt(bytes, offset).value.fp;
      DecodeMore(bytes, raw, e, offset + 13 + |f|);
      var rest := Decode(bytes, offset + 13 + |f|).value;
      assert {f} + (rest + {e.fp}) == ({f} + rest) + {e.fp};
    }
  }

  /** The walk gathers exactly the fingerprints of the bytes it hashes. */
  lemma {:induction false} WalkDecodes(data: seq<Byte>, st: Scan)
    requires Decode(st.hashed, 0) == Some(st.index) && Walk(data, st).Some?
    ensures var w := Walk(data, st).value; Decode(w.hashed, 0) == Some(w.index)
    decreases |data| - st.offset
  {
    hide ReadAt, Decode;
    if st.offset < |data| {
      var e := ReadAt(data, st.offset).value;
      var raw := data[st.offset..st.offset + 13 + |e.fp|];
      if e.kind == KIND_FP {
        ReadsAlone(data, st.offset, st.hashed);
        DecodeMore(st.hashed, raw, e, 0);
      }
      if e.kind != KIND_CHECKSUM { WalkDecodes(data, Absorb(st, e, raw)); }
    }
  }

  lemma {:induction false} HexInjective(s: seq<Byte>, t: seq<Byte>)
    requires Hex(s) == Hex(t)
    ensures s == t
    decreases |s|
  {
    if s != [] {
      var n := |s| - 1;
      assert |t| == n + 1;
      var a, b := Hex(s), Hex(t);
      assert a[..2 * n] == Hex(s[..n]) && b[..2 * n] == Hex(t[..n]);
      HexInjective(s[..n], t[..n]);
      assert a[2 * n] == HexDigit(s[n] / 16) && a[2 * n + 1] == HexDigit(s[n] % 16);
      assert b[2 * n] == HexDigit(t[n] / 16) && b[2 * n + 1] == HexDigit(t[n] % 16);
      assert s == s[..n] + [s[n]] && t == t[..n] + [t[n]];
    }
  }

  predicate Collide(sha: Digest, x: seq<Byte>, y: seq<Byte>) { x != y && sha(x) == sha(y) }

  /** Two files that load and carry the same checksum hold the same fingerprints, unless the
      hash function collides on their entries or on their headers and digests. */
  lemma SameChecksum(sha: Digest, a: seq<Byte>, b: seq<Byte>)
    requires Sha(sha) && Sealed(a, sha) && Sealed(b, sha)
    requires var u, v := Walk(a, SCAN_START).value, Walk(b, SCAN_START).value;
      && u.last == v.last && !Collide(sha, u.hashed, v.hashed)
      && !Collide(sha, a[0..HEADER_SIZE] + sha(u.hashed), b[0..HEADER_SIZE] + sha(v.hashed))
    ensures Contents(a) == Contents(b) && a[0..HEADER_SIZE] == b[0..HEADER_SIZE]
  {
    WalkDecodes(a, SCAN_START);
    WalkDecodes(b, SCAN_START);
    hide Walk, Hex;
    var u, v := Walk(a, SCAN_START).value, Walk(b, SCAN_START).value;
    var h, k := a[0..HEADER_SIZE], b[0..HEADER_SIZE];
    HexInjective(sha(h + sha(u.hashed)), sha(k + sha(v.hashed)));
    assert (h + sha(u.hashed))[..HEADER_SIZE] == h && (k + sha(v.hashed))[..HEADER_SIZE] == k;
    assert (h + sha(u.hashed))[HEADER_SIZE..] == sha(u.hashed) && (k + sha(v.hashed))[HEADER_SIZE..] == sha(v.hashed);
  }

  // ----------------------------------------------------------------------- appending

  /** The local variables of the loop in appendLocked. */
  datatype Hunt = Hunt(offset: nat, hashed: seq<Byte>, fpCount: nat, edOffset: int)

  const HUNT_START: Hunt := Hunt(HEADER_SIZE, [], 0, -1)

  function Pass(h: Hunt, e: Entry, raw: seq<Byte>): Hunt {
    var h' := h.(offset := h.offset + 13 + |e.fp|);
    if e.kind == KIND_DIGEST then h'.(edOffset := h.offset)
    else if e.kind == KIND_FP then h'.(hashed := h.hashed + raw, fpCount := h.fpCount + 1)
    else h'
  }

  datatype Hunted = Present | Absent(h: Hunt) | Broken

  ghost predicate AllReadable(fps: seq<Fingerprint>) { forall i :: 0 <= i < |fps| ==> Readable(fps[i]) }

  /** The fingerprint is read before anything that is refused. */
  ghost predicate Seen(fps: seq<Fingerprint>, fp: Fingerprint) {
    exists i {:trigger fps[i]} :: 0 <= i < |fps| && AllReadable(fps[..i + 1]) && Clip(fps[i]) == fp
  }

  ghost predicate NoneSeen(fps: seq<Fingerprint>, fp: Fingerprint, m: nat)
    requires m <= |fps|
  {
    forall i :: 0 <= i < m ==> Readable(fps[i]) && Clip(fps[i]) != fp
  }

  lemma NothingSeen(fps: seq<Fingerprint>, fp: Fingerprint, m: nat)
    requires m <= |fps| && NoneSeen(fps, fp, m)
    ensures m == |fps| ==> !Seen(fps, fp) && AllReadable(fps)
    ensures m < |fps| && !Readable(fps[m]) ==> !Seen(fps, fp) && !AllReadable(fps)
    ensures m < |fps| && Readable(fps[m]) && Clip(fps[m]) == fp ==> Seen(fps, fp)
  {
    if m < |fps| && Readable(fps[m]) && Clip(fps[m]) == fp { assert AllReadable(fps[..m + 1]); }
  }

  /** Short fingerprints are read as they are. */
  lemma ShortSeen(fps: seq<Fingerprint>, fp: Fingerprint)
    requires AllShort(fps)
    ensures AllReadable(fps) && (Seen(fps, fp) <==> fp in Elements(fps))
  {
    forall i | 0 <= i < |fps| ensures Readable(fps[i]) && Clip(fps[i]) == fps[i] {}
    if fp in Elements(fps) {
      var i :| 0 <= i < |fps| && fps[i] == fp;
      assert AllReadable(fps[..i + 1]);
    }
  }

  /** After k records of an image that hold other fingerprints. */
  ghost predicate HuntedTo(sha: Digest, fps: seq<Fingerprint>, fp: Fingerprint, k: nat, h: Hunt) {
    var m := AtMost(k, |fps|);
    && k <= |fps| + 1 && h.offset == OffsetOf(sha, fps, k)
    && h.hashed == EncodeAll(FpEntries(fps[..m])) && NoneSeen(fps, fp, m) && h.fpCount == m
    && h.edOffset == (if k == |fps| + 1 then OffsetOf(sha, fps, |fps|) else -1)
  }

  /** All of an image has been seen, and the fingerprint was not there. */
  ghost predicate NotThere(sha: Digest, fps: seq<Fingerprint>, h: Hunt) {
    && h.hashed == EncodeAll(FpEntries(fps)) && h.fpCount == |fps| && h.edOffset == OffsetOf(sha, fps, |fps|)
  }

  /** The walk of appendLocked: the fingerprint is there already, or where the walk ended. */
  function Find(data: seq<Byte>, fp: Fingerprint, h: Hunt): Hunted
    decreases |data| - h.offset
  {
    if h.offset >= |data| then Broken
    else
      var entry := ReadAt(data, h.offset);
      if entry.None? then Broken
      else
        var e := entry.value;
        if e.kind == KIND_CHECKSUM then Absent(h)
        else if e.kind == KIND_FP && e.fp == fp then Present
        else Find(data, fp, Pass(h, e, data[h.offset..h.offset + 13 + |e.fp|]))
  }

  lemma HuntFp(sha: Digest, fps: seq<Fingerprint>, fp: Fingerprint, k: nat, h: Hunt)
    requires Sha(sha) && k < |fps| && HuntedTo(sha, fps, fp, k, h) && Readable(fps[k]) && Clip(fps[k]) != fp
    ensures HuntedTo(sha, fps, fp, k + 1, Pass(h, Entry(KIND_FP, Clip(fps[k])), Encode(Entry(KIND_FP, fps[k]))))
  {
    hide Image, ReadAt, Encode, OffsetOf, EncodeAll;
    ImageRecord(sha, fps, k);
    EntriesNext(fps, k);
  }

  lemma HuntTurn(sha: Digest, fps: seq<Fingerprint>, fp: Fingerprint, k: nat, h: Hunt)
    requires Sha(sha) && k <= |fps| && HuntedTo(sha, fps, fp, k, h)
    requires k < |fps| ==> Readable(fps[k]) && Clip(fps[k]) != fp
    ensures var e, data := Records(sha, fps)[k], Image(sha, fps);
      && h.offset + 13 + |Clip(e.fp)| <= |data|
      && HuntedTo(sha, fps, fp, k + 1, Pass(h, Entry(e.kind, Clip(e.fp)), data[h.offset..h.offset + 13 + |Clip(e.fp)|]))
  {
    hide Image, ReadAt, Encode, HeaderBytes, Hex;
    ImageRecord(sha, fps, k);
    if k < |fps| { HuntFp(sha, fps, fp, k, h); }
  }

  /** How the walk over an image ends. */
  ghost predicate Ends(sha: Digest, fps: seq<Fingerprint>, fp: Fingerprint, r: Hunted) {
    if Seen(fps, fp) then r == Present
    else if AllReadable(fps) then r.Absent? && NotThere(sha, fps, r.h)
    else r == Broken
  }

  lemma {:induction false} ImageHunt(sha: Digest, fps: seq<Fingerprint>, fp: Fingerprint, k: nat, h: Hunt)
    requires Sha(sha) && HuntedTo(sha, fps, fp, k, h)
    ensures Ends(sha, fps, fp, Find(Image(sha, fps), fp, h))
    decreases |fps| + 1 - k
  {
    hide Image, ReadAt, Encode, HeaderBytes, Hex, EncodeAll, Seen, AllReadable;
    ImageRecord(sha, fps, k);
    NothingSeen(fps, fp, AtMost(k, |fps|));
    if k >= |fps| { RecordShort(sha, fps, k); }
    if k == |fps| + 1 {
      assert fps[..|fps|] == fps;
    } else if k == |fps| || (Readable(fps[k]) && Clip(fps[k]) != fp) {
      HuntTurn(sha, fps, fp, k, h);
      var e := Records(sha, fps)[k];
      ImageHunt(sha, fps, fp, k + 1, Pass(h, Entry(e.kind, Clip(e.fp)), Image(sha, fps)[h.offset..h.offset + 13 + |Clip(e.fp)|]));
    }
  }

  method HuntEntries(data: seq<Byte>, fp: Fingerprint) returns (r: Hunted)
    requires |data| >= HEADER_SIZE
    ensures r == Find(data, fp, HUNT_START)
    ensures r.Absent? ==> HEADER_SIZE <= TailOffset(r.h) <= |data|
  {
    hide ReadAt;
    var h := HUNT_START;
    while h.offset < |data|
      invariant Find(data, fp, HUNT_START) == Find(data, fp, h)
      invariant HEADER_SIZE <= h.offset && (h.edOffset == -1 || HEADER_SIZE <= h.edOffset <= h.offset)
      decreases |data| - h.offset
    {
      var entry := ReadAt(data, h.offset);
      if entry.None? { return Broken; }
      var e := entry.value;
      if e.kind == KIND_CHECKSUM { return Absent(h); }
      if e.kind == KIND_FP && e.fp == fp { return Present; }
      h := Pass(h, e, data[h.offset..h.offset + 13 + |e.fp|]);
    }
    return Broken;
  }

  /** Seek and Write: bytes are overwritten in place and the file grows if it must. */
  function WriteAt(data: seq<Byte>, offset: nat, bytes: seq<Byte>): seq<Byte>
    requires offset <= |data|
  {
    data[..offset] + bytes + (if offset + |bytes| < |data| then data[offset + |bytes|..] else [])
  }

  datatype Appended = Stored | Refused

  /** appendLocked: rewrites the header, overwrites the old digest and checksum and truncates. */
  method AppendBytes(data: seq<Byte>, fp: Fingerprint, sha: Digest, ghost fps: seq<Fingerprint>)
    returns (r: Appended, data': seq<Byte>)
    requires Sha(sha)
    ensures r.Refused? ==> data' == data
    ensures |fps| + 1 < 0x1_0000_0000_0000_0000 && data == Image(sha, fps) ==>
      && (r.Refused? <==> !Seen(fps, fp) && !AllReadable(fps))
      && (r.Stored? ==> data' == if Seen(fps, fp) then data else Image(sha, fps + [fp]))
  {
    if |data| < HEADER_SIZE { return Refused, data; }
    var headerBytes := data[0..HEADER_SIZE];
    ghost var good := |fps| + 1 < 0x1_0000_0000_0000_0000 && data == Image(sha, fps);
    if |fps| < 0x1_0000_0000_0000_0000 { ReadsHeader(|fps|); }
    assert data == Image(sha, fps) ==> headerBytes == HeaderBytes(|fps|);
    var count := Number(headerBytes[8..16]);
    if Number(headerBytes[0..4]) != MAGIC || Number(headerBytes[4..6]) != VERSION { return Refused, data; }
    if good {
      assert fps[..0] == [] && Records(sha, fps)[..0] == [];
      ImageHunt(sha, fps, fp, 0, HUNT_START);
    }
    var found := HuntEntries(data, fp);
    if found.Broken? { return Refused, data; }
    if found.Present? { return Stored, data; }
    var h := found.h;
    if h.fpCount != count { return Refused, data; }
    data' := Rewrite(data, fp, sha, h, count);
    if good {
      ImageBody(sha, fps);
      LongerImage(sha, fps, fp);
    }
    r := Stored;
  }

  /** The new tail, in place of everything from the old digest on. */
  function NewTail(sha: Digest, hashed: seq<Byte>, count: nat, fp: Fingerprint): seq<Byte> {
    var digest := sha(hashed + Encode(Entry(KIND_FP, fp)));
    Encode(Entry(KIND_FP, fp)) + Encode(Entry(KIND_DIGEST, digest))
    + Encode(Entry(KIND_CHECKSUM, Checksum(sha, HeaderBytes(count + 1), digest)))
  }

  function TailOffset(h: Hunt): nat { if h.edOffset >= 0 then h.edOffset else h.offset }

  method Rewrite(data: seq<Byte>, fp: Fingerprint, sha: Digest, h: Hunt, count: nat) returns (data': seq<Byte>)
    requires HEADER_SIZE <= |data| && HEADER_SIZE <= TailOffset(h) <= |data|
    ensures data' == HeaderBytes(count + 1) + data[HEADER_SIZE..TailOffset(h)] + NewTail(sha, h.hashed, count, fp)
  {
    hide Encode, HeaderBytes, Checksum;
    var fpEntry := Encode(Entry(KIND_FP, fp));
    var digest := sha(h.hashed + fpEntry);
    var edEntry := Encode(Entry(KIND_DIGEST, digest));
    var csEntry := Encode(Entry(KIND_CHECKSUM, Checksum(sha, HeaderBytes(count + 1), digest)));
    var offset := TailOffset(h);
    var header := HeaderBytes(count + 1);
    ghost var kept := data[HEADER_SIZE..offset];
    data' := WriteAt(data, 0, header);
    assert data'[..offset] == header + kept;
    data' := WriteNext(data', offset, fpEntry, header + kept);
    data' := WriteNext(data', offset + |fpEntry|, edEntry, header + kept + fpEntry);
    data' := WriteNext(data', offset + |fpEntry| + |edEntry|, csEntry, header + kept + fpEntry + edEntry);
    data' := data'[..offset + |fpEntry| + |edEntry| + |csEntry|];
    Regroup4(header, kept, fpEntry, edEntry, csEntry);
  }

  method WriteNext(data: seq<Byte>, offset: nat, bytes: seq<Byte>, ghost before: seq<Byte>) returns (data': seq<Byte>)
    requires offset <= |data| && data[..offset] == before
    ensures offset + |bytes| <= |data'| && data'[..offset + |bytes|] == before + bytes
  {
    data' := WriteAt(data, offset, bytes);
  }

  lemma Regroup4(h: seq<Byte>, k: seq<Byte>, a: seq<Byte>, b: seq<Byte>, c: seq<Byte>)
    ensures h + k + a + b + c == h + k + (a + b + c)
  {
  }

  lemma EncodeTwo(es: seq<Entry>, a: Entry, b: Entry)
    ensures EncodeAll(es + [a, b]) == EncodeAll(es) + Encode(a) + Encode(b)
  {
    var all := es + [a, b];
    assert all[..|all| - 1] == es + [a] && (es + [a])[..|es|] == es;
  }

  /** An image, part by part. */
  lemma ImageParts(sha: Digest, fps: seq<Fingerprint>, d: seq<Byte>, cs: seq<Byte>)
    requires d == EntriesDigest(sha, fps) && cs == Checksum(sha, HeaderBytes(|fps|), d)
    ensures Image(sha, fps) == HeaderBytes(|fps|) +
            (EncodeAll(FpEntries(fps)) + Encode(Entry(KIND_DIGEST, d)) + Encode(Entry(KIND_CHECKSUM, cs)))
    ensures OffsetOf(sha, fps, |fps|) == HEADER_SIZE + |EncodeAll(FpEntries(fps))|
  {
    EncodeTwo(FpEntries(fps), Entry(KIND_DIGEST, d), Entry(KIND_CHECKSUM, cs));
    assert Records(sha, fps)[..|fps|] == FpEntries(fps);
  }

  lemma ImageBody(sha: Digest, fps: seq<Fingerprint>)
    ensures OffsetOf(sha, fps, |fps|) <= |Image(sha, fps)|
    ensures Image(sha, fps)[HEADER_SIZE..OffsetOf(sha, fps, |fps|)] == EncodeAll(FpEntries(fps))
  {
    var d := EntriesDigest(sha, fps);
    var cs := Checksum(sha, HeaderBytes(|fps|), d);
    ImageParts(sha, fps, d, cs);
    Inside(HeaderBytes(|fps|), EncodeAll(FpEntries(fps)), Encode(Entry(KIND_DIGEST, d)), Encode(Entry(KIND_CHECKSUM, cs)));
  }

  lemma Inside(h: seq<Byte>, body: seq<Byte>, d: seq<Byte>, c: seq<Byte>)
    ensures (h + (body + d + c))[|h|..|h| + |body|] == body
  {
  }

  lemma LongerImage(sha: Digest, fps: seq<Fingerprint>, fp: Fingerprint)
    ensures Image(sha, fps + [fp]) ==
            HeaderBytes(|fps| + 1) + EncodeAll(FpEntries(fps)) + NewTail(sha, EncodeAll(FpEntries(fps)), |fps|, fp)
  {
    var body, entry := EncodeAll(FpEntries(fps)), Encode(Entry(KIND_FP, fp));
    var d := sha(body + entry);
    var cs := Checksum(sha, HeaderBytes(|fps| + 1), d);
    LongerBody(fps, fp);
    ImageParts(sha, fps + [fp], d, cs);
    Associate(HeaderBytes(|fps| + 1), body, entry, Encode(Entry(KIND_DIGEST, d)), Encode(Entry(KIND_CHECKSUM, cs)));
  }

  lemma Associate(h: seq<Byte>, a: seq<Byte>, b: seq<Byte>, c: seq<Byte>, d: seq<Byte>)
    ensures h + ((a + b) + c + d) == h + a + (b + c + d)
  {
  }

  lemma LongerBody(fps: seq<Fingerprint>, fp: Fingerprint)
    ensures EncodeAll(FpEntries(fps + [fp])) == EncodeAll(FpEntries(fps)) + Encode(Entry(KIND_FP, fp))
  {
    var es := FpEntries(fps + [fp]);
    assert es[..|es| - 1] == FpEntries(fps) && es[|es| - 1] == Entry(KIND_FP, fp);
  }

  // ------------------------------------------------------------------- the index file

  const MAX_COUNT: int := 0x1_0000_0000_0000_0000

  ghost predicate Lists(fps: seq<Fingerprint>, index: set<Fingerprint>) { Elements(fps) == index && |fps| == |index| }

  lemma ListsNext(fps: seq<Fingerprint>, index: set<Fingerprint>, fp: Fingerprint)
    requires Lists(fps, index) && fp !in index
    ensures Lists(fps + [fp], index + {fp})
  {
    ElementsNext(fps + [fp], |fps|);
    assert (fps + [fp])[..|fps|] == fps && (fps + [fp])[..|fps| + 1] == fps + [fp];
  }

  lemma ListsShort(fps: seq<Fingerprint>, index: set<Fingerprint>)
    requires Lists(fps, index) && forall f :: f in index ==> Short(f)
    ensures AllShort(fps)
  {
    forall i | 0 <= i < |fps| ensures Short(fps[i]) { assert fps[i] in Elements(fps); }
  }

  /** The entries of an index, in whatever order the map yields them. */
  method EncodeIndex(index: set<Fingerprint>) returns (entries: seq<Byte>, ghost order: seq<Fingerprint>)
    ensures Lists(order, index) && entries == EncodeAll(FpEntries(order))
  {
    var rest := index;
    ghost var seen: set<Fingerprint> := {};
    entries, order := [], [];
    while rest != {}
      invariant rest !! seen && rest + seen == index && Lists(order, seen) && entries == EncodeAll(FpEntries(order))
    {
      var fp :| fp in rest;
      ListsNext(order, seen, fp);
      LongerBody(order, fp);
      entries := entries + Encode(Entry(KIND_FP, fp));
      rest, seen, order := rest - {fp}, seen + {fp}, order + [fp];
    }
    assert seen == index;
  }

  datatype Op = Save(index: set<Fingerprint>) | Append(fp: Fingerprint)

  /** The set a sequence of operations leaves on file; nothing if there was none. */
  function Written(ops: seq<Op>): Option<set<Fingerprint>> {
    if ops == [] then None
    else
      var before := Written(ops[..|ops| - 1]);
      match ops[|ops| - 1]
      case Save(index) => Some(index)
      case Append(fp) => Some((if before.Some? then before.value else {}) + {fp})
  }

  class PersistIndex {
    const sha: Digest
    var present: bool
    var data: seq<Byte>
    ghost var fps: seq<Fingerprint>

    ghost predicate Valid()
      reads this
    {
      Sha(sha) && (present ==> data == Image(sha, fps) && |fps| < MAX_COUNT)
    }

    /** The file holds exactly the given set. */
    ghost predicate Holds(index: set<Fingerprint>)
      reads this
    {
      Valid() && present && Lists(fps, index)
    }

    constructor (sha: Digest)
      requires Sha(sha)
      ensures Valid() && !present && this.sha == sha
    {
      this.sha := sha;
      present, data, fps := false, [], [];
    }

    /** saveLocked. */
    method SaveIndex(index: set<Fingerprint>)
      requires Sha(sha) && |index| < MAX_COUNT
      modifies this
      ensures Holds(index)
    {
      var entries, order := EncodeIndex(index);
      var header, digest := HeaderBytes(|index|), sha(entries);
      var checksum := Checksum(sha, header, digest);
      ImageParts(sha, order, digest, checksum);
      data := header + (entries + Encode(Entry(KIND_DIGEST, digest)) + Encode(Entry(KIND_CHECKSUM, checksum)));
      present, fps := true, order;
    }

    method LoadIndex() returns (found: bool, r: Loaded)
      requires Valid()
      ensures found == present
      ensures present ==> (r == Ok(Elements(fps)) <==> AllShort(fps))
    {
      if !present { return false, Corrupted; }
      found := true;
      r := Load(data, sha);
      if AllShort(fps) {
        ImageSealed(sha, fps);
      } else if r.Ok? {
        WalkShort(data, SCAN_START);
        var i :| 0 <= i < |fps| && !Short(fps[i]);
        assert fps[i] in Elements(fps);
      }
    }

    /** A fingerprint read before the first that is refused is found; otherwise the file is
        refused unless all of it is readable. */
    method AppendFingerprint(fp: Fingerprint, ghost index: set<Fingerprint>) returns (r: Appended)
      requires Valid() && (present ==> |fps| + 1 < MAX_COUNT)
      modifies this
      ensures Valid() && present
      ensures !old(present) ==> r == Stored && Holds({fp})
      ensures old(present) ==> (r.Refused? <==> !Seen(old(fps), fp) && !AllReadable(old(fps)))
      ensures old(present) ==>
        fps == if Seen(old(fps), fp) || !AllReadable(old(fps)) then old(fps) else old(fps) + [fp]
      ensures old(present && Lists(fps, index) && AllShort(fps)) ==> r == Stored && Holds(index + {fp})
    {
      hide Image;
      if !present {
        SaveIndex({fp});
        return Stored;
      }
      ghost var was := fps;
      r, data := AppendBytes(data, fp, sha, fps);
      if !Seen(fps, fp) && AllReadable(fps) { fps := fps + [fp]; }
      if Lists(was, index) && AllShort(was) {
        ShortSeen(was, fp);
        if fp in index { assert index + {fp} == index; } else { ListsNext(was, index, fp); }
      }
    }

    /** What was saved is loaded again exactly when no fingerprint is longer than 1024 bytes. */
    method SaveThenLoad(index: set<Fingerprint>) returns (r: Loaded)
      requires Sha(sha) && |index| < MAX_COUNT
      modifies this
      ensures r == Ok(index) <==> forall f :: f in index ==> Short(f)
    {
      SaveIndex(index);
      var found;
      found, r := LoadIndex();
      if forall f :: f in index ==> Short(f) { ListsShort(fps, index); }
    }

    /** After any saves and appends of fingerprints that are not too long, loading gives exactly
        the set that was written. */
    method Replay(ops: seq<Op>) returns (found: bool, r: Loaded)
      requires Sha(sha) && !present && |ops| > 0
      requires forall i :: 0 <= i <= |ops| && Written(ops[..i]).Some? ==>
                 |Written(ops[..i]).value| + 1 < MAX_COUNT && forall f :: f in Written(ops[..i]).value ==> Short(f)
      modifies this
      ensures found && r == Ok(Written(ops).value)
    {
      hide Seen, AllReadable, Image, AllShort, Elements;
      for i := 0 to |ops|
        invariant Valid() && (i > 0 <==> present) && (i > 0 <==> Written(ops[..i]).Some?)
        invariant i > 0 ==> Holds(Written(ops[..i]).value)
      {
        ghost var before := if i > 0 then Written(ops[..i]).value else {};
        if i > 0 { ListsShort(fps, before); }
        assert ops[..i + 1][..i] == ops[..i];
        assert Written(ops[..i + 1]).Some?;
        match ops[i]
        case Save(index) => SaveIndex(index);
        case Append(fp) => var _ := AppendFingerprint(fp, before);
      }
      assert ops[..|ops|] == ops;
      ListsShort(fps, Written(ops).value);
      found, r := LoadIndex();
    }
  }
}
