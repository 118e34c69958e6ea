/** One 32-byte flash cell: a packed four-byte header followed by 28 data bytes
    (wvars_structs.h), the AND semantics of NOR flash on it, and the hash check. */
module Block {
  const BLOCK_SIZE := 32
  const HEADER_SIZE := 4
  const DATA_SIZE := 28

  const SIZE_INVALID: bv2 := 0
  const SIZE_32: bv2 := 1
  const CURRENT: bv1 := 0
  const NEWER: bv1 := 1

  const BLOCK_OK := 0
  const BLOCK_IS_BLANK := -1
  const BLOCK_IS_INVALID := -2
  const BLOCK_IS_ILLEGALSIZE := -3
  const BLOCK_IS_ERRORED := -4

  datatype Header = Header(ver: bv2, size: bv2, newer: bv1, ext: bv3, hash: bv8, name: bv16)

  type Data = s: seq<bv8> | |s| == DATA_SIZE witness Repeat(0, DATA_SIZE)

  datatype Cell = Cell(hdr: Header, data: Data)

  datatype Key = Key(name: bv16, ext: bv3)

  /** The checksum routine is a parameter: nothing is assumed about it. */
  type Crc = seq<bv8> -> bv32

  const BLANK_HEADER := Header(3, 3, 1, 7, 0xFF, 0xFFFF)
  const BLANK_CELL := Cell(BLANK_HEADER, Repeat(0xFF, DATA_SIZE))

  function Repeat(b: bv8, n: nat): (r: seq<bv8>)
    ensures |r| == n && forall i :: 0 <= i < n ==> r[i] == b
  {
    seq(n, i => b)
  }

  function KeyOf(h: Header): Key {
    Key(h.name, h.ext)
  }

  /** Assigning a `u8_t` to the three-bit field keeps the low bits. */
  function TruncateExt(ext: bv8): bv3 {
    (ext & 7) as bv3
  }

  // ---------------------------------------------------------------- bytes

  /** Bit fields are allocated from the least significant bit. */
  function FlagByte(h: Header): bv8 {
    (h.ver as bv8) | ((h.size as bv8) << 2) | ((h.newer as bv8) << 4) | ((h.ext as bv8) << 5)
  }

  function EncodeHeader(h: Header): (r: seq<bv8>)
    ensures |r| == HEADER_SIZE
  {
    [FlagByte(h), h.hash, (h.name & 0xFF) as bv8, (h.name >> 8) as bv8]
  }

  function HeaderOf(b0: bv8, b1: bv8, b2: bv8, b3: bv8): Header {
    Header((b0 & 3) as bv2, ((b0 >> 2) & 3) as bv2, ((b0 >> 4) & 1) as bv1, (b0 >> 5) as bv3,
           b1, (b2 as bv16) | ((b3 as bv16) << 8))
  }

  function DecodeHeader(b: seq<bv8>): Header
    requires |b| == HEADER_SIZE
  {
    HeaderOf(b[0], b[1], b[2], b[3])
  }

  function EncodeCell(cell: Cell): seq<bv8> {
    EncodeHeader(cell.hdr) + cell.data
  }

  function DecodeCell(b: seq<bv8>): Cell
    requires |b| == BLOCK_SIZE
  {
    Cell(DecodeHeader(b[..HEADER_SIZE]), b[HEADER_SIZE..])
  }

  lemma HeaderRoundTrip(h: Header, b: seq<bv8>)
    requires |b| == HEADER_SIZE
    ensures DecodeHeader(EncodeHeader(h)) == h
    ensures EncodeHeader(DecodeHeader(b)) == b
  {
  }

  /** Cells and 32-byte strings are in bijection, so the layout loses nothing. */
  lemma CellRoundTrip(cell: Cell, b: seq<bv8>)
    requires |b| == BLOCK_SIZE
    ensures |EncodeCell(cell)| == BLOCK_SIZE && DecodeCell(EncodeCell(cell)) == cell
    ensures EncodeCell(DecodeCell(b)) == b
  {
    HeaderRoundTrip(cell.hdr, b[..HEADER_SIZE]);
    assert EncodeCell(cell)[..HEADER_SIZE] == EncodeHeader(cell.hdr);
    assert EncodeCell(cell)[HEADER_SIZE..] == cell.data;
    assert b[..HEADER_SIZE] + b[HEADER_SIZE..] == b;
  }

  // ---------------------------------------------------------------- NOR writes

  function AndHeader(a: Header, b: Header): Header {
    Header(a.ver & b.ver, a.size & b.size, a.newer & b.newer, a.ext & b.ext, a.hash & b.hash, a.name & b.name)
  }

  /** A one-byte write reaches the flag byte only. */
  function AndFlags(a: Header, b: Header): Header {
    a.(ver := a.ver & b.ver, size := a.size & b.size, newer := a.newer & b.newer, ext := a.ext & b.ext)
  }

  function AndBytes(a: seq<bv8>, b: seq<bv8>): (r: seq<bv8>)
    requires |b| <= |a|
    ensures |r| == |a|
  {
    seq(|a|, i requires 0 <= i < |a| => if i < |b| then a[i] & b[i] else a[i])
  }

  function AndCell(a: Cell, b: Cell): Cell
  {
    Cell(AndHeader(a.hdr, b.hdr), AndBytes(a.data, b.data))
  }

  /** Writing 32, 4 or 1 encoded bytes over an encoded cell has exactly the
      field-wise effect that the store model uses. */
  lemma AndWriteCommutes(a: seq<bv8>, b: Cell)
    requires |a| == BLOCK_SIZE
    ensures DecodeCell(AndBytes(a, EncodeCell(b))) == AndCell(DecodeCell(a), b)
    ensures DecodeCell(AndBytes(a, EncodeHeader(b.hdr))) ==
            DecodeCell(a).(hdr := AndHeader(DecodeCell(a).hdr, b.hdr))
    ensures DecodeCell(AndBytes(a, EncodeHeader(b.hdr)[..1])) ==
            DecodeCell(a).(hdr := AndFlags(DecodeCell(a).hdr, b.hdr))
  {
    hide HeaderOf, AndHeader, AndFlags, EncodeHeader;
    var e := EncodeCell(b);
    var h := EncodeHeader(b.hdr);
    assert e[..HEADER_SIZE] == h && e[HEADER_SIZE..] == b.data;
    assert AndBytes(a, e)[HEADER_SIZE..] == AndBytes(a[HEADER_SIZE..], b.data);
    assert AndBytes(a, h)[HEADER_SIZE..] == a[HEADER_SIZE..];
    assert AndBytes(a, h[..1])[HEADER_SIZE..] == a[HEADER_SIZE..];
    AndHeaderBytes(a[..HEADER_SIZE], b.hdr);
    assert AndBytes(a, e)[..HEADER_SIZE] == AndBytes(a[..HEADER_SIZE], h);
    assert AndBytes(a, h)[..HEADER_SIZE] == AndBytes(a[..HEADER_SIZE], h);
    assert AndBytes(a, h[..1])[..HEADER_SIZE] == AndBytes(a[..HEADER_SIZE], h[..1]);
  }

  lemma AndHeaderBytes(a: seq<bv8>, h: Header)
    requires |a| == HEADER_SIZE
    ensures DecodeHeader(AndBytes(a, EncodeHeader(h))) == AndHeader(DecodeHeader(a), h)
    ensures DecodeHeader(AndBytes(a, EncodeHeader(h)[..1])) == AndFlags(DecodeHeader(a), h)
  {
    hide *;
    HeaderRoundTrip(h, a);
    AndFourBytes(a, EncodeHeader(h));
  }

  lemma AndFourBytes(a: seq<bv8>, e: seq<bv8>)
    requires |a| == |e| == HEADER_SIZE
    ensures DecodeHeader(AndBytes(a, e)) == AndHeader(DecodeHeader(a), DecodeHeader(e))
    ensures DecodeHeader(AndBytes(a, e[..1])) == AndFlags(DecodeHeader(a), DecodeHeader(e))
  {
    hide HeaderOf, AndHeader, AndFlags;
    AndBytesPointwise(a, e);
    AndDistributes(a[0], a[1], a[2], a[3], e[0], e[1], e[2], e[3]);
  }

  lemma AndBytesPointwise(a: seq<bv8>, e: seq<bv8>)
    requires |a| == |e| == HEADER_SIZE
    ensures AndBytes(a, e) == [a[0] & e[0], a[1] & e[1], a[2] & e[2], a[3] & e[3]]
    ensures AndBytes(a, e[..1]) == [a[0] & e[0], a[1], a[2], a[3]]
  {
  }

  lemma AndDistributes(a0: bv8, a1: bv8, a2: bv8, a3: bv8, b0: bv8, b1: bv8, b2: bv8, b3: bv8)
    ensures HeaderOf(a0 & b0, a1 & b1, a2 & b2, a3 & b3)
        == AndHeader(HeaderOf(a0, a1, a2, a3), HeaderOf(b0, b1, b2, b3))
    ensures HeaderOf(a0 & b0, a1, a2, a3) == AndFlags(HeaderOf(a0, a1, a2, a3), HeaderOf(b0, b1, b2, b3))
  {
  }

  lemma ClearingBits(h: Header)
    ensures AndHeader(h, h.(newer := CURRENT)) == h.(newer := CURRENT)
    ensures AndFlags(h, h.(newer := CURRENT)) == h.(newer := CURRENT)
    ensures AndHeader(h, h.(size := SIZE_INVALID)) == h.(size := SIZE_INVALID)
    ensures AndFlags(h, h.(size := SIZE_INVALID)) == h.(size := SIZE_INVALID)
  {
    ClearingNewer(h);
    ClearingSize(h);
  }

  lemma ClearingNewer(h: Header)
    ensures AndHeader(h, h.(newer := CURRENT)) == h.(newer := CURRENT)
    ensures AndFlags(h, h.(newer := CURRENT)) == h.(newer := CURRENT)
  {
    AndLaws(h);
  }

  lemma ClearingSize(h: Header)
    ensures AndHeader(h, h.(size := SIZE_INVALID)) == h.(size := SIZE_INVALID)
    ensures AndFlags(h, h.(size := SIZE_INVALID)) == h.(size := SIZE_INVALID)
  {
    AndLaws(h);
  }

  lemma AndLaws(h: Header)
    ensures h.ver & h.ver == h.ver && h.size & h.size == h.size && h.newer & h.newer == h.newer
    ensures h.ext & h.ext == h.ext && h.hash & h.hash == h.hash && h.name & h.name == h.name
    ensures h.newer & CURRENT == CURRENT && h.size & SIZE_INVALID == SIZE_INVALID
  {
  }

  lemma BlankAbsorbs(cell: Cell)
    ensures AndCell(BLANK_CELL, cell) == cell
  {
    assert AndBytes(BLANK_CELL.data, cell.data) == cell.data;
  }

  // ---------------------------------------------------------------- hash

  function HashOf(crc: Crc, cell: Cell): bv8 {
    (crc(EncodeCell(cell.(hdr := cell.hdr.(hash := 0, newer := 0)))) & 0xFF) as bv8
  }

  function CheckCell(crc: Crc, cell: Cell): int {
    if cell.hdr == BLANK_HEADER then BLOCK_IS_BLANK
    else if cell.hdr.size == SIZE_INVALID then BLOCK_IS_INVALID
    else if cell.hdr.size != SIZE_32 then BLOCK_IS_ILLEGALSIZE
    else if cell.hdr.hash != HashOf(crc, cell) then BLOCK_IS_ERRORED
    else BLOCK_OK
  }

  predicate Good(crc: Crc, cell: Cell) {
    CheckCell(crc, cell) == BLOCK_OK
  }

  /** The cell that `updateBlockHash` leaves in the write buffer. */
  function HashedCell(crc: Crc, cell: Cell, size: bv2, newer: bv1): Cell {
    var bare := cell.(hdr := cell.hdr.(ver := 0, size := size, hash := 0, newer := 0));
    bare.(hdr := bare.hdr.(hash := HashOf(crc, bare), newer := newer))
  }

  /** The cell `fs_write` programs for a key and already padded data. */
  function NewCell(crc: Crc, key: Key, data: Data): Cell {
    HashedCell(crc, Cell(Header(0, 0, 0, key.ext, 0, key.name), data), SIZE_32, NEWER)
  }

  /** Header round trip: whatever the checksum function, a freshly built cell
      is never taken for blank and passes the check, still passes after
      `newer` is cleared in place, and is invalid for good once `size` is
      cleared in place; none of this touches key or data. */
  lemma HeaderProtocol(crc: Crc, cell: Cell, newer: bv1)
    ensures var built := HashedCell(crc, cell, SIZE_32, newer);
            && Good(crc, built) && built.data == cell.data && KeyOf(built.hdr) == KeyOf(cell.hdr)
            && built.hdr.newer == newer
            && Good(crc, built.(hdr := AndFlags(built.hdr, built.hdr.(newer := CURRENT))))
            && CheckCell(crc, built.(hdr := AndFlags(built.hdr, built.hdr.(size := SIZE_INVALID)))) == BLOCK_IS_INVALID
  {
    var built := HashedCell(crc, cell, SIZE_32, newer);
    GoodSurvivesClear(crc, built);
    ClearingBits(built.hdr);
  }

  lemma GoodSurvivesClear(crc: Crc, cell: Cell)
    ensures Good(crc, cell) ==> Good(crc, cell.(hdr := cell.hdr.(newer := CURRENT)))
    ensures !Good(crc, cell.(hdr := cell.hdr.(size := SIZE_INVALID)))
    ensures cell.hdr.(newer := CURRENT) != BLANK_HEADER
    ensures cell.hdr.(size := SIZE_INVALID) != BLANK_HEADER
  {
    var cleared := cell.(hdr := cell.hdr.(newer := CURRENT));
    assert cleared.(hdr := cleared.hdr.(hash := 0, newer := 0)) == cell.(hdr := cell.hdr.(hash := 0, newer := 0));
  }

  // ---------------------------------------------------------------- in place

  /** The struct view and the bytes of a buffer move together. */
  lemma FieldWrites(b0: bv8, b1: bv8, b2: bv8, b3: bv8, hash: bv8, size: bv2, newer: bv1)
    ensures HeaderOf(b0 & 0xEF, hash, b2, b3) == HeaderOf(b0, b1, b2, b3).(newer := 0, hash := hash)
    ensures (b0 & 0xEF) | (((b0 >> 4) & 1) << 4) == b0
    ensures HeaderOf((b0 & 0xE0) | ((size as bv8) << 2), hash, b2, b3)
            == HeaderOf(b0, b1, b2, b3).(ver := 0, size := size, newer := 0, hash := hash)
    ensures b0 & 0x10 == 0 ==>
              HeaderOf(b0 | ((newer as bv8) << 4), hash, b2, b3)
                == HeaderOf(b0, b1, b2, b3).(newer := newer, hash := hash)
    ensures ((b0 & 0xE0) | ((size as bv8) << 2)) & 0x10 == 0
    ensures HeaderOf(b0, b1, b2, b3).size as bv8 == ((b0 >> 2) & 3)
    ensures HeaderOf(b0, b1, b2, b3).hash == b1
  {
  }

  lemma BlankBytes(b0: bv8, b1: bv8, b2: bv8, b3: bv8)
    ensures HeaderOf(b0, b1, b2, b3) == BLANK_HEADER <==> b0 == b1 == b2 == b3 == 0xFF
  {
  }

  /** Overwriting the first two bytes of a buffer is a struct update. */
  lemma BufferUpdate(b: seq<bv8>, flags: bv8, hash: bv8, hdr: Header)
    requires |b| == BLOCK_SIZE && HeaderOf(flags, hash, b[2], b[3]) == hdr
    ensures DecodeCell(b[0 := flags][1 := hash]) == Cell(hdr, b[HEADER_SIZE..])
    ensures EncodeCell(Cell(hdr, b[HEADER_SIZE..])) == b[0 := flags][1 := hash]
  {
    hide HeaderOf;
    var u := b[0 := flags][1 := hash];
    assert u[HEADER_SIZE..] == b[HEADER_SIZE..];
    CellRoundTrip(Cell(hdr, b[HEADER_SIZE..]), u);
  }

  /** `CheckCell` restated on the bytes that the C code manipulates. */
  lemma CheckOnBytes(crc: Crc, b: seq<bv8>)
    requires |b| == BLOCK_SIZE
    ensures (b[0] & 0xEF) | (((b[0] >> 4) & 1) << 4) == b[0]
    ensures CheckCell(crc, DecodeCell(b)) ==
            if b[0] == b[1] == b[2] == b[3] == 0xFF then -1
            else if (b[0] >> 2) & 3 == 0 then -2
            else if (b[0] >> 2) & 3 != 1 then -3
            else if b[1] != (crc(b[0 := b[0] & 0xEF][1 := 0]) & 0xFF) as bv8 then -4
            else 0
  {
    hide HeaderOf, EncodeCell;
    var cell := DecodeCell(b);
    BlankBytes(b[0], b[1], b[2], b[3]);
    FieldWrites(b[0], b[1], b[2], b[3], 0, 0, 0);
    BufferUpdate(b, b[0] & 0xEF, 0, cell.hdr.(hash := 0, newer := 0));
  }

  lemma HashOnBytes(crc: Crc, b: seq<bv8>, flags: bv8, size: bv2, newer: bv1)
    requires |b| == BLOCK_SIZE && flags == (b[0] & 0xE0) | ((size as bv8) << 2)
    ensures DecodeCell(b[0 := flags | ((newer as bv8) << 4)][1 := (crc(b[0 := flags][1 := 0]) & 0xFF) as bv8])
            == HashedCell(crc, DecodeCell(b), size, newer)
  {
    hide HeaderOf, EncodeCell;
    var cell := DecodeCell(b);
    var bare := cell.(hdr := cell.hdr.(ver := 0, size := size, hash := 0, newer := 0));
    assert bare.(hdr := bare.hdr.(hash := 0, newer := 0)) == bare;
    FieldWrites(b[0], b[1], b[2], b[3], 0, size, 0);
    BufferUpdate(b, flags, 0, bare.hdr);
    FieldWrites(flags, 0, b[2], b[3], HashOf(crc, bare), 0, newer);
    BufferUpdate(b, flags | ((newer as bv8) << 4), HashOf(crc, bare),
      bare.hdr.(hash := HashOf(crc, bare), newer := newer));
  }

  method CheckBlock(crc: Crc, buffer: array<bv8>) returns (r: int)
    requires buffer.Length == BLOCK_SIZE
    modifies buffer
    ensures buffer[..] == old(buffer[..])
    ensures r == CheckCell(crc, DecodeCell(buffer[..]))
  {
    hide CheckCell, DecodeCell;
    ghost var b := buffer[..];
    CheckOnBytes(crc, b);
    if buffer[0] == 0xFF && buffer[1] == 0xFF && buffer[2] == 0xFF && buffer[3] == 0xFF {
      return BLOCK_IS_BLANK;
    }
    var size := (buffer[0] >> 2) & 3;
    if size == 0 {
      return BLOCK_IS_INVALID;
    } else if size != 1 {
      return BLOCK_IS_ILLEGALSIZE;
    }
    var hash := buffer[1];
    var newer := (buffer[0] >> 4) & 1;
    buffer[1] := 0;
    buffer[0] := buffer[0] & 0xEF;
    assert buffer[..] == b[0 := b[0] & 0xEF][1 := 0];
    var crc32 := crc(buffer[..]);
    buffer[1] := hash;
    buffer[0] := buffer[0] | (newer << 4);
    assert buffer[..] == b;
    if hash != (crc32 & 0xFF) as bv8 {
      return BLOCK_IS_ERRORED;
    }
    return BLOCK_OK;
  }

  method UpdateBlockHash(crc: Crc, buffer: array<bv8>, size: bv2, newer: bv1)
    requires buffer.Length == BLOCK_SIZE
    modifies buffer
    ensures DecodeCell(buffer[..]) == HashedCell(crc, DecodeCell(old(buffer[..])), size, newer)
  {
    hide HashedCell, DecodeCell;
    ghost var b := buffer[..];
    buffer[0] := (buffer[0] & 0xE0) | ((size as bv8) << 2);
    buffer[1] := 0;
    ghost var flags := buffer[0];
    assert buffer[..] == b[0 := flags][1 := 0];
    HashOnBytes(crc, b, flags, size, newer);
    var crc32 := crc(buffer[..]);
    buffer[1] := (crc32 & 0xFF) as bv8;
    buffer[0] := buffer[0] | ((newer as bv8) << 4);
    assert buffer[..] == b[0 := buffer[0]][1 := buffer[1]];
  }
}
