/** The flash device of ll_mock/FlashMock.cc: a list of written chunks per sector.
    Over block-aligned accesses it is a NOR array of cells. */
module FlashDevice {
  import opened Arithmetic
  import opened Block
  import opened Store

  const FIRST_SECTOR_ADDRESS := 0x0F4000
  const CHUNK_MAX := 256
  const BUFFER_CHUNK_MAX := 256
  const U32 := 0x1_0000_0000

  datatype Chunk = Chunk(address: nat, buffer: seq<bv8>)

  type Chunks = seq<seq<Chunk>>

  function SectorSize(c: Config): nat {
    c.slots * BLOCK_SIZE
  }

  /** `Sector_base[sector] + 32 * slot` (wormvars.c:69-99). */
  function ByteAddress(c: Config, a: Addr): nat {
    FIRST_SECTOR_ADDRESS + (a.sector * c.slots + a.slot) * BLOCK_SIZE
  }

  // ---------------------------------------------------------------- what the code does

  function Quotient(x: nat, n: nat): nat
    requires n > 0
  {
    QuotientNonNegative(x, n);
    x / n
  }

  lemma QuotientNonNegative(x: nat, n: nat)
    requires n > 0
    ensures x / n >= 0
  {
  }

  /** Subtraction of `unsigned int` wraps, so addresses below the device are out of range too. */
  function SectorOf(c: Config, address: nat): (r: Option<nat>)
    requires ValidConfig(c) && address < U32
    ensures r.Some? ==> r.value < c.sectors
  {
    var sector := Quotient((address + U32 - FIRST_SECTOR_ADDRESS) % U32, SectorSize(c));
    if sector >= c.sectors then None else Some(sector)
  }

  function FindChunk(chunks: seq<Chunk>, address: nat): (r: nat)
    ensures r <= |chunks|
    ensures r < |chunks| ==> chunks[r].address == address
    ensures forall j :: 0 <= j < r ==> chunks[j].address != address
  {
    if chunks == [] then 0
    else if chunks[0].address == address then 0
    else 1 + FindChunk(chunks[1..], address)
  }

  /** Rewriting clears bits of bytes already written and appends the others. */
  function Merge(buffer: seq<bv8>, data: seq<bv8>): (r: seq<bv8>)
    ensures |r| == if |data| > |buffer| then |data| else |buffer|
  {
    seq(if |data| > |buffer| then |data| else |buffer|, i requires 0 <= i < |data| || 0 <= i < |buffer| =>
      if i >= |data| then buffer[i] else if i < |buffer| then buffer[i] & data[i] else data[i])
  }

  function Accepts(c: Config, flash: Chunks, address: nat, size: nat): bool
    requires ValidConfig(c) && address < U32 && |flash| == c.sectors
  {
    size <= BUFFER_CHUNK_MAX && SectorOf(c, address).Some? && |flash[SectorOf(c, address).value]| <= CHUNK_MAX
  }

  function WriteSector(chunks: seq<Chunk>, address: nat, data: seq<bv8>): seq<Chunk> {
    var j := FindChunk(chunks, address);
    if j < |chunks| then chunks[j := Chunk(address, Merge(chunks[j].buffer, data))]
    else chunks + [Chunk(address, data)]
  }

  function WriteChunks(c: Config, flash: Chunks, address: nat, data: seq<bv8>): (r: Chunks)
    requires ValidConfig(c) && address < U32 && |flash| == c.sectors
    ensures |r| == c.sectors
  {
    if !Accepts(c, flash, address, |data|) then flash
    else
      var s := SectorOf(c, address).value;
      flash[s := WriteSector(flash[s], address, data)]
  }

  /** The first `size` bytes of a chunk, read as 0xFF where nothing was written. */
  function Extended(buffer: seq<bv8>, size: nat): (r: seq<bv8>)
    ensures |r| == size
  {
    seq(size, i requires 0 <= i < size => if i < |buffer| then buffer[i] else 0xFF)
  }

  function ReadSector(chunks: seq<Chunk>, address: nat, size: nat): (r: seq<bv8>)
    ensures |r| == size
  {
    var j := FindChunk(chunks, address);
    if j < |chunks| then Extended(chunks[j].buffer, size) else Extended([], size)
  }

  function EraseChunks(c: Config, flash: Chunks, address: nat): (r: Chunks)
    requires ValidConfig(c) && address < U32 && |flash| == c.sectors
    ensures |r| == c.sectors
  {
    if SectorOf(c, address).None? then flash else flash[SectorOf(c, address).value := []]
  }

  // ---------------------------------------------------------------- what it means

  function SlotOf(c: Config, address: nat): nat
    requires ValidConfig(c) && address >= FIRST_SECTOR_ADDRESS
  {
    ((address - FIRST_SECTOR_ADDRESS) / BLOCK_SIZE) % c.slots
  }

  predicate Aligned(c: Config, s: nat, address: nat)
    requires ValidConfig(c)
  {
    address >= FIRST_SECTOR_ADDRESS && address == ByteAddress(c, Addr(s, SlotOf(c, address)))
  }

  /** Only whole blocks were ever written: chunk addresses are block addresses of
      their sector, each at most once, with at most a block of data. */
  ghost predicate Blocked(c: Config, flash: Chunks) {
    && ValidConfig(c) && |flash| == c.sectors
    && (forall s, j :: 0 <= s < c.sectors && 0 <= j < |flash[s]| ==>
          Aligned(c, s, flash[s][j].address) && |flash[s][j].buffer| <= BLOCK_SIZE)
    && (forall s, i, j :: 0 <= s < c.sectors && 0 <= i < j < |flash[s]| ==> flash[s][i].address != flash[s][j].address)
  }

  function BytesAt(c: Config, flash: Chunks, a: Addr): (r: seq<bv8>)
    requires a.sector < |flash|
    ensures |r| == BLOCK_SIZE
  {
    ReadSector(flash[a.sector], ByteAddress(c, a), BLOCK_SIZE)
  }

  /** The device as the image of cells that the store works on. */
  ghost function Cells(c: Config, flash: Chunks): (im: Image)
    requires |flash| == c.sectors
    ensures Dims(c, im)
  {
    map a | a in Rows(c, c.sectors) :: DecodeCell(BytesAt(c, flash, a))
  }

  // ---------------------------------------------------------------- addresses

  lemma OffsetBound(s: nat, k: nat, n: nat)
    requires s < 255 && n <= 255 && k < n
    ensures 0 <= s * n + k < 65025
  {
    MulMonotone(s, 254, n);
  }

  lemma AddressBounds(c: Config, a: Addr)
    requires ValidConfig(c) && InRange(c, a)
    ensures FIRST_SECTOR_ADDRESS <= ByteAddress(c, a) < U32
  {
    OffsetBound(a.sector, a.slot, c.slots);
  }

  /** The bytes of sector `s`, from 0x0F4000 on and without gaps (wormvars.c:69-99). */
  predicate LiesIn(c: Config, s: nat, address: nat) {
    0x0F4000 + s * (c.slots * 32) <= address < 0x0F4000 + (s + 1) * (c.slots * 32)
  }

  /** `address_to_sector` finds exactly the sector that an address lies in, wherever in
      it, and none for the addresses before and after the device. */
  lemma SectorOfIs(c: Config, address: nat)
    requires ValidConfig(c) && address < U32
    ensures forall s :: 0 <= s < c.sectors ==> (SectorOf(c, address) == Some(s) <==> LiesIn(c, s, address))
  {
    forall s | 0 <= s < c.sectors
      ensures SectorOf(c, address) == Some(s) <==> LiesIn(c, s, address)
    {
      DeviceSize(c, s);
      OffsetLiesIn(address, s, SectorSize(c));
    }
  }

  /** Addresses below the first sector wrap to offsets beyond the device. */
  lemma OffsetLiesIn(address: nat, s: nat, size: nat)
    requires address < U32 && size > 0 && (s + 1) * size <= 2080800
    ensures Quotient((address + U32 - FIRST_SECTOR_ADDRESS) % U32, size) == s
       <==> 0x0F4000 + s * size <= address < 0x0F4000 + (s + 1) * size
  {
    var offset := (address + U32 - FIRST_SECTOR_ADDRESS) % U32;
    QuotientIs(offset, size, s);
    hide Quotient;
    assert offset == if address >= FIRST_SECTOR_ADDRESS then address - FIRST_SECTOR_ADDRESS
                     else address + U32 - FIRST_SECTOR_ADDRESS;
  }

  /** As shipped the sectors are those of wormvars.c:69-76. */
  lemma ShippedSectors(c: Config, address: nat)
    requires ValidConfig(c) && address < U32 && c.sectors == 8 && c.slots == 128
    ensures forall s: nat ::
        SectorOf(c, address) == Some(s) <==> s < 8 && 0x0F4000 + 0x1000 * s <= address < 0x0F5000 + 0x1000 * s
  {
    hide SectorOf;
    SectorOfIs(c, address);
  }

  /** Where slot `k` of sector `s` lies: block after block from the base of the sector. */
  lemma BlockAddress(c: Config, s: nat, k: nat)
    requires ValidConfig(c) && InRange(c, Addr(s, k))
    ensures ByteAddress(c, Addr(s, k)) == 0x0F4000 + s * (c.slots * 32) + 32 * k
    ensures c.slots == 128 ==> ByteAddress(c, Addr(s, k)) == 0x0F4000 + 0x1000 * s + 32 * k
    ensures LiesIn(c, s, ByteAddress(c, Addr(s, k))) && LiesIn(c, s, ByteAddress(c, Addr(s, k)) + 31)
  {
    BlockOffset(s, k, c.slots);
  }

  lemma BlockOffset(s: nat, k: nat, n: nat)
    requires k < n
    ensures (s * n + k) * 32 == s * (n * 32) + 32 * k
    ensures 32 * k + 32 <= n * 32 && (s + 1) * (n * 32) == s * (n * 32) + n * 32
  {
    MulAssociates(s, n, 32);
  }

  lemma DeviceSize(c: Config, s: nat)
    requires ValidConfig(c) && s < c.sectors
    ensures SectorSize(c) == c.slots * 32 > 0 && (s + 1) * SectorSize(c) <= 2080800
  {
    MulMonotone(s + 1, 255, SectorSize(c));
  }

  lemma QuotientIs(x: nat, n: nat, q: nat)
    requires n > 0
    ensures Quotient(x, n) == q <==> q * n <= x < (q + 1) * n
  {
    var r := x / n;
    assert x == r * n + x % n;
    if q < r { MulMonotone(q + 1, r, n); }
    if q > r { MulMonotone(r + 1, q, n); assert (r + 1) * n == r * n + n; }
    if q == r { assert (r + 1) * n == r * n + n; }
  }

  /** Block addresses identify their slot, and `address_to_sector` finds their sector. */
  lemma AddressRoundTrip(c: Config, a: Addr)
    requires ValidConfig(c) && InRange(c, a)
    ensures ByteAddress(c, a) < U32 && SectorOf(c, ByteAddress(c, a)) == Some(a.sector)
    ensures ByteAddress(c, a) >= FIRST_SECTOR_ADDRESS && SlotOf(c, ByteAddress(c, a)) == a.slot
  {
    AddressBounds(c, a);
    DivMod(a.sector, a.slot, c.slots);
    var offset := ByteAddress(c, a) - FIRST_SECTOR_ADDRESS;
    assert offset / BLOCK_SIZE == a.sector * c.slots + a.slot;
    assert (ByteAddress(c, a) + U32 - FIRST_SECTOR_ADDRESS) % U32 == offset;
    MulAssociates(a.sector, c.slots, BLOCK_SIZE);
    DivMod(a.sector, a.slot * BLOCK_SIZE, SectorSize(c));
  }

  lemma AddressInjective(c: Config, a: Addr, b: Addr)
    requires ValidConfig(c) && InRange(c, a) && InRange(c, b) && ByteAddress(c, a) == ByteAddress(c, b)
    ensures a == b
  {
    AddressRoundTrip(c, a);
    AddressRoundTrip(c, b);
  }

  // ---------------------------------------------------------------- accesses at any address

  /** Chunk `j` is the one that an access at `address` meets: the first with that address. */
  predicate Meets(chunks: seq<Chunk>, address: nat, j: nat) {
    && j < |chunks| && chunks[j].address == address
    && forall i :: 0 <= i < j ==> chunks[i].address != address
  }

  lemma {:induction false} MeetsFound(chunks: seq<Chunk>, address: nat)
    ensures forall j: nat :: Meets(chunks, address, j) ==> j == FindChunk(chunks, address)
    ensures FindChunk(chunks, address) < |chunks| ==> Meets(chunks, address, FindChunk(chunks, address))
  {
    hide FindChunk;
  }

  /** A read of any size at any address: the bytes of the chunk with exactly that
      address, then 0xFF. */
  lemma ReadAnywhere(chunks: seq<Chunk>, address: nat, size: nat, i: nat)
    requires i < size
    ensures forall j: nat :: Meets(chunks, address, j) ==>
              ReadSector(chunks, address, size)[i] == if i < |chunks[j].buffer| then chunks[j].buffer[i] else 0xFF
    ensures (forall j: nat :: !Meets(chunks, address, j)) ==> ReadSector(chunks, address, size)[i] == 0xFF
  {
    hide FindChunk;
    MeetsFound(chunks, address);
  }

  /** A write at any address: refused if longer than 256 bytes, outside the device, or in
      a sector of more than 256 chunks. Otherwise the bytes already written at this
      address are ANDed, the others set, and no other chunk and no other sector changes. */
  lemma WriteAnywhere(c: Config, flash: Chunks, address: nat, data: seq<bv8>, s: nat)
    requires ValidConfig(c) && address < U32 && |flash| == c.sectors && s < c.sectors
    ensures var flash' := WriteChunks(c, flash, address, data);
            && (|data| > 256 || |flash[s]| > 256 || !LiesIn(c, s, address) ==> flash'[s] == flash[s])
            && (|data| <= 256 && |flash[s]| <= 256 && LiesIn(c, s, address) ==>
                  && ((forall j: nat :: !Meets(flash[s], address, j)) ==>
                        flash'[s] == flash[s] + [Chunk(address, data)])
                  && (forall j: nat :: Meets(flash[s], address, j) ==>
                        j < |flash'[s]| && flash'[s] == flash[s][j := flash'[s][j]]
                        && flash'[s][j].address == address && Overlaid(flash[s][j].buffer, data, flash'[s][j].buffer)))
  {
    hide SectorOf, FindChunk, LiesIn;
    SectorOfIs(c, address);
    MeetsFound(flash[s], address);
  }

  predicate Overlaid(before: seq<bv8>, data: seq<bv8>, after: seq<bv8>) {
    && |after| == (if |data| > |before| then |data| else |before|)
    && forall i :: 0 <= i < |after| ==>
         after[i] == if i >= |data| then before[i] else if i < |before| then before[i] & data[i] else data[i]
  }

  // ---------------------------------------------------------------- refinement

  ghost function Slots(c: Config, chunks: seq<Chunk>): set<nat>
    requires ValidConfig(c) && forall j :: 0 <= j < |chunks| ==> chunks[j].address >= FIRST_SECTOR_ADDRESS
  {
    set j | 0 <= j < |chunks| :: SlotOf(c, chunks[j].address)
  }

  lemma SlotInRange(c: Config, address: nat)
    requires ValidConfig(c) && address >= FIRST_SECTOR_ADDRESS
    ensures SlotOf(c, address) < c.slots
  {
  }

  lemma {:induction false} SectorChunks(c: Config, s: nat, chunks: seq<Chunk>)
    requires ValidConfig(c) && s < c.sectors
    requires forall j :: 0 <= j < |chunks| ==> chunks[j].address >= FIRST_SECTOR_ADDRESS
    requires forall j :: 0 <= j < |chunks| ==> Aligned(c, s, chunks[j].address)
    requires forall i, j :: 0 <= i < j < |chunks| ==> chunks[i].address != chunks[j].address
    ensures |chunks| == |Slots(c, chunks)|
  {
    hide ByteAddress, SlotOf;
    if chunks == [] {
      assert Slots(c, chunks) == {};
    } else {
      var n := |chunks| - 1;
      SectorChunks(c, s, chunks[..n]);
      assert forall j :: 0 <= j < n ==> chunks[..n][j].address >= FIRST_SECTOR_ADDRESS;
      assert Slots(c, chunks) == Slots(c, chunks[..n]) + {SlotOf(c, chunks[n].address)};
      assert SlotOf(c, chunks[n].address) !in Slots(c, chunks[..n]);
    }
  }

  /** The chunk limit is never hit: a sector holds at most one chunk per slot. */
  lemma ChunkLimit(c: Config, flash: Chunks, s: nat)
    requires Blocked(c, flash) && s < c.sectors
    ensures |flash[s]| <= c.slots <= CHUNK_MAX
  {
    hide SlotOf, ByteAddress;
    assert forall j :: 0 <= j < |flash[s]| ==> Aligned(c, s, flash[s][j].address);
    SectorChunks(c, s, flash[s]);
    forall k | k in Slots(c, flash[s])
      ensures k < c.slots
    {
      var j :| 0 <= j < |flash[s]| && k == SlotOf(c, flash[s][j].address);
      SlotInRange(c, flash[s][j].address);
    }
    BelowBound(Slots(c, flash[s]), c.slots);
  }

  /** An aligned write of at most a block is accepted, and is a NOR write of its block. */
  lemma WriteRefines(c: Config, flash: Chunks, a: Addr, data: seq<bv8>)
    requires Blocked(c, flash) && InRange(c, a) && |data| <= BLOCK_SIZE
    ensures ByteAddress(c, a) < U32 && Accepts(c, flash, ByteAddress(c, a), |data|)
    ensures var flash' := WriteChunks(c, flash, ByteAddress(c, a), data);
            && Blocked(c, flash')
            && (forall b :: InRange(c, b) ==>
                  BytesAt(c, flash', b) == if b == a then AndBytes(BytesAt(c, flash, a), data)
                    else BytesAt(c, flash, b))
  {
    hide SlotOf, ByteAddress, SectorOf, FindChunk, WriteSector, ReadSector;
    AddressRoundTrip(c, a);
    ChunkLimit(c, flash, a.sector);
    var address := ByteAddress(c, a);
    var flash' := WriteChunks(c, flash, address, data);
    WriteSectorBlocked(c, a.sector, flash[a.sector], a, data);
    forall b | InRange(c, b)
      ensures BytesAt(c, flash', b) == if b == a then AndBytes(BytesAt(c, flash, a), data) else BytesAt(c, flash, b)
    {
      if b.sector == a.sector {
        if b != a { DistinctBlocks(c, a, b); }
        WriteSectorBytes(flash[a.sector], address, data, ByteAddress(c, b));
      }
    }
  }

  lemma DistinctBlocks(c: Config, a: Addr, b: Addr)
    requires ValidConfig(c) && InRange(c, a) && InRange(c, b) && a != b
    ensures ByteAddress(c, a) != ByteAddress(c, b)
  {
    hide ByteAddress;
    if ByteAddress(c, a) == ByteAddress(c, b) { AddressInjective(c, a, b); }
  }

  lemma WriteSectorBlocked(c: Config, s: nat, chunks: seq<Chunk>, a: Addr, data: seq<bv8>)
    requires ValidConfig(c) && InRange(c, a) && a.sector == s && |data| <= BLOCK_SIZE
    requires forall j :: 0 <= j < |chunks| ==> Aligned(c, s, chunks[j].address) && |chunks[j].buffer| <= BLOCK_SIZE
    requires forall i, j :: 0 <= i < j < |chunks| ==> chunks[i].address != chunks[j].address
    ensures var chunks' := WriteSector(chunks, ByteAddress(c, a), data);
            && (forall j :: 0 <= j < |chunks'| ==>
               Aligned(c, s, chunks'[j].address) && |chunks'[j].buffer| <= BLOCK_SIZE)
            && (forall i, j :: 0 <= i < j < |chunks'| ==> chunks'[i].address != chunks'[j].address)
  {
    AddressRoundTrip(c, a);
    assert Aligned(c, s, ByteAddress(c, a));
    hide SlotOf, ByteAddress, FindChunk, Aligned;
  }

  lemma {:induction false} FindChunkIs(chunks: seq<Chunk>, address: nat, r: nat)
    requires r <= |chunks| && (r < |chunks| ==> chunks[r].address == address)
    requires forall j :: 0 <= j < r ==> chunks[j].address != address
    ensures FindChunk(chunks, address) == r
  {
    hide FindChunk;
  }

  /** One sector: a write ANDs the block it names and leaves the others. */
  lemma WriteSectorBytes(chunks: seq<Chunk>, address: nat, data: seq<bv8>, other: nat)
    requires |data| <= BLOCK_SIZE
    requires forall j :: 0 <= j < |chunks| ==> |chunks[j].buffer| <= BLOCK_SIZE
    ensures ReadSector(WriteSector(chunks, address, data), other, BLOCK_SIZE) ==
            if other == address then AndBytes(ReadSector(chunks, address, BLOCK_SIZE), data)
              else ReadSector(chunks, other, BLOCK_SIZE)
  {
    hide FindChunk;
    var j := FindChunk(chunks, address);
    var chunks' := WriteSector(chunks, address, data);
    if other == address {
      FindChunkIs(chunks', address, j);
      MergeIsAnd(if j < |chunks| then chunks[j].buffer else [], data);
      if j == |chunks| { assert Merge([], data) == data; }
    } else {
      var k := FindChunk(chunks, other);
      FindChunkIs(chunks', other, if k == |chunks| then |chunks'| else k);
    }
  }

  lemma MergeIsAnd(buffer: seq<bv8>, data: seq<bv8>)
    requires |buffer| <= BLOCK_SIZE && |data| <= BLOCK_SIZE
    ensures Extended(Merge(buffer, data), BLOCK_SIZE) == AndBytes(Extended(buffer, BLOCK_SIZE), data)
  {
    forall i | 0 <= i < BLOCK_SIZE
      ensures Extended(Merge(buffer, data), BLOCK_SIZE)[i] == AndBytes(Extended(buffer, BLOCK_SIZE), data)[i]
    {
      if i < |data| && i >= |buffer| { OnesAbsorb(data[i]); }
    }
  }

  lemma OnesAbsorb(b: bv8)
    ensures 0xFF & b == b
  {
  }

  lemma EraseRefines(c: Config, flash: Chunks, s: nat)
    requires Blocked(c, flash) && s < c.sectors
    ensures ByteAddress(c, Addr(s, 0)) < U32
    ensures var flash' := EraseChunks(c, flash, ByteAddress(c, Addr(s, 0)));
            && Blocked(c, flash')
            && (forall b :: InRange(c, b) ==>
                  BytesAt(c, flash', b) == if b.sector == s then Repeat(0xFF, BLOCK_SIZE) else BytesAt(c, flash, b))
  {
    AddressRoundTrip(c, Addr(s, 0));
    hide SlotOf, ByteAddress, SectorOf;
    assert Extended([], BLOCK_SIZE) == Repeat(0xFF, BLOCK_SIZE);
  }

  // ---------------------------------------------------------------- as cells

  lemma CellsWrite(c: Config, flash: Chunks, a: Addr, data: seq<bv8>)
    requires Blocked(c, flash) && InRange(c, a) && |data| <= BLOCK_SIZE
    ensures ByteAddress(c, a) < U32
    ensures Cells(c, WriteChunks(c, flash, ByteAddress(c, a), data)) ==
            Cells(c, flash)[a := DecodeCell(AndBytes(BytesAt(c, flash, a), data))]
  {
    hide ByteAddress, WriteChunks, BytesAt, AndBytes, DecodeCell;
    AddressRoundTrip(c, a);
    WriteRefines(c, flash, a, data);
  }

  /** The three writes of the store, as bytes over chunks, are the store's flash operations. */
  lemma StoreWrites(c: Config, flash: Chunks, a: Addr, cell: Cell)
    requires Blocked(c, flash) && InRange(c, a)
    ensures |EncodeCell(cell)| == BLOCK_SIZE
    ensures var was := Cells(c, flash)[a];
            && DecodeCell(AndBytes(BytesAt(c, flash, a), EncodeCell(cell))) == AndCell(was, cell)
            && DecodeCell(AndBytes(BytesAt(c, flash, a), EncodeHeader(cell.hdr)))
               == was.(hdr := AndHeader(was.hdr, cell.hdr))
            && DecodeCell(AndBytes(BytesAt(c, flash, a), EncodeHeader(cell.hdr)[..1]))
               == was.(hdr := AndFlags(was.hdr, cell.hdr))
  {
    hide ByteAddress, BytesAt, AndBytes, DecodeCell, EncodeHeader, AndCell, AndHeader, AndFlags, EncodeCell;
    CellRoundTrip(cell, BytesAt(c, flash, a));
    AndWriteCommutes(BytesAt(c, flash, a), cell);
  }

  lemma BlankBlock()
    ensures DecodeCell(Repeat(0xFF, BLOCK_SIZE)) == BLANK_CELL
  {
    var b := Repeat(0xFF, BLOCK_SIZE);
    BlankBytes(b[0], b[1], b[2], b[3]);
    assert b[HEADER_SIZE..] == Repeat(0xFF, DATA_SIZE);
  }

  lemma StoreErases(c: Config, flash: Chunks, s: nat)
    requires Blocked(c, flash) && s < c.sectors
    ensures ByteAddress(c, Addr(s, 0)) < U32
    ensures var im := Cells(c, flash);
            Cells(c, EraseChunks(c, flash, ByteAddress(c, Addr(s, 0)))) ==
            map a | a in im :: if a.sector == s then BLANK_CELL else im[a]
  {
    hide ByteAddress, EraseChunks, BytesAt, DecodeCell;
    AddressRoundTrip(c, Addr(s, 0));
    EraseRefines(c, flash, s);
    BlankBlock();
  }

  lemma StoreReads(c: Config, flash: Chunks, a: Addr)
    requires ValidConfig(c) && |flash| == c.sectors && InRange(c, a)
    ensures ReadSector(flash[a.sector], ByteAddress(c, a), BLOCK_SIZE) == EncodeCell(Cells(c, flash)[a])
    ensures DecodeCell(ReadSector(flash[a.sector], ByteAddress(c, a), BLOCK_SIZE)) == Cells(c, flash)[a]
  {
    hide ByteAddress, DecodeCell, EncodeCell, ReadSector;
    CellRoundTrip(BLANK_CELL, BytesAt(c, flash, a));
  }

  // ---------------------------------------------------------------- any sequence of accesses

  datatype Access = ReadAt(a: Addr, size: nat) | WriteAt(a: Addr, data: seq<bv8>) | EraseAt(s: nat)

  predicate LegalAccess(c: Config, e: Access) {
    match e
    case ReadAt(a, size) => InRange(c, a) && size <= BLOCK_SIZE
    case WriteAt(a, data) => InRange(c, a) && |data| <= BLOCK_SIZE
    case EraseAt(s) => s < c.sectors
  }

  predicate AllLegal(c: Config, es: seq<Access>) {
    es == [] || (LegalAccess(c, es[0]) && AllLegal(c, es[1..]))
  }

  /** What reads return over a run of the chunk list. */
  function ChunkOutputs(c: Config, flash: Chunks, es: seq<Access>): seq<seq<bv8>>
    requires ValidConfig(c) && |flash| == c.sectors && AllLegal(c, es)
    decreases |es|
  {
    if es == [] then []
    else
      match es[0]
      case ReadAt(a, size) =>
        [ReadSector(flash[a.sector], ByteAddress(c, a), size)] + ChunkOutputs(c, flash, es[1..])
      case WriteAt(a, data) =>
        AddressRoundTrip(c, a);
        ChunkOutputs(c, WriteChunks(c, flash, ByteAddress(c, a), data), es[1..])
      case EraseAt(s) =>
        AddressRoundTrip(c, Addr(s, 0));
        ChunkOutputs(c, EraseChunks(c, flash, ByteAddress(c, Addr(s, 0))), es[1..])
  }

  /** A NOR array: writes AND, erase fills a sector with ones. */
  type Nor = map<Addr, seq<bv8>>

  ghost predicate IsNor(c: Config, nor: Nor) {
    && (forall a :: a in nor <==> InRange(c, a))
    && (forall a :: a in nor ==> |nor[a]| == BLOCK_SIZE)
  }

  ghost function NorOutputs(c: Config, nor: Nor, es: seq<Access>): seq<seq<bv8>>
    requires IsNor(c, nor) && AllLegal(c, es)
    decreases |es|
  {
    if es == [] then []
    else
      match es[0]
      case ReadAt(a, size) => [nor[a][..size]] + NorOutputs(c, nor, es[1..])
      case WriteAt(a, data) => NorOutputs(c, nor[a := AndBytes(nor[a], data)], es[1..])
      case EraseAt(s) =>
        NorOutputs(c, map a | a in nor :: if a.sector == s then Repeat(0xFF, BLOCK_SIZE) else nor[a], es[1..])
  }

  ghost predicate Represents(c: Config, flash: Chunks, nor: Nor) {
    Blocked(c, flash) && IsNor(c, nor) && forall a :: InRange(c, a) ==> nor[a] == BytesAt(c, flash, a)
  }

  lemma ReadPrefix(chunks: seq<Chunk>, address: nat, size: nat)
    requires size <= BLOCK_SIZE
    ensures ReadSector(chunks, address, size) == ReadSector(chunks, address, BLOCK_SIZE)[..size]
  {
    hide FindChunk;
  }

  /** Over any sequence of block-aligned reads, writes and erases the chunk list and
      the NOR array give the same answers. */
  lemma {:induction false} Indistinguishable(c: Config, flash: Chunks, nor: Nor, es: seq<Access>)
    requires Represents(c, flash, nor) && AllLegal(c, es)
    ensures ChunkOutputs(c, flash, es) == NorOutputs(c, nor, es)
    decreases |es|
  {
    hide ByteAddress, WriteChunks, EraseChunks, ReadSector, AndBytes, Aligned;
    if es != [] {
      match es[0]
      case ReadAt(a, size) =>
        ReadPrefix(flash[a.sector], ByteAddress(c, a), size);
        Indistinguishable(c, flash, nor, es[1..]);
      case WriteAt(a, data) =>
        AddressRoundTrip(c, a);
        WriteRefines(c, flash, a, data);
        Indistinguishable(c, WriteChunks(c, flash, ByteAddress(c, a), data), nor[a := AndBytes(nor[a], data)], es[1..]);
      case EraseAt(s) =>
        AddressRoundTrip(c, Addr(s, 0));
        EraseRefines(c, flash, s);
        Indistinguishable(c, EraseChunks(c, flash, ByteAddress(c, Addr(s, 0))),
                          map a | a in nor :: if a.sector == s then Repeat(0xFF, BLOCK_SIZE) else nor[a], es[1..]);
    }
  }

  /** A device as it is constructed: no chunk anywhere. */
  function NoChunks(c: Config): Chunks {
    seq(c.sectors, s => [])
  }

  /** An erased NOR array: all ones. */
  ghost function ErasedNor(c: Config): Nor {
    map a | a in Rows(c, c.sectors) :: Repeat(0xFF, BLOCK_SIZE)
  }

  lemma NoChunksErased(c: Config)
    requires ValidConfig(c)
    ensures Represents(c, NoChunks(c), ErasedNor(c))
  {
    hide ByteAddress;
    forall a | InRange(c, a)
      ensures BytesAt(c, NoChunks(c), a) == Repeat(0xFF, BLOCK_SIZE)
    {
      assert NoChunks(c)[a.sector] == [];
    }
  }

  /** So a new device answers like an erased NOR array, over any sequence of accesses. */
  lemma {:induction false} NewIndistinguishable(c: Config, es: seq<Access>)
    requires ValidConfig(c) && AllLegal(c, es)
    ensures Blocked(c, NoChunks(c)) && IsNor(c, ErasedNor(c))
    ensures ChunkOutputs(c, NoChunks(c), es) == NorOutputs(c, ErasedNor(c), es)
  {
    hide Represents, NoChunks, ErasedNor;
    NoChunksErased(c);
    RepresentsNor(c, NoChunks(c), ErasedNor(c));
    Indistinguishable(c, NoChunks(c), ErasedNor(c), es);
  }

  lemma RepresentsNor(c: Config, flash: Chunks, nor: Nor)
    requires Represents(c, flash, nor)
    ensures Blocked(c, flash) && IsNor(c, nor)
  {
    hide Blocked, IsNor, BytesAt;
  }

  // ---------------------------------------------------------------- the class

  class FlashMock {
    const c: Config
    var flash: Chunks
    /** The cell image after each accepted write or erase. */
    ghost var log: seq<Image>

    ghost predicate Valid()
      reads this
    {
      Blocked(c, flash)
    }

    constructor (c: Config)
      requires ValidConfig(c)
      ensures this.c == c && Valid() && flash == NoChunks(c) && log == []
    {
      this.c := c;
      flash := seq(c.sectors, i => []);
      log := [];
    }

    method AddressToSector(address: nat) returns (found: bool, sector: nat)
      requires ValidConfig(c) && address < U32
      ensures SectorOf(c, address) == if found then Some(sector) else None
      ensures found <==> exists s :: 0 <= s < c.sectors && LiesIn(c, s, address)
      ensures found ==> sector < c.sectors && LiesIn(c, sector, address)
      ensures c.sectors == 8 && c.slots == 128 ==> forall s: nat ::
          found && sector == s <==> s < 8 && 0x0F4000 + 0x1000 * s <= address < 0x0F5000 + 0x1000 * s
    {
      SectorOfIs(c, address);
      hide LiesIn;
      var offset := (address + U32 - FIRST_SECTOR_ADDRESS) % U32;
      sector := Quotient(offset, SectorSize(c));
      found := sector < c.sectors;
    }

    method Search(sector: nat, address: nat) returns (j: nat)
      requires sector < |flash|
      ensures j == FindChunk(flash[sector], address)
    {
      hide FindChunk;
      j := 0;
      while j < |flash[sector]| && flash[sector][j].address != address
        invariant 0 <= j <= |flash[sector]|
        invariant forall k :: 0 <= k < j ==> flash[sector][k].address != address
      {
        j := j + 1;
      }
      FindChunkIs(flash[sector], address, j);
    }

    method Read(address: nat, buffer: array<bv8>, size: nat)
      requires ValidConfig(c) && |flash| == c.sectors && address < U32 && size <= buffer.Length
      modifies buffer
      ensures (forall s :: 0 <= s < c.sectors ==> !LiesIn(c, s, address)) ==> buffer[..] == old(buffer[..])
      ensures forall s :: 0 <= s < c.sectors && LiesIn(c, s, address) ==>
                buffer[..] == ReadSector(flash[s], address, size) + old(buffer[size..])
    {
      hide SectorOf, FindChunk, LiesIn;
      SectorOfIs(c, address);
      var found, sector := AddressToSector(address);
      if !found {
        return;
      }
      var j := Search(sector, address);
      ghost var content := if j < |flash[sector]| then flash[sector][j].buffer else [];
      var i := 0;
      while i < size
        invariant 0 <= i <= size && buffer[size..] == old(buffer[size..])
        invariant buffer[..i] == Extended(content, size)[..i]
      {
        buffer[i] := if j < |flash[sector]| && i < |flash[sector][j].buffer| then flash[sector][j].buffer[i] else 0xFF;
        i := i + 1;
      }
      assert buffer[..] == buffer[..size] + buffer[size..];
    }

    /** The in-place loop over an existing chunk (FlashMock.cc:102-109). */
    method Rewrite(sector: nat, j: nat, data: seq<bv8>)
      requires sector < |flash| && j < |flash[sector]|
      modifies this`flash
      ensures flash == Rebuffered(old(flash), sector, j, Merge(old(flash)[sector][j].buffer, data))
    {
      hide Merge, Rebuffered;
      ghost var was: Chunks := flash;
      ghost var buffer: seq<bv8> := was[sector][j].buffer;
      MergeNone(buffer);
      Rebuffer(was, sector, j, buffer, buffer);
      assert data[..0] == [];
      var i := 0;
      while i < |data|
        invariant 0 <= i <= |data|
        invariant flash == Rebuffered(was, sector, j, Merge(buffer, data[..i]))
      {
        Rebuffer(was, sector, j, Merge(buffer, data[..i]), Merge(buffer, data[..i + 1]));
        MergeNext(buffer, data, i);
        var chunk: Chunk := flash[sector][j];
        if i < |chunk.buffer| {
          chunk := chunk.(buffer := chunk.buffer[i := chunk.buffer[i] & data[i]]);
        } else {
          chunk := chunk.(buffer := chunk.buffer + [data[i]]);
        }
        flash := flash[sector := flash[sector][j := chunk]];
        i := i + 1;
      }
      assert data[..|data|] == data;
    }

    /** The new chunk of FlashMock.cc:115-123. */
    method Append(sector: nat, address: nat, data: seq<bv8>)
      requires sector < |flash|
      modifies this`flash
      ensures flash == old(flash)[sector := old(flash)[sector] + [Chunk(address, data)]]
    {
      var newChunk := Chunk(address, []);
      var i := 0;
      while i < |data|
        invariant 0 <= i <= |data| && newChunk == Chunk(address, data[..i])
      {
        newChunk := newChunk.(buffer := newChunk.buffer + [data[i]]);
        i := i + 1;
      }
      assert data[..|data|] == data;
      flash := flash[sector := flash[sector] + [newChunk]];
    }

    method Write(address: nat, data: seq<bv8>)
      requires ValidConfig(c) && |flash| == c.sectors && address < U32
      modifies this
      ensures flash == WriteChunks(c, old(flash), address, data)
      ensures log == if Accepts(c, old(flash), address, |data|) then old(log) + [Cells(c, flash)] else old(log)
    {
      hide Merge, SectorOf, FindChunk, Cells;
      if |data| > BUFFER_CHUNK_MAX {
        return;
      }
      var found, sector := AddressToSector(address);
      if !found {
        return;
      }
      if |flash[sector]| > CHUNK_MAX {
        return;
      }
      var j := Search(sector, address);
      if j < |flash[sector]| {
        Rewrite(sector, j, data);
      } else {
        Append(sector, address, data);
      }
      log := log + [Cells(c, flash)];
    }

    method Erase(address: nat)
      requires ValidConfig(c) && |flash| == c.sectors && address < U32
      modifies this
      ensures flash == EraseChunks(c, old(flash), address)
      ensures log == if SectorOf(c, address).Some? then old(log) + [Cells(c, flash)] else old(log)
      ensures forall s :: 0 <= s < c.sectors && LiesIn(c, s, address) ==>
                flash == old(flash)[..s] + [[]] + old(flash)[s + 1..] && log == old(log) + [Cells(c, flash)]
      ensures !(exists s :: 0 <= s < c.sectors && LiesIn(c, s, address)) ==> flash == old(flash) && log == old(log)
    {
      hide SectorOf, Cells, LiesIn;
      SectorOfIs(c, address);
      var found, sector := AddressToSector(address);
      if !found {
        return;
      }
      flash := flash[sector := []];
      log := log + [Cells(c, flash)];
    }

    // The same accesses at block addresses, seen as NOR operations on cells.

    method WriteBlock(a: Addr, data: seq<bv8>)
      requires Valid() && InRange(c, a) && |data| <= BLOCK_SIZE
      modifies this
      ensures Valid() && log == old(log) + [Cells(c, flash)]
      ensures Cells(c, flash) == Cells(c, old(flash))[a := DecodeCell(AndBytes(BytesAt(c, old(flash), a), data))]
    {
      hide ByteAddress, WriteChunks, Cells, DecodeCell, AndBytes, BytesAt, SectorOf, Accepts;
      AddressRoundTrip(c, a);
      WriteRefines(c, flash, a, data);
      CellsWrite(c, flash, a, data);
      Write(ByteAddress(c, a), data);
    }

    method EraseBlocks(s: nat)
      requires Valid() && s < c.sectors
      modifies this
      ensures Valid() && log == old(log) + [Cells(c, flash)]
      ensures Cells(c, flash) ==
              map a | a in Cells(c, old(flash)) :: if a.sector == s then BLANK_CELL else Cells(c, old(flash))[a]
    {
      hide ByteAddress, EraseChunks, Cells, SectorOf;
      AddressRoundTrip(c, Addr(s, 0));
      EraseRefines(c, flash, s);
      StoreErases(c, flash, s);
      Erase(ByteAddress(c, Addr(s, 0)));
    }

    method ReadBlock(a: Addr, buffer: array<bv8>)
      requires Valid() && InRange(c, a) && buffer.Length == BLOCK_SIZE
      modifies buffer
      ensures DecodeCell(buffer[..]) == Cells(c, flash)[a]
    {
      hide ByteAddress, Cells, LiesIn, ReadSector, DecodeCell;
      StoreReads(c, flash, a);
      AddressBounds(c, a);
      BlockAddress(c, a.sector, a.slot);
      Read(ByteAddress(c, a), buffer, BLOCK_SIZE);
      assert buffer[..] == ReadSector(flash[a.sector], ByteAddress(c, a), BLOCK_SIZE);
    }
  }

  /** Chunk `j` of the sector gets another buffer. */
  function Rebuffered(flash: Chunks, sector: nat, j: nat, buffer: seq<bv8>): Chunks
    requires sector < |flash| && j < |flash[sector]|
  {
    flash[sector := flash[sector][j := flash[sector][j].(buffer := buffer)]]
  }

  lemma Rebuffer(flash: Chunks, sector: nat, j: nat, was: seq<bv8>, buffer: seq<bv8>)
    requires sector < |flash| && j < |flash[sector]|
    ensures var flash' := Rebuffered(flash, sector, j, was);
            && sector < |flash'| && j < |flash'[sector]| && flash'[sector][j] == flash[sector][j].(buffer := was)
            && Rebuffered(flash, sector, j, buffer)
               == flash'[sector := flash'[sector][j := flash'[sector][j].(buffer := buffer)]]
    ensures Rebuffered(flash, sector, j, flash[sector][j].buffer) == flash
  {
    var flash', chunk := Rebuffered(flash, sector, j, was), flash[sector][j].(buffer := buffer);
    assert flash'[sector][j := chunk] == flash[sector][j := chunk];
    assert flash[sector][j := flash[sector][j]] == flash[sector];
  }

  lemma MergeNext(buffer: seq<bv8>, data: seq<bv8>, i: nat)
    requires i < |data|
    ensures var m := Merge(buffer, data[..i]);
            Merge(buffer, data[..i + 1]) == if i < |m| then m[i := m[i] & data[i]] else m + [data[i]]
  {
  }

  lemma MergeNone(buffer: seq<bv8>)
    ensures Merge(buffer, []) == buffer
  {
  }
}
