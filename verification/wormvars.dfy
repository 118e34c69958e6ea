/** wormvars.c as it is: the global `Fs` with its descriptor table, write pointers and
    collector variables, working on the flash device through byte buffers. Every
    method leaves exactly the state that its specification in module Store gives. */
module Wormvars {
  import opened Block
  import opened Store
  import opened Images
  import opened Invariant
  import opened Writing
  import opened FlashDevice
  import opened Threading

  datatype RelocEntry = RelocEntry(count: nat, full: bool)

  const PT_WAITING := 0
  const PT_YIELDED := 1
  const PT_ENDED := 3

  /** Going upwards and around from sector `cur`, sector `s` comes before sector `next`. */
  predicate Between(cur: nat, s: nat, next: nat) {
    if next > cur then cur < s < next else s > cur || s < next
  }

  lemma {:induction false} BlanksGrow(c: Config, pos: seq<nat>, cur: nat, m: nat, n: nat)
    requires |pos| == c.sectors && m <= n <= |pos|
    ensures BlankCount(c, pos, cur, m) <= BlankCount(c, pos, cur, n)
  {
    if m < n { BlanksGrow(c, pos, cur, m, n - 1); }
  }

  lemma {:induction false} CountGrows(fd: seq<Fd>, s: nat, k: nat)
    requires k <= |fd|
    ensures CountIn(fd[..k], s) <= CountIn(fd, s)
    decreases |fd|
  {
    if k < |fd| {
      CountGrows(fd[..|fd| - 1], s, k);
      assert fd[..|fd| - 1][..k] == fd[..k];
    } else {
      assert fd[..k] == fd;
    }
  }

  lemma {:induction false} CountNext(fd: seq<Fd>, s: nat, k: nat)
    requires k < |fd|
    ensures CountIn(fd[..k + 1], s) == CountIn(fd[..k], s) + if fd[k].sector == s then 1 else 0
  {
    assert fd[..k + 1][..k] == fd[..k];
  }

  /** A table of which the first `n` entries are in use, after entry `i` was set. */
  lemma EntryInPrefix(table: seq<Fd>, n: nat, i: nat, e: Fd)
    requires i <= n <= |table| && i < |table|
    ensures table[i := e][..if i == n then n + 1 else n] == if i < n then table[..n][i := e] else table[..n] + [e]
  {
  }

  lemma PaddedIs(bytes: seq<bv8>, data: seq<bv8>)
    requires |bytes| == BLOCK_SIZE && |data| <= DATA_SIZE
    requires forall j :: HEADER_SIZE <= j < BLOCK_SIZE ==>
               bytes[j] == if j - HEADER_SIZE < |data| then data[j - HEADER_SIZE] else 0
    ensures bytes[HEADER_SIZE..] == Pad(data)
  {
  }

  class Fs {
    const c: Config
    const dev: FlashMock
    const fd: array<Fd>
    var fdIndex: nat
    const pos: array<nat>
    var cur: nat
    var reloc: Reloc
    var pc: Pc

    ghost predicate Wired()
      reads this, dev, fd, pos
    {
      && ValidConfig(c) && dev.c == c && dev.Valid()
      && fd.Length == c.fdMax && pos.Length == c.sectors && fdIndex <= fd.Length
      && fd as object != pos
    }

    /** The abstract state, flash included. */
    ghost function View(): State
      requires Wired()
      reads this, dev, fd, pos
    {
      State(Cells(c, dev.flash), fd[..fdIndex], pos[..], cur, reloc, pc, dev.log)
    }

    /** The `u8_t` counters of the victim's histogram cannot wrap: true of every state
        that keeps the invariant (`Victim.CountersFit`), and of those that a write
        with a full table leaves. */
    ghost predicate Counted()
      requires Wired()
      reads this, dev, fd, pos
    {
      forall s :: CountIn(View().fd, s) <= 255
    }

    /** Zeroed RAM over a device with whatever it holds. */
    constructor (dev: FlashMock)
      requires ValidConfig(dev.c) && dev.Valid()
      ensures this.dev == dev && this.c == dev.c && fresh(fd) && fresh(pos)
      ensures Wired() && View() == ZeroRam(c, Cells(c, dev.flash)).(log := dev.log)
    {
      this.c := dev.c;
      this.dev := dev;
      fd := new Fd[dev.c.fdMax];
      fdIndex := 0;
      pos := new nat[dev.c.sectors](i => 0);
      cur := 0;
      reloc := Reloc(Cell(ZERO_HEADER, Repeat(0, DATA_SIZE)), Fd(Addr(0, 0), ZERO_HEADER, 0), 0, 0);
      pc := Wait555;
      new;
      assert pos[..] == seq(c.sectors, i => 0);
    }

    // -------------------------------------------------------------- flash access

    method FlashHeader(a: Addr, h: Header)
      requires Wired() && InRange(c, a)
      modifies dev
      ensures Wired() && View() == WriteHeader(c, old(View()), a, h)
    {
      hide Cells, Blocked, AndHeader, EncodeHeader, AndFlags, AndCell, EncodeCell, AndBytes, DecodeCell, BytesAt,
        Dims, ValidConfig;
      StoreWrites(c, dev.flash, a, Cell(h, Repeat(0, DATA_SIZE)));
      dev.WriteBlock(a, EncodeHeader(h));
    }

    method FlashFlags(a: Addr, h: Header)
      requires Wired() && InRange(c, a)
      modifies dev
      ensures Wired() && View() == WriteFlags(c, old(View()), a, h)
    {
      hide Cells, Blocked, AndHeader, EncodeHeader, AndFlags, AndCell, EncodeCell, AndBytes, DecodeCell, BytesAt,
        Dims, ValidConfig;
      StoreWrites(c, dev.flash, a, Cell(h, Repeat(0, DATA_SIZE)));
      dev.WriteBlock(a, EncodeHeader(h)[..1]);
    }

    method FlashCell(a: Addr, buffer: array<bv8>)
      requires Wired() && InRange(c, a) && buffer.Length == BLOCK_SIZE
      modifies dev
      ensures Wired() && View() == Program(c, old(View()), a, DecodeCell(buffer[..]))
    {
      hide Cells, Blocked, AndHeader, EncodeHeader, AndFlags, AndCell, EncodeCell, AndBytes, DecodeCell, BytesAt,
        Dims, ValidConfig;
      StoreWrites(c, dev.flash, a, DecodeCell(buffer[..]));
      CellRoundTrip(DecodeCell(buffer[..]), buffer[..]);
      dev.WriteBlock(a, buffer[..]);
    }

    method FlashErase(s: nat)
      requires Wired() && s < c.sectors
      modifies dev
      ensures Wired() && View() == Erase(c, old(View()), s)
    {
      hide Cells, Blocked, Dims, ValidConfig;
      dev.EraseBlocks(s);
    }

    // -------------------------------------------------------------- fs_read

    method FsRead(name: bv16, ext: bv8, len: nat) returns (code: int, data: seq<bv8>)
      requires Wired() && Shape(c, View()) && len <= DATA_SIZE
      ensures Wired() && View() == old(View())
      ensures (code, data) == Store.FsRead(c, View(), name, ext, len)
    {
      hide Cells, Blocked, DecodeCell, EncodeCell, FindForRead, Dims;
      var i := 0;
      while i < fdIndex && !(fd[i].header.name == name && fd[i].header.ext as bv8 == ext)
        invariant 0 <= i <= fdIndex
        invariant forall j :: 0 <= j < i ==> !MatchesRead(fd[j].header, name, ext)
      {
        i := i + 1;
      }
      FindForReadAt(fd[..fdIndex], name, ext, i);
      if i < fdIndex {
        var readBuffer := new bv8[BLOCK_SIZE];
        dev.ReadBlock(fd[i].address, readBuffer);
        DecodeData(readBuffer[..]);
        code, data := 0, readBuffer[HEADER_SIZE..][..len];
      } else {
        code, data := -1, [];
      }
    }

    // -------------------------------------------------------------- fs_write

    /** The linear search of wormvars.c:217-222 and 362-375. */
    method Search(key: Key) returns (i: nat)
      requires Wired()
      ensures i == Find(View().fd, key) <= fdIndex
    {
      hide Find, Blocked, Cells;
      i := 0;
      while i < fdIndex && !(fd[i].header.name == key.name && fd[i].header.ext == key.ext)
        invariant 0 <= i <= fdIndex
        invariant forall j :: 0 <= j < i ==> KeyOf(fd[j].header) != key
      {
        i := i + 1;
      }
      FindIs(fd[..fdIndex], key, i);
    }

    method ClearPrevious(i: nat)
      requires Wired() && Shape(c, View()) && i <= fdIndex
      modifies fd, dev
      ensures Wired() && View() == ClearNewer(c, old(View()), i)
    {
      hide Find, Blocked, Cells, Dims, AndHeader;
      if i < fdIndex && fd[i].header.newer == NEWER {
        fd[i] := fd[i].(header := fd[i].header.(newer := CURRENT));
        assert fd[..fdIndex] == old(fd[..fdIndex])[i := fd[i]];
        FlashHeader(fd[i].address, fd[i].header);
      }
    }

    method RetirePrevious(i: nat)
      requires Wired() && Shape(c, View()) && i <= fdIndex
      modifies fd, dev
      ensures Wired() && View() == Retire(c, old(View()), i)
    {
      hide Find, Blocked, Cells, Dims, AndFlags;
      if i < fdIndex {
        fd[i] := fd[i].(header := fd[i].header.(size := SIZE_INVALID));
        assert fd[..fdIndex] == old(fd[..fdIndex])[i := fd[i]];
        FlashFlags(fd[i].address, fd[i].header);
      }
    }

    method EnterDescriptor(i: nat, h: Header)
      requires Wired() && Shape(c, View()) && i <= fdIndex && i < c.fdMax && pos[cur] < c.slots
      modifies this, fd, pos, dev
      ensures Wired() && View() == Enter(c, old(View()), i, h)
    {
      hide Find, Blocked, Cells, Dims, AndFlags;
      ghost var entry := Fd(Addr(cur, pos[cur]), h.(newer := CURRENT), cur);
      fd[i] := Fd(Addr(cur, pos[cur]), h, cur);
      fd[i] := fd[i].(header := fd[i].header.(newer := CURRENT));
      assert fd[..] == old(fd[..])[i := entry];
      EntryInPrefix(old(fd[..]), fdIndex, i, entry);
      FlashFlags(fd[i].address, fd[i].header);
      if i == fdIndex {
        fdIndex := fdIndex + 1;
      }
      SetPosition(cur, pos[cur] + 1);
    }

    /** The write buffer before hashing: first byte 0xFF, the rest zero, then name,
        extension and data (wormvars.c:338, 355-359). */
    method FillBuffer(name: bv16, ext: bv8, data: seq<bv8>) returns (buffer: array<bv8>)
      requires |data| <= DATA_SIZE
      ensures fresh(buffer) && buffer.Length == BLOCK_SIZE
      ensures buffer[..] == [0x1F | ((ext & 7) << 5), 0, (name & 0xFF) as bv8, (name >> 8) as bv8] + Pad(data)
    {
      buffer := new bv8[BLOCK_SIZE](i => if i == 0 then 0xFF else 0);
      buffer[2] := (name & 0xFF) as bv8;
      buffer[3] := (name >> 8) as bv8;
      buffer[0] := (0x1F) | ((ext & 7) << 5);
      ghost var head := buffer[..HEADER_SIZE];
      assert head == [0x1F | ((ext & 7) << 5), 0, (name & 0xFF) as bv8, (name >> 8) as bv8];
      var i := 0;
      while i < |data|
        invariant 0 <= i <= |data|
        invariant buffer[..HEADER_SIZE] == head
        invariant forall j :: HEADER_SIZE <= j < BLOCK_SIZE ==>
                    buffer[j] == if j - HEADER_SIZE < i then data[j - HEADER_SIZE] else 0
      {
        buffer[HEADER_SIZE + i] := data[i];
        i := i + 1;
      }
      PaddedIs(buffer[..], data);
      assert buffer[..] == buffer[..HEADER_SIZE] + buffer[HEADER_SIZE..];
    }

    /** The rest of `fs_write` once there is room (wormvars.c:361-430). */
    method WriteOut(key: Key, buffer: array<bv8>, ghost data: Data) returns (code: int)
      requires Wired() && Ring(c, View()) && pos[cur] < c.slots && buffer.Length == BLOCK_SIZE
      requires buffer as object != fd && buffer as object != pos
      requires HashedCell(c.crc, DecodeCell(buffer[..]), SIZE_32, NEWER) == NewCell(c.crc, key, data)
      modifies this, fd, pos, dev, buffer
      ensures Wired() && (View(), code) == WriteCell(c, old(View()), key, data)
    {
      hide Blocked, Cells, Dims, AndFlags, AndHeader, AndCell, Find, ClearNewer, Retire, Enter, HashedCell,
        DecodeCell, Program, NewCell;
      ghost var s0 := View();
      var i := Search(key);
      ClearPrevious(i);
      ghost var s1 := View();
      assert Shape(c, s1) && pos[..] == s0.pos && cur == s0.cur && fdIndex == |s0.fd|;
      UpdateBlockHash(c.crc, buffer, SIZE_32, NEWER);
      assert View() == s1;
      FlashCell(Addr(cur, pos[cur]), buffer);
      ghost var s2 := View();
      TargetInFlash(c, s1);
      assert s2 == Program(c, s1, Target(s0), NewCell(c.crc, key, data));
      code := Conclude(i, buffer, s2);
    }

    /** After the cell write: retire the previous cell, enter the new one. */
    method Conclude(i: nat, buffer: array<bv8>, ghost s2: State) returns (code: int)
      requires Wired() && s2 == View() && Ring(c, s2) && pos[cur] < c.slots
      requires buffer.Length == BLOCK_SIZE && i <= fdIndex
      requires buffer as object != fd && buffer as object != pos
      modifies this, fd, pos, dev
      ensures Wired()
      ensures (View(), code) ==
          if i < c.fdMax then (Enter(c, Retire(c, s2, i), i, DecodeCell(old(buffer[..])).hdr), 0)
          else (Retire(c, s2, i), -1)
    {
      hide Blocked, Cells, Dims, AndFlags, AndHeader, AndCell, Find, Retire, Enter, DecodeCell;
      RetirePrevious(i);
      assert Shape(c, View()) && pos[..] == s2.pos && cur == s2.cur && fdIndex == |s2.fd|;
      if i < c.fdMax {
        DecodeHdr(buffer[..]);
        EnterDescriptor(i, DecodeHeader(buffer[..HEADER_SIZE]));
        code := 0;
      } else {
        code := -1;
      }
    }

    // -------------------------------------------------------------- findRelocSector

    /** First loop of wormvars.c:506-524: mark the full sectors, give up at `minBlank` blank ones. */
    method MarkFull(relocMap: array<RelocEntry>) returns (enough: bool)
      requires Wired() && Shape(c, View()) && relocMap.Length == c.sectors
      requires relocMap as object != pos && relocMap as object != fd
      requires forall s :: 0 <= s < c.sectors ==> relocMap[s] == RelocEntry(0, false)
      modifies relocMap
      ensures enough <==> BlankCount(c, pos[..], cur, c.sectors) >= c.minBlank
      ensures !enough ==> forall s :: 0 <= s < c.sectors ==> relocMap[s] == RelocEntry(0, Candidate(c, pos[..], cur, s))
    {
      hide Blocked, Cells, Dims, Find;
      ghost var p := pos[..];
      var blankSectors := 0;
      var sector := 0;
      while sector < c.sectors
        invariant 0 <= sector <= c.sectors && pos[..] == p
        invariant blankSectors == BlankCount(c, p, cur, sector) < c.minBlank
        invariant forall s :: 0 <= s < c.sectors ==> relocMap[s] == RelocEntry(0, s < sector && Candidate(c, p, cur, s))
      {
        BlanksGrow(c, p, cur, sector + 1, c.sectors);
        if sector == cur {
        } else if pos[sector] == 0 {
          blankSectors := blankSectors + 1;
          if blankSectors == c.minBlank {
            return true;
          }
        } else if pos[sector] >= c.slots {
          relocMap[sector] := relocMap[sector].(full := true);
        }
        sector := sector + 1;
      }
      return false;
    }

    /** Second loop: the histogram, in `u8_t` counters. */
    method CountLive(relocMap: array<RelocEntry>, ghost marked: seq<bool>)
      requires relocMap.Length == c.sectors == |marked| && relocMap as object != fd && fdIndex <= fd.Length
      requires forall s :: 0 <= s < c.sectors ==> relocMap[s] == RelocEntry(0, marked[s])
      requires forall i :: 0 <= i < fdIndex ==> fd[i].sector < c.sectors
      requires forall s :: CountIn(fd[..fdIndex], s) <= 255
      modifies relocMap
      ensures forall s :: 0 <= s < c.sectors ==>
                relocMap[s] == RelocEntry(if marked[s] then CountIn(fd[..fdIndex], s) else 0, marked[s])
    {
      hide CountIn;
      ghost var entries := fd[..fdIndex];
      assert entries[..0] == [];
      CountNone(c);
      var k := 0;
      while k < fdIndex
        invariant 0 <= k <= fdIndex && fd[..fdIndex] == entries
        invariant forall s :: 0 <= s < c.sectors ==>
                    relocMap[s] == RelocEntry(if marked[s] then CountIn(entries[..k], s) else 0, marked[s])
      {
        var sector := fd[k].sector;
        CountGrows(entries, sector, k + 1);
        forall s
          ensures CountIn(entries[..k + 1], s) == CountIn(entries[..k], s) + if sector == s then 1 else 0
        {
          CountNext(entries, s, k);
        }
        if relocMap[sector].full {
          relocMap[sector] := relocMap[sector].(count := (relocMap[sector].count + 1) % 256);
        }
        k := k + 1;
      }
      assert entries[..fdIndex] == entries;
    }

    method FindRelocSector() returns (code: int, sector: nat)
      requires Wired() && Ring(c, View()) && Counted()
      ensures Store.FindRelocSector(c, View().fd, View().pos, View().cur) == if code == 0 then Some(sector) else None
      ensures code == 0 || code == -1
      ensures Wired() && View() == old(View())
    {
      hide Blocked, Cells, Dims, Find, CountIn, Reads, Distinct, Entries, BlankCount;
      var relocMap := new RelocEntry[c.sectors](i => RelocEntry(0, false));
      var enough := MarkFull(relocMap);
      if enough {
        return -1, 0;
      }
      ghost var v := View();
      CountLive(relocMap, seq(c.sectors, s requires 0 <= s < c.sectors => Candidate(c, v.pos, v.cur, s)));
      var fdMin, relocSector := c.slots, 0;
      var n := 0;
      while n < c.sectors
        invariant 0 <= n <= c.sectors && (fdMin, relocSector) == Best(c, v.fd, v.pos, v.cur, n)
      {
        var s := (cur + n) % c.sectors;
        if relocMap[s].full && relocMap[s].count < fdMin {
          fdMin, relocSector := relocMap[s].count, s;
        }
        n := n + 1;
      }
      return 0, relocSector;
    }

    // -------------------------------------------------------------- fs_write and fs_thread

    /** The `do ... while` search of wormvars.c:318-327. */
    method SearchFree() returns (found: bool, next: nat)
      requires pos.Length == c.sectors && cur < c.sectors
      ensures next < c.sectors && NextFree(c, pos[..], cur, cur) == if found then Some(next) else None
      ensures found ==>
                && pos[next] < c.slots
                && forall s :: 0 <= s < c.sectors && Between(cur, s, next) ==> pos[s] >= c.slots
      ensures !found ==> forall s :: 0 <= s < c.sectors ==> pos[s] >= c.slots
    {
      NextFreeIsNearest(c, pos[..], cur, cur);
      assert forall s :: 0 <= s < c.sectors ==> pos[..][s] == pos[s];
      next := cur;
      while true
        invariant next < c.sectors && NextFree(c, pos[..], cur, next) == NextFree(c, pos[..], cur, cur)
        decreases Ahead(c, cur, Successor(c, next))
      {
        assert Successor(c, next) == (next + 1) % c.sectors;
        next := (next + 1) % c.sectors;
        if pos[next] < c.slots {
          return true, next;
        }
        if next == cur {
          return false, next;
        }
      }
    }

    method UpdateSector(env: Env) returns (code: int)
      requires Wired() && Ring(c, View()) && Counted()
      modifies this, fd, pos, dev
      ensures Wired() && (View(), code) == Store.UpdateSector(c, old(View()), env)
      ensures code == if old(pos[cur]) < c.slots then 0
                      else if forall s :: 0 <= s < c.sectors ==> old(pos[s]) >= c.slots then -1
                      else 1
      ensures code != 1 ==> View() == old(View())
      ensures code == 1 ==>
                && old(pos[..])[cur] < c.slots
                && (forall s :: 0 <= s < c.sectors && Between(old(cur), s, cur) ==> old(pos[s]) >= c.slots)
                && Ring(c, old(View()).(cur := cur)) && View() == Store.FsThread(c, old(View()).(cur := cur), true, env)
      decreases Rollover(c, View()), 0
    {
      hide Blocked, Cells, Dims, Find, Indexed, Collecting, Store.FsThread, NextFree;
      if pos[cur] >= c.slots {
        var found, next := SearchFree();
        if !found {
          return -1;
        }
        cur := next;
        var _ := FsThread(true, env);
        return 1;
      }
      return 0;
    }

    method FsWrite(name: bv16, ext: bv8, data: seq<bv8>, env: Env) returns (code: int)
      requires Wired() && Ring(c, View()) && Counted()
      modifies this, fd, pos, dev
      ensures Wired() && (View(), code) == Store.FsWrite(c, old(View()), name, ext, data, env)
      decreases Rollover(c, View()), 1
    {
      hide Blocked, Cells, Dims, Find, Indexed, Collecting, Store.UpdateSector, WriteCell, HashedCell, NewCell,
        DecodeCell, TruncateExt, Pad;
      if |data| > DATA_SIZE {
        return -1;
      }
      var ready := UpdateSector(env);
      if ready < 0 {
        return -2;
      }
      var buffer := FillBuffer(name, ext, data);
      FilledCell(c.crc, name, ext, Pad(data), buffer[..]);
      code := WriteOut(Key(name, TruncateExt(ext)), buffer, Pad(data));
    }

    method Move(env: Env) returns (status: nat)
      requires Wired() && Ring(c, View()) && Counted() && Moving(pc)
      modifies this, fd, pos, dev
      ensures Wired() && View() == Store.Move(c, old(View()), env) && status == 1 && (pc == Yield610 || pc == Yield617)
      decreases Rollover(c, View()), 2
    {
      hide Blocked, Cells, Dims, Find, Indexed, Collecting, Store.FsWrite;
      var code := FsWrite(reloc.fd.header.name, reloc.fd.header.ext as bv8, reloc.buffer.data, env);
      pc := if code < 0 then Yield610 else Yield617;
      return PT_YIELDED;
    }

    method EraseVictim() returns (status: nat)
      requires Wired() && Ring(c, View())
      modifies this, pos, dev
      ensures Wired() && View() == Store.EraseVictim(c, old(View())) && status == 3
      ensures pc == Wait555 && |View().log| > |old(View()).log|
    {
      hide Blocked, Cells, Dims, Find;
      FlashErase(reloc.sector);
      pos[reloc.sector] := 0;
      pc := Wait555;
      return PT_ENDED;
    }

    method Fetch() returns (status: nat)
      requires Wired() && Ring(c, View()) && reloc.fdIndex < fdIndex
      modifies this`reloc, this`pc
      ensures Wired() && View() == Store.Fetch(c, old(View())) && status == 1 && pc == Yield596
    {
      hide Blocked, Cells, Dims, Find, DecodeCell;
      var buffer := new bv8[BLOCK_SIZE];
      FlashRead(reloc.fd.address, buffer);
      reloc := reloc.(buffer := DecodeCell(buffer[..]));
      pc := Yield596;
      return PT_YIELDED;
    }

    method FlashRead(a: Addr, buffer: array<bv8>)
      requires Wired() && InRange(c, a) && buffer.Length == BLOCK_SIZE && buffer as object != fd
      requires buffer as object != pos
      modifies buffer
      ensures Wired() && View() == old(View())
      ensures DecodeCell(buffer[..]) == View().flash[a]
    {
      hide Blocked, Cells, Dims, DecodeCell;
      dev.ReadBlock(a, buffer);
    }

    /** The head of the loop of wormvars.c:567-619: on to the next descriptor that
        points into the victim. */
    method NextDescriptor(i: nat)
      requires Wired() && Ring(c, View()) && i <= fdIndex
      modifies this`reloc
      ensures Wired() && reloc == old(reloc).(fdIndex := NextIn(View().fd, old(reloc.sector), i))
    {
      hide Blocked, Cells, Dims;
      reloc := reloc.(fdIndex := i);
      while reloc.fdIndex < fdIndex && fd[reloc.fdIndex].sector != reloc.sector
        invariant i <= reloc.fdIndex <= fdIndex && reloc == old(reloc).(fdIndex := reloc.fdIndex)
        invariant NextIn(View().fd, reloc.sector, reloc.fdIndex) == NextIn(View().fd, reloc.sector, i)
      {
        reloc := reloc.(fdIndex := reloc.fdIndex + 1);
      }
    }

    /** The loop of wormvars.c:567-619 from index `i`, and the erase after it. */
    method RelocLoop(i: nat, env: Env) returns (status: nat)
      requires Wired() && Ring(c, View()) && i <= fdIndex
      modifies this, pos, dev
      ensures Wired() && View() == Store.RelocLoop(c, old(View()), i, env)
      ensures match pc
              case Wait555 => status == 3 && |View().log| > |old(View()).log|
              case Yield596 => status == 1
              case Wait576 => status == 0
              case Wait622 => status == 0
              case _ => false
    {
      hide Blocked, Cells, Dims, Find, NextIn, Store.Fetch, Store.EraseVictim;
      NextDescriptor(i);
      if reloc.fdIndex < fdIndex {
        reloc := reloc.(fd := fd[reloc.fdIndex]);
        pc := Wait576;
        if env.ready {
          status := Fetch();
        } else {
          status := PT_WAITING;
        }
      } else {
        pc := Wait622;
        if env.ready {
          status := EraseVictim();
        } else {
          status := PT_WAITING;
        }
      }
    }

    /** Lines 558-567 of wormvars.c: pick a victim or start over. */
    method Select(ghost flag: bool, env: Env) returns (status: nat)
      requires Wired() && Ring(c, View()) && Counted() && pc == Yield556
      modifies this, pos, dev
      ensures Wired() && View() == Store.FsThread(c, old(View()), flag, env)
      ensures match pc
              case Wait555 => status == if |View().log| > |old(View()).log| then 3 else 0
              case Yield596 => status == 1
              case Wait576 => status == 0
              case Wait622 => status == 0
              case _ => false
    {
      hide Blocked, Cells, Dims, Find, Reads, Invariant.Distinct, Entries, Store.RelocLoop, Store.FindRelocSector,
        Collecting;
      var code, sector := FindRelocSector();
      if code < 0 {
        pc := Wait555;
        status := PT_WAITING;
      } else {
        reloc := reloc.(sector := sector);
        status := RelocLoop(0, env);
      }
    }

    /** One call of the protothread. It returns PT_ENDED, 3, exactly when it has erased a
        sector; PT_WAITING, 0, exactly when it stands at a wait otherwise; and else
        PT_YIELDED, 1. At its waits it changes nothing until the awaited condition holds. */
    method FsThread(flag: bool, env: Env) returns (status: nat)
      requires Wired() && Ring(c, View()) && Counted()
      modifies this, fd, pos, dev
      ensures Wired() && View() == Store.FsThread(c, old(View()), flag, env)
      ensures status == 3 <==> pc == Wait555 && |View().log| > |old(View()).log|
      ensures status == 0 <==> status != 3 && (pc == Wait555 || pc == Wait576 || pc == Wait622)
      ensures status == 1 <==> status != 3 && status != 0
      ensures Inv(c, old(View())) ==>
                (status == 3 <==> exists s :: 0 <= s < c.sectors && old(pos[s]) > 0 && pos[s] == 0)
      ensures old(pc) == Wait555 && !flag && !env.expired ==> View() == old(View())
      ensures (old(pc) == Wait576 || old(pc) == Wait622) && !env.ready ==> View() == old(View())
      ensures old(pc) == Wait555 ==> (pc != Wait555 <==> flag || env.expired)
      ensures old(pc) == Wait576 || old(pc) == Wait622 ==> (pc != old(pc) <==> env.ready)
      decreases Rollover(c, View()), 4
    {
      hide Blocked, Cells, Dims, Find, Inv, Store.FsThread;
      ghost var st := View();
      status := Resume(flag, env);
      Waits(c, st, flag, env);
      if Inv(c, st) { EndsByErase(c, st, flag, env); }
    }

    /** The continuation from the resume point. */
    method Resume(flag: bool, env: Env) returns (status: nat)
      requires Wired() && Ring(c, View()) && Counted()
      modifies this, fd, pos, dev
      ensures Wired() && View() == Store.FsThread(c, old(View()), flag, env)
      ensures match pc
              case Wait555 => status == if |View().log| > |old(View()).log| then 3 else 0
              case Wait576 => status == 0
              case Wait622 => status == 0
              case _ => status == 1
      decreases Rollover(c, View()), 3
    {
      hide Blocked, Cells, Dims, Find, Indexed, Collecting, Store.RelocLoop, Store.Move, Store.EraseVictim,
        Store.Fetch, Store.FindRelocSector;
      status := PT_WAITING;
      match pc
      case Wait555 =>
        if flag || env.expired {
          pc := Yield556;
          status := PT_YIELDED;
        }
      case Yield556 =>
        status := Select(flag, env);
      case Wait576 =>
        if env.ready {
          status := Fetch();
        }
      case Yield596 =>
        if fd[reloc.fdIndex].address == reloc.fd.address {
          status := Move(env);
        } else {
          pc := Yield617;
          status := PT_YIELDED;
        }
      case Yield610 =>
        status := Move(env);
      case Yield617 =>
        status := RelocLoop(reloc.fdIndex + 1, env);
      case Wait622 =>
        if env.ready {
          status := EraseVictim();
        }
    }

    // -------------------------------------------------------------- fs_init

    method Resolve(i: nat, a: Addr, h: Header)
      requires Wired() && Shape(c, View()) && i < fdIndex && InRange(c, a) && View().flash[a].hdr == h
      modifies fd, dev
      ensures Wired() && View() == Store.Resolve(c, old(View()), i, a, old(View()).flash[a])
    {
      hide Blocked, Cells, Dims, Find, AndHeader;
      if fd[i].header.newer == CURRENT && h.newer == NEWER {
        fd[i] := fd[i].(header := fd[i].header.(size := SIZE_INVALID));
        assert fd[..fdIndex] == old(fd[..fdIndex])[i := fd[i]];
        FlashHeader(fd[i].address, fd[i].header);
        fd[i] := Fd(a, h, a.sector);
        assert fd[..fdIndex] == old(fd[..fdIndex])[i := fd[i]];
      } else {
        FlashHeader(a, h.(size := SIZE_INVALID));
      }
    }

    method AddDescriptor(e: Fd)
      requires Wired() && Shape(c, View()) && fdIndex < c.fdMax
      modifies this`fdIndex, fd
      ensures Wired() && View() == old(View()).(fd := old(View()).fd + [e])
    {
      hide Blocked, Cells, Dims, Find;
      fd[fdIndex] := e;
      fdIndex := fdIndex + 1;
      assert fd[..fdIndex] == old(fd[..fdIndex]) + [e];
    }

    method SetPosition(s: nat, k: nat)
      requires Wired() && s < c.sectors
      modifies pos
      ensures Wired() && View() == old(View()).(pos := old(View()).pos[s := k])
    {
      hide Blocked, Cells, Dims;
      pos[s] := k;
      assert pos[..] == old(pos[..])[s := k];
    }

    /** One turn of the loop of wormvars.c:206-286, or its early exit. */
    method ScanCell(s: nat, k: nat) returns (code: int, done: bool)
      requires Wired() && Shape(c, View()) && s < c.sectors && k < c.slots
      modifies this`fdIndex, fd, pos, dev
      ensures Wired() && Shape(c, View())
      ensures Store.InitFileDescriptors(c, old(View()), s, k) ==
              if done then (View(), code) else Store.InitFileDescriptors(c, View(), s, k + 1)
    {
      hide Blocked, Cells, Dims, Find, Store.Resolve, CheckCell, DecodeCell;
      var a := Addr(s, k);
      SetPosition(s, k);
      var buffer := new bv8[BLOCK_SIZE];
      FlashRead(a, buffer);
      var check := CheckBlock(c.crc, buffer);
      done, code := false, 0;
      if check == BLOCK_OK {
        DecodeHdr(buffer[..]);
        var h := DecodeHeader(buffer[..HEADER_SIZE]);
        var i := Search(KeyOf(h));
        if i < fdIndex {
          Resolve(i, a, h);
        } else if fdIndex < c.fdMax {
          AddDescriptor(Fd(a, h, s));
        } else {
          done, code := true, -1;
        }
      } else if check == BLOCK_IS_BLANK {
        done, code := true, if k == 0 then 0 else 1;
      }
    }

    method InitFileDescriptors(s: nat) returns (code: int)
      requires Wired() && Shape(c, View()) && s < c.sectors
      modifies this`fdIndex, fd, pos, dev
      ensures Wired() && Shape(c, View()) && (View(), code) == Store.InitFileDescriptors(c, old(View()), s, 0)
    {
      hide Blocked, Cells, Dims, Find, Shape;
      var k := 0;
      while k < c.slots
        invariant 0 <= k <= c.slots && Wired() && Shape(c, View())
        invariant Store.InitFileDescriptors(c, View(), s, k) == Store.InitFileDescriptors(c, old(View()), s, 0)
      {
        var result, done := ScanCell(s, k);
        if done {
          return result;
        }
        k := k + 1;
      }
      SetPosition(s, k);
      return 2;
    }

    method FsInit()
      requires Wired() && Shape(c, View())
      modifies this`fdIndex, this`cur, this`pc, fd, pos, dev
      ensures Wired() && View() == Store.FsInit(c, old(View()))
      ensures pc == Wait555
    {
      hide Blocked, Cells, Dims, Find, Store.InitFileDescriptors;
      var blankSector, sectorAssigned := 0, false;
      var i := 0;
      while i < c.sectors
        invariant 0 <= i <= c.sectors && blankSector < c.sectors && Wired() && Shape(c, View())
        invariant InitFrom(c, View(), i, blankSector, sectorAssigned) == InitFrom(c, old(View()), 0, 0, false)
      {
        var sectorSt := InitFileDescriptors(i);
        if sectorSt == 0 {
          blankSector := i;
        } else if sectorSt == 1 {
          cur := i;
          sectorAssigned := true;
        }
        i := i + 1;
      }
      if !sectorAssigned {
        cur := blankSector;
      }
      pc := Wait555;
    }
  }

  lemma CountNone(c: Config)
    ensures forall s :: CountIn([], s) == 0
  {
  }

  lemma DecodeHdr(b: seq<bv8>)
    requires |b| == BLOCK_SIZE
    ensures DecodeCell(b).hdr == DecodeHeader(b[..HEADER_SIZE])
  {
  }

  /** The filled buffer, once hashed, is the cell of the specification. */
  lemma FilledCell(crc: Crc, name: bv16, ext: bv8, data: Data, b: seq<bv8>)
    requires b == [0x1F | ((ext & 7) << 5), 0, (name & 0xFF) as bv8, (name >> 8) as bv8] + data
    ensures |b| == BLOCK_SIZE
    ensures HashedCell(crc, DecodeCell(b), SIZE_32, NEWER) == NewCell(crc, Key(name, TruncateExt(ext)), data)
  {
    assert b[HEADER_SIZE..] == data;
    var h := DecodeHeader(b[..HEADER_SIZE]);
    FilledHeader(name, ext);
    assert h.ext == TruncateExt(ext) && h.name == name;
    hide HeaderOf, HashOf, TruncateExt;
  }

  lemma FilledHeader(name: bv16, ext: bv8)
    ensures var h := HeaderOf(0x1F | ((ext & 7) << 5), 0, (name & 0xFF) as bv8, (name >> 8) as bv8);
            h.ext == TruncateExt(ext) && h.name == name
  {
  }

  lemma DecodeData(b: seq<bv8>)
    requires |b| == BLOCK_SIZE
    ensures DecodeCell(b).data == b[HEADER_SIZE..]
  {
  }

  lemma {:induction false} FindForReadAt(fd: seq<Fd>, name: bv16, ext: bv8, i: nat)
    requires i <= |fd| && (i < |fd| ==> MatchesRead(fd[i].header, name, ext))
    requires forall j :: 0 <= j < i ==> !MatchesRead(fd[j].header, name, ext)
    ensures FindForRead(fd, name, ext) == i
  {
    hide FindForRead;
  }
}
