/** Where the code stops keeping its promises, and exactly when: a full descriptor
    table (wormvars.c:385-426) and `fs_init` on a live index (wormvars.c:460-493). */
module Limits {
  import opened Block
  import opened Store
  import opened Images
  import opened Invariant
  import opened Writing
  import opened Collector
  import opened Booting
  import opened Runs
  import Progress

  // ---------------------------------------------------------------- full table

  /** The cell of a write that finds no descriptor is programmed, but neither indexed
      nor passed by the write pointer (wormvars.c:385 before 408-426). */
  lemma FullTableEffect(c: Config, st: State, key: Key, data: Data)
    requires Ring(c, st) && Indexed(c, st) && st.pos[st.cur] < c.slots && !Fits(c, st, key)
    ensures var (st', code) := WriteCell(c, st, key, data);
            && code == -1 && st' == st.(flash := st'.flash, log := st'.log)
            && Target(st) in st.flash && st'.flash == st.flash[Target(st) := NewCell(c.crc, key, data)]
            && !Indexed(c, st')
  {
    hide Good, Find, Where, LiveAt, Keys, NewCell, AndCell, Distinct, Entries;
    var cell := NewCell(c.crc, key, data);
    NewCellFacts(c, key, data);
    GoodIsProgrammed(c.crc, cell);
    TargetIsBlank(c, st.flash, ReadingOf(st));
    BlankAbsorbs(cell);
    var (st', code) := WriteCell(c, st, key, data);
    assert st'.flash[Target(st)] == cell;
  }

  /** `fs_write` keeps the invariant if and only if it is refused for length or room,
      the variable already exists, or a descriptor is free. */
  lemma {:induction false} WriteKeepsIff(c: Config, st: State, name: bv16, ext: bv8, data: seq<bv8>, env: Env)
    requires Inv(c, st) && Ring(c, st)
    ensures var key := Key(name, TruncateExt(ext));
            Inv(c, FsWrite(c, st, name, ext, data, env).0) <==>
            |data| > DATA_SIZE || AllFull(c, st.pos) || key in Vars(c, st) || |Vars(c, st)| < c.fdMax
  {
    hide Find, Good, Reads, Distinct, Where, Dims, Entries, Collecting, WriteCell, UpdateSector, Contents, Fits;
    var key := Key(name, TruncateExt(ext));
    FitsByVars(c, st, key);
    if |data| > DATA_SIZE {
    } else if Fits(c, st, key) {
      WriteKeeps(c, st, name, ext, data, env);
    } else {
      UpdateSectorKeeps(c, st, env);
      var ready := UpdateSector(c, st, env).0;
      FitsByVars(c, ready, key);
      if UpdateSector(c, st, env).1 >= 0 {
        FullTableEffect(c, ready, key, Pad(data));
      }
    }
  }

  /** The result codes of `fs_write`, and that a refusal for length or room changes nothing. */
  lemma {:induction false} WriteCodes(c: Config, st: State, name: bv16, ext: bv8, data: seq<bv8>, env: Env)
    requires Inv(c, st) && Ring(c, st)
    ensures var (st', code) := FsWrite(c, st, name, ext, data, env);
            && code == (if |data| > 28 then -1
                        else if forall s :: 0 <= s < c.sectors ==> st.pos[s] == c.slots then -2
                        else if Key(name, TruncateExt(ext)) in Vars(c, st) || |Vars(c, st)| < c.fdMax then 0
                        else -1)
            && (|data| > 28 || code == -2 ==> st' == st)
  {
    hide Find, Good, Reads, Distinct, Where, Dims, Entries, Collecting, WriteCell, UpdateSector, Contents, Fits;
    var key := Key(name, TruncateExt(ext));
    FitsByVars(c, st, key);
    if |data| <= DATA_SIZE {
      UpdateSectorKeeps(c, st, env);
      var (ready, code) := UpdateSector(c, st, env);
      FitsByVars(c, ready, key);
      if Fits(c, st, key) {
        WriteKeeps(c, st, name, ext, data, env);
      } else if code >= 0 {
        FullTableEffect(c, ready, key, Pad(data));
      }
    }
  }

  lemma FirstBoot(c: Config)
    requires ValidConfig(c)
    ensures var st := Boot(c, Factory(c));
            && Inv(c, st) && Ring(c, st) && Vars(c, st) == map[] && st.pos == seq(c.sectors, i => 0) && st.pc == Wait555
            && Starts(c, st.pos, st.cur)
  {
    var w := Reading(seq(c.sectors, i => 0), 0, map[], None);
    FactoryReads(c, w);
    hide Good, Find, Where, Reads, Dims, Distinct, Entries, Holds, Logged, Boot, Collecting, Factory;
    BootKeeps(c, Factory(c), w, map[]);
    IndexedIsRing(c, Boot(c, Factory(c)));
  }

  lemma {:induction false} FirstWrite(c: Config, st: State, env: Env)
    requires Inv(c, st) && Ring(c, st) && Vars(c, st) == map[] && st.pos == seq(c.sectors, i => 0) && c.fdMax > 0
    ensures var st' := FsWrite(c, st, 1, 0, [7], env).0;
            && Inv(c, st') && Vars(c, st') == map[Key(1, TruncateExt(0)) := Pad([7])] && !AllFull(c, st'.pos)
  {
    hide Find, Good, Reads, Distinct, Where, Dims, Entries, Collecting, WriteCell, Contents, TruncateExt, Pad, Commits;
    var key := Key(1, TruncateExt(0));
    FitsByVars(c, st, key);
    WriteKeeps(c, st, 1, 0, [7], env);
    Progress.WriteIsWriteCell(c, st, 1, 0, [7], env);
    WriteCellCommits(c, st, key, Pad([7]));
    var other := if st.cur == 0 then 1 else 0;
    assert FsWrite(c, st, 1, 0, [7], env).0.pos[other] == 0;
  }

  /** A concrete case: with room for one descriptor, the second variable breaks the store. */
  lemma {:induction false} FullTableExample(crc: Crc, env: Env)
    ensures var c := Config(4, 2, 2, 1, crc); Ring(c, Boot(c, Factory(c)))
    ensures var c := Config(4, 2, 2, 1, crc);
            var st := FsWrite(c, Boot(c, Factory(c)), 1, 0, [7], env).0;
            && Inv(c, st) && !Inv(c, FsWrite(c, st, 2, 0, [9], env).0)
  {
    hide FsWrite, Inv, Boot, Ring, Factory, TruncateExt, Contents, Pad;
    var c := Config(4, 2, 2, 1, crc);
    FirstBoot(c);
    FirstWrite(c, Boot(c, Factory(c)), env);
    WriteKeepsIff(c, FsWrite(c, Boot(c, Factory(c)), 1, 0, [7], env).0, 2, 0, [9], env);
  }

  /** And the damage spreads: the next successful write of another variable lands on
      the orphaned cell and stores the AND of both values. */
  lemma OrphanCorrupts(c: Config, st: State, lost: Key, lostData: Data, key: Key, data: Data)
    requires Ring(c, st) && Indexed(c, st) && st.pos[st.cur] < c.slots && !Fits(c, st, lost) && key in Vars(c, st)
    ensures var st1 := WriteCell(c, st, lost, lostData).0;
            && Ring(c, st1) && st1.pos[st1.cur] < c.slots
            && var (st2, code) := WriteCell(c, st1, key, data);
               && code == 0 && Find(st2.fd, key) < |st2.fd|
               && st2.fd[Find(st2.fd, key)].address in st2.flash
               && st2.flash[st2.fd[Find(st2.fd, key)].address].data == AndBytes(lostData, data)
  {
    hide Good, Find, Where, LiveAt, Keys, Distinct, Entries, WriteCell, NewCell, Layout, Fits;
    NewCellFacts(c, lost, lostData);
    NewCellFacts(c, key, data);
    FullTableEffect(c, st, lost, lostData);
    var st1 := WriteCell(c, st, lost, lostData).0;
    TargetIsBlank(c, st.flash, ReadingOf(st));
    FitsByVars(c, st, key);
    var i := Find(st.fd, key);
    EntryIsValid(c, st, i);
    var s1, s2, s3, s4 := WriteSteps(c, st1, key, data);
    hide Reads, ValidAt, Dims, AndHeader, AndFlags, HashedCell;
    assert s2.flash[Target(st)].data == AndBytes(lostData, data);
    FindIs(s4.fd, key, i);
  }

  // ---------------------------------------------------------------- fs_init on a live index

  /** The scan of `fs_init` over RAM that already indexes the flash: every cell
      passed so far has been invalidated, the rest is untouched. */
  ghost predicate Wiping(c: Config, st0: State, st: State, s: nat, k: nat)
    requires Indexed(c, st0)
  {
    && Shape(c, st) && s <= c.sectors && k <= c.slots && st.fd == st0.fd
    && Layout(c, st.flash, st0.pos, st0.cur)
    && (k > 0 ==> s < c.sectors && k <= st0.pos[s])
    && (forall a :: a in st.flash && Seen(a, s, k) ==> !ValidAt(c, st.flash, a))
    && (forall a :: a in st.flash && !Seen(a, s, k) ==> st.flash[a] == st0.flash[a])
    && (forall a :: a in st.flash ==> st.flash[a].data == st0.flash[a].data)
  }

  /** The scan finds a cell that RAM already indexes: it is its own duplicate, and is
      the one that goes. */
  lemma WipeResolve(c: Config, st0: State, st: State, a: Addr)
    requires Indexed(c, st0) && Shape(c, st) && st.fd == st0.fd
    requires ValidAt(c, st0.flash, a) && a in st.flash && st.flash[a] == st0.flash[a] && InRange(c, a)
    ensures var i := Find(st.fd, KeyAt(st.flash, a));
            i < |st.fd|
            && var st' := Resolve(c, st, i, a, st.flash[a]);
               && st' == st.(flash := st'.flash, log := st'.log)
               && st'.flash == st.flash[a := st.flash[a].(hdr := st.flash[a].hdr.(size := SIZE_INVALID))]
  {
    hide Good, Find, Where, Reads, Distinct, AndHeader;
    ValidIsEntry(c, st0, a);
    EntryHeader(c, st0, Find(st.fd, KeyAt(st.flash, a)));
    ClearingBits(st.flash[a].hdr);
  }

  lemma WipeCell(c: Config, st0: State, st: State, s: nat, k: nat)
    requires Indexed(c, st0) && s < c.sectors && k < c.slots && Wiping(c, st0, st, s, k)
    requires ValidAt(c, st.flash, Addr(s, k)) && k < st0.pos[s]
    ensures var a := Addr(s, k);
            var i := Find(st.fd, KeyAt(st.flash, a));
            i < |st.fd| && Wiping(c, st0, Resolve(c, st, i, a, st.flash[a]), s, k + 1)
  {
    hide Good, Find, Where, LiveAt, Distinct, Reads, Resolve, Entries, Layout;
    var a := Addr(s, k);
    var cell := st.flash[a];
    WipeResolve(c, st0, st, a);
    var st' := Resolve(c, st, Find(st.fd, KeyAt(st.flash, a)), a, cell);
    GoodSurvivesClear(c.crc, cell);
    GoodIsProgrammed(c.crc, cell);
    PutEffect(c, st.flash, a, st'.flash[a], st'.flash);
    RewriteKeepsLayout(c, st.flash, st0.pos, st0.cur, a, st'.flash[a], st'.flash);
  }

  /** Past a cell that is not valid. */
  lemma WipeSkip(c: Config, st0: State, st: State, s: nat, k: nat)
    requires Indexed(c, st0) && s < c.sectors && k < c.slots && Wiping(c, st0, st, s, k) && k < st0.pos[s]
    requires !ValidAt(c, st.flash, Addr(s, k))
    ensures Wiping(c, st0, st, s, k + 1)
  {
    hide Good, Indexed, Layout, Dims;
  }

  /** Nothing valid is left in the sector. */
  lemma WipeEnd(c: Config, st0: State, st: State, s: nat, k: nat)
    requires Indexed(c, st0) && s < c.sectors && Wiping(c, st0, st, s, k)
    requires forall a :: ValidAt(c, st.flash, a) && a.sector == s ==> a.slot < k
    ensures Wiping(c, st0, st, s + 1, 0)
  {
    hide Good, Indexed, Layout;
  }

  lemma WipePosition(c: Config, st0: State, st: State, s: nat, k: nat)
    requires Indexed(c, st0) && s < c.sectors && Wiping(c, st0, st, s, k)
    ensures |st.pos| == c.sectors && Wiping(c, st0, st.(pos := st.pos[s := k]), s, k)
  {
    hide Good, Indexed, Layout, Dims;
  }

  lemma WipeSector(c: Config, st0: State, st: State, s: nat, k: nat)
    requires Indexed(c, st0) && s < c.sectors && k <= c.slots && Wiping(c, st0, st, s, k)
    ensures Wiping(c, st0, InitFileDescriptors(c, st, s, k).0, s + 1, 0)
    decreases c.slots - k
  {
    hide Good, Find, LiveAt, Entries, Layout, CheckCell, Resolve, Indexed, Wiping;
    WipingBound(c, st0, st, s, k);
    WipePosition(c, st0, st, s, k);
    var here := st.(pos := st.pos[s := k]);
    if k == c.slots {
      WipeEnd(c, st0, here, s, k);
    } else {
      PrefixEnd(c, st.flash, st0.pos, st0.cur, s, k);
      GoodMeans(c.crc, st.flash[Addr(s, k)]);
      if k == st0.pos[s] {
        WipeEnd(c, st0, here, s, k);
      } else if ValidAt(c, st.flash, Addr(s, k)) {
        WipeCell(c, st0, here, s, k);
        var i := Find(st.fd, KeyAt(st.flash, Addr(s, k)));
        WipeSector(c, st0, Resolve(c, here, i, Addr(s, k), st.flash[Addr(s, k)]), s, k + 1);
      } else {
        WipeSkip(c, st0, here, s, k);
        WipeSector(c, st0, here, s, k + 1);
      }
    }
  }

  lemma WipingBound(c: Config, st0: State, st: State, s: nat, k: nat)
    requires Indexed(c, st0) && s < c.sectors && Wiping(c, st0, st, s, k)
    ensures |st0.pos| == c.sectors && k <= st0.pos[s] && Shape(c, st) && Shape(c, st0) && st.fd == st0.fd
    ensures Layout(c, st.flash, st0.pos, st0.cur)
  {
    hide Good, Find, Where, LiveAt, Distinct, Reads, Entries;
  }

  lemma {:induction false} WipeFrom(c: Config, st0: State, st: State, s: nat, blank: nat, found: bool)
    requires Indexed(c, st0) && s <= c.sectors && blank < c.sectors && Wiping(c, st0, st, s, 0)
    ensures Wiping(c, st0, InitFrom(c, st, s, blank, found), c.sectors, 0)
    decreases c.sectors - s
  {
    hide Good, Find, Where, LiveAt, Distinct, Reads, Entries, Layout, Dims, Indexed, InitFileDescriptors;
    if s < c.sectors {
      WipeSector(c, st0, st, s, 0);
      var (st1, code) := InitFileDescriptors(c, st, s, 0);
      var (cur1, blank1) := (if code == 1 then s else st1.cur, if code == 0 then s else blank);
      WipeFrom(c, st0, st1.(cur := cur1), s + 1, blank1, found || code == 1);
    }
  }

  /** Calling `fs_init` again without a power cycle invalidates every variable on
      flash: the next power cycle finds an empty store. */
  lemma LiveInitWipes(c: Config, st: State)
    requires Inv(c, st)
    ensures var im := FsInit(c, st).flash;
            Dims(c, im) && Indexed(c, Boot(c, im)) && Vars(c, Boot(c, im)) == map[]
  {
    hide Good, Find, Where, LiveAt, Distinct, Reads, Entries, Layout, Boot, InitFrom, Contents, Dims;
    WipeStart(c, st);
    WipeFrom(c, st, st, 0, 0, false);
    WipedIsEmpty(c, st, FsInit(c, st));
  }

  /** So the stored map survives the next power cycle if and only if RAM indexed
      nothing when `fs_init` was called. */
  lemma LiveInitSurvives(c: Config, st: State)
    requires Inv(c, st)
    ensures Dims(c, FsInit(c, st).flash) && Indexed(c, Boot(c, FsInit(c, st).flash))
    ensures Vars(c, Boot(c, FsInit(c, st).flash)) == Vars(c, st) <==> st.fd == []
  {
    hide Good, Find, LiveAt, Distinct, Reads, Entries, Layout, Boot, FsInit, Contents, Dims, Where;
    LiveInitWipes(c, st);
    FitsByVars(c, st, Key(0, 0));
    assert |Vars(c, st)| == 0 <==> Vars(c, st) == map[];
  }

  /** RAM hides the loss: until then every read answers as before. */
  lemma LiveInitHides(c: Config, st: State, name: bv16, ext: bv8, len: nat)
    requires Inv(c, st) && len <= DATA_SIZE
    ensures FsRead(c, FsInit(c, st), name, ext, len) == FsRead(c, st, name, ext, len)
  {
    hide Good, Find, Where, LiveAt, Distinct, Reads, Entries, Layout, Boot, InitFrom, Contents, FindForRead;
    WipeStart(c, st);
    WipeFrom(c, st, st, 0, 0, false);
  }

  lemma WipeStart(c: Config, st: State)
    requires Indexed(c, st)
    ensures Wiping(c, st, st, 0, 0)
  {
    hide Good, Find, Where, LiveAt, Distinct, Entries, Layout, Dims;
  }

  lemma WipedIsEmpty(c: Config, st0: State, st: State)
    requires Indexed(c, st0) && Wiping(c, st0, st, c.sectors, 0)
    ensures Indexed(c, Boot(c, st.flash)) && Vars(c, Boot(c, st.flash)) == map[]
  {
    hide Good, Find, Where, Distinct, Entries, Layout, Boot;
    var w := Reading(st0.pos, st0.cur, map[], None);
    forall a
      ensures !ValidAt(c, st.flash, a)
    {
      if a in st.flash { assert Seen(a, c.sectors, 0); }
    }
    assert LiveAt(c, st.flash, w.at, None);
    assert Contents(st.flash, w.at) == map[];
    assert ReadsAs(c, st.flash, w, map[]);
    hide Reads, Contents, Logged, Collecting;
    BootKeeps(c, st.flash, w, map[]);
  }
}
