/** The C store over the mock device, call by call and life by life, against the
    atomic map: what class `Fs` does to `FlashMock` is what module Runs says of the
    state machine, down to every single flash operation. */
module Sessions {
  import opened Block
  import opened Store
  import opened Images
  import opened Invariant
  import opened Writing
  import opened Collector
  import opened Runs
  import opened FlashDevice
  import opened Wormvars
  import Victim

  // ---------------------------------------------------------------- the log is only a record

  /** The same state with `l` recorded before its own log. */
  function After(l: seq<Image>, st: State): State {
    st.(log := l + st.log)
  }

  lemma AfterRing(c: Config, l: seq<Image>, st: State)
    ensures Shape(c, After(l, st)) <==> Shape(c, st)
    ensures Ring(c, After(l, st)) <==> Ring(c, st)
  {
    hide Dims;
  }

  lemma AfterOne(l: seq<Image>, log: seq<Image>, im: Image)
    ensures (l + log) + [im] == l + (log + [im])
  {
  }

  lemma ClearAfter(c: Config, l: seq<Image>, st: State, i: nat)
    requires Shape(c, st) && Shape(c, After(l, st)) && i <= |st.fd|
    ensures ClearNewer(c, After(l, st), i) == After(l, ClearNewer(c, st, i))
  {
    hide Dims, AndHeader;
    AfterOne(l, st.log, ClearNewer(c, st, i).flash);
  }

  lemma RetireAfter(c: Config, l: seq<Image>, st: State, i: nat)
    requires Shape(c, st) && Shape(c, After(l, st)) && i <= |st.fd|
    ensures Retire(c, After(l, st), i) == After(l, Retire(c, st, i))
  {
    hide Dims, AndFlags;
    AfterOne(l, st.log, Retire(c, st, i).flash);
  }

  lemma ProgramAfter(c: Config, l: seq<Image>, st: State, a: Addr, cell: Cell)
    requires a in st.flash
    ensures Program(c, After(l, st), a, cell) == After(l, Program(c, st, a, cell))
  {
    hide AndCell;
    AfterOne(l, st.log, Program(c, st, a, cell).flash);
  }

  lemma EnterAfter(c: Config, l: seq<Image>, st: State, i: nat, h: Header)
    requires Shape(c, st) && Shape(c, After(l, st)) && i <= |st.fd| && i < c.fdMax && st.pos[st.cur] < c.slots
    ensures Enter(c, After(l, st), i, h) == After(l, Enter(c, st, i, h))
  {
    hide Dims, AndFlags;
    AfterOne(l, st.log, Enter(c, st, i, h).flash);
  }

  lemma WriteCellAfter(c: Config, l: seq<Image>, st: State, key: Key, data: Data)
    requires Ring(c, st) && Ring(c, After(l, st)) && st.pos[st.cur] < c.slots
    ensures var (st', code) := WriteCell(c, st, key, data);
            WriteCell(c, After(l, st), key, data) == (After(l, st'), code)
  {
    hide Dims, Find, NewCell, ClearNewer, Retire, Enter;
    TargetInFlash(c, st);
    var i, cell := Find(st.fd, key), NewCell(c.crc, key, data);
    ClearAfter(c, l, st, i);
    var cleared := ClearNewer(c, st, i);
    TargetInFlash(c, cleared);
    ProgramAfter(c, l, cleared, Target(st), cell);
    var programmed := Program(c, cleared, Target(st), cell);
    AfterRing(c, l, programmed);
    RetireAfter(c, l, programmed, i);
    var retired := Retire(c, programmed, i);
    AfterRing(c, l, retired);
    if i < c.fdMax { EnterAfter(c, l, retired, i, cell.hdr); }
  }

  lemma EraseAfter(c: Config, l: seq<Image>, st: State)
    requires Ring(c, st) && Ring(c, After(l, st))
    ensures EraseVictim(c, After(l, st)) == After(l, EraseVictim(c, st))
  {
    hide Dims;
    AfterOne(l, st.log, EraseVictim(c, st).flash);
  }

  lemma LoopAfter(c: Config, l: seq<Image>, st: State, i: nat, env: Env)
    requires Ring(c, st) && Ring(c, After(l, st)) && i <= |st.fd|
    ensures RelocLoop(c, After(l, st), i, env) == After(l, RelocLoop(c, st, i, env))
  {
    hide Dims, EraseVictim, NextIn;
    var next := NextIn(st.fd, st.reloc.sector, i);
    if next == |st.fd| {
      var st1 := st.(reloc := st.reloc.(fdIndex := next), pc := Wait622);
      assert Ring(c, st1);
      AfterRing(c, l, st1);
      EraseAfter(c, l, st1);
    }
  }

  lemma {:induction false} UpdateAfter(c: Config, l: seq<Image>, st: State, env: Env)
    requires Ring(c, st) && Ring(c, After(l, st))
    ensures var (st', code) := UpdateSector(c, st, env);
            UpdateSector(c, After(l, st), env) == (After(l, st'), code)
    decreases Rollover(c, st), 0
  {
    hide Dims, NextFree, FsThread;
    if st.pos[st.cur] >= c.slots {
      var next := NextFree(c, st.pos, st.cur, st.cur);
      if next.Some? {
        var st1 := Activate(c, st, next.value);
        AfterRing(c, l, st1);
        ThreadAfter(c, l, st1, true, env);
      }
    }
  }

  lemma {:induction false} FsWriteAfter(c: Config, l: seq<Image>, st: State, name: bv16, ext: bv8, data: seq<bv8>,
      env: Env)
    requires Ring(c, st) && Ring(c, After(l, st))
    ensures var (st', code) := Store.FsWrite(c, st, name, ext, data, env);
            Store.FsWrite(c, After(l, st), name, ext, data, env) == (After(l, st'), code)
    decreases Rollover(c, st), 1
  {
    hide Dims, UpdateSector, WriteCell;
    if |data| <= DATA_SIZE {
      UpdateAfter(c, l, st, env);
      var (ready, code) := UpdateSector(c, st, env);
      if code >= 0 {
        AfterRing(c, l, ready);
        WriteCellAfter(c, l, ready, Key(name, TruncateExt(ext)), Pad(data));
      }
    }
  }

  lemma {:induction false} MoveAfter(c: Config, l: seq<Image>, st: State, env: Env)
    requires Ring(c, st) && Ring(c, After(l, st)) && Moving(st.pc)
    ensures Move(c, After(l, st), env) == After(l, Move(c, st, env))
    decreases Rollover(c, st), 2
  {
    hide Dims, Store.FsWrite;
    var h := st.reloc.fd.header;
    FsWriteAfter(c, l, st, h.name, h.ext as bv8, st.reloc.buffer.data, env);
  }

  /** A collector call does the same whatever has been logged before. */
  lemma {:induction false} ThreadAfter(c: Config, l: seq<Image>, st: State, flag: bool, env: Env)
    requires Ring(c, st) && Ring(c, After(l, st))
    ensures FsThread(c, After(l, st), flag, env) == After(l, FsThread(c, st, flag, env))
    decreases Rollover(c, st), 3
  {
    hide Dims, RelocLoop, Move, FindRelocSector, EraseVictim;
    match st.pc
    case Wait555 =>
    case Yield556 =>
      var v := FindRelocSector(c, st.fd, st.pos, st.cur);
      if v.Some? {
        var st1 := st.(reloc := st.reloc.(sector := v.value));
        AfterRing(c, l, st1);
        LoopAfter(c, l, st1, 0, env);
      }
    case Wait576 =>
    case Yield596 =>
      if st.fd[st.reloc.fdIndex].address == st.reloc.fd.address { MoveAfter(c, l, st, env); }
    case Yield610 => MoveAfter(c, l, st, env);
    case Yield617 => LoopAfter(c, l, st, st.reloc.fdIndex + 1, env);
    case Wait622 => EraseAfter(c, l, st);
  }

  /** One call as it is, on top of whatever has been logged. */
  function Perform(c: Config, st: State, call: Call): (r: (State, int))
    requires Ring(c, st)
  {
    match call
    case Write(name, ext, data, env) => Store.FsWrite(c, st, name, ext, data, env)
    case Thread(flag, env) => (FsThread(c, st, flag, env), 0)
  }

  /** `Exec` starts every call with an empty log: the call itself does not notice. */
  lemma ExecIsCall(c: Config, st: State, call: Call)
    requires Ring(c, st)
    ensures Perform(c, st, call) == (After(st.log, Exec(c, st, call).0), Exec(c, st, call).1)
  {
    hide Dims, Store.FsWrite, FsThread;
    var start := st.(log := []);
    assert After(st.log, start) == st;
    AfterRing(c, st.log, start);
    match call
    case Write(name, ext, data, env) => FsWriteAfter(c, st.log, start, name, ext, data, env);
    case Thread(flag, env) => ThreadAfter(c, st.log, start, flag, env);
  }

  lemma ResolveAfter(c: Config, l: seq<Image>, st: State, i: nat, a: Addr, cell: Cell)
    requires Shape(c, st) && Shape(c, After(l, st)) && i < |st.fd| && InRange(c, a)
    ensures Resolve(c, After(l, st), i, a, cell) == After(l, Resolve(c, st, i, a, cell))
  {
    hide Dims, AndHeader;
    AfterOne(l, st.log, Resolve(c, st, i, a, cell).flash);
  }

  lemma CellInFlash(c: Config, st: State, a: Addr)
    requires Shape(c, st) && InRange(c, a)
    ensures a in st.flash
  {
  }

  lemma {:induction false} ScanAfter(c: Config, l: seq<Image>, st: State, s: nat, k: nat)
    requires Shape(c, st) && Shape(c, After(l, st)) && s < c.sectors && k <= c.slots
    ensures var (st', code) := InitFileDescriptors(c, st, s, k);
            InitFileDescriptors(c, After(l, st), s, k) == (After(l, st'), code)
    decreases c.slots - k
  {
    hide Dims, Resolve, CheckCell, Find;
    if k < c.slots {
      var here := st.(pos := st.pos[s := k]);
      CellInFlash(c, st, Addr(s, k));
      var cell := st.flash[Addr(s, k)];
      var check := CheckCell(c.crc, cell);
      var i := Find(st.fd, KeyOf(cell.hdr));
      if check == BLOCK_OK && i < |st.fd| {
        ResolveAfter(c, l, here, i, Addr(s, k), cell);
        var next := Resolve(c, here, i, Addr(s, k), cell);
        AfterRing(c, l, next);
        ScanAfter(c, l, next, s, k + 1);
      } else if check == BLOCK_OK && |st.fd| < c.fdMax {
        var next := here.(fd := st.fd + [Fd(Addr(s, k), cell.hdr, s)]);
        AfterRing(c, l, next);
        ScanAfter(c, l, next, s, k + 1);
      } else if check != BLOCK_OK && check != BLOCK_IS_BLANK {
        AfterRing(c, l, here);
        ScanAfter(c, l, here, s, k + 1);
      }
    }
  }

  /** A boot does the same whatever has been logged before the power went. */
  lemma {:induction false} InitAfter(c: Config, l: seq<Image>, st: State, s: nat, blank: nat, found: bool)
    requires Shape(c, st) && Shape(c, After(l, st)) && s <= c.sectors && blank < c.sectors
    ensures InitFrom(c, After(l, st), s, blank, found) == After(l, InitFrom(c, st, s, blank, found))
    decreases c.sectors - s
  {
    hide Dims, InitFileDescriptors;
    if s < c.sectors {
      ScanAfter(c, l, st, s, 0);
      var (st1, code) := InitFileDescriptors(c, st, s, 0);
      var st2 := if code == 1 then st1.(cur := s) else st1;
      AfterRing(c, l, st2);
      InitAfter(c, l, st2, s + 1, if code == 0 then s else blank, found || code == 1);
    }
  }

  // ---------------------------------------------------------------- one call on the device

  /** Cut after any of the flash operations that `call` performed, the device holds
      the old map, or from the commit point of a successful write on the new one. */
  ghost predicate Survives(c: Config, st: State, call: Call, ops: seq<Image>)
    requires Indexed(c, st) && Ring(c, st)
  {
    forall n :: 0 <= n <= |ops| ==>
      Holds(c, ImageAfter(st.flash, ops, n),
            if Succeeds(c, st, call) && n >= CommitPoint(c, st, call) then Updated(Vars(c, st), call) else Vars(c, st))
  }

  lemma CallSurvives(c: Config, st: State, call: Call)
    requires Inv(c, st) && Ring(c, st) && Legal(c, Vars(c, st), call)
    ensures Survives(c, st, call, Exec(c, st, call).0.log)
  {
    hide Indexed, Collecting, Ring, Contents, Exec, Holds, CommitPoint, Legal, Updated;
    var ops := Exec(c, st, call).0.log;
    var m := Vars(c, st);
    forall n | 0 <= n <= |ops|
      ensures Holds(c, ImageAfter(st.flash, ops, n),
          if Succeeds(c, st, call) && n >= CommitPoint(c, st, call) then Updated(m, call) else m)
    {
      var m' := if Succeeds(c, st, call) && n >= CommitPoint(c, st, call) then Updated(m, call) else m;
      InvHolds(c, st);
      CutHolds(c, On(st), Cut(call, n), Off(ImageAfter(st.flash, ops, n)), m, m');
    }
  }

  lemma InvCounted(c: Config, st: State)
    requires Inv(c, st)
    ensures Ring(c, st) && forall s: nat :: CountIn(st.fd, s) <= 255
  {
    hide Indexed, Collecting, CountIn, Ring;
    IndexedIsRing(c, st);
    forall s: nat
      ensures CountIn(st.fd, s) <= 255
    {
      Victim.CountersFit(c, st, s);
    }
  }

  /** A call on the C store: what it leaves in RAM and on the device, the flash
      operations it performs, and what a power cut after any of them would leave. */
  method Serve(fs: Fs, call: Call) returns (code: int)
    requires fs.Wired() && Inv(fs.c, fs.View()) && Ring(fs.c, fs.View())
    modifies fs, fs.fd, fs.pos, fs.dev
    ensures fs.Wired() && fs.View() == After(old(fs.View()).log, Exec(fs.c, old(fs.View()), call).0)
    ensures code == Exec(fs.c, old(fs.View()), call).1
    ensures Legal(fs.c, Vars(fs.c, old(fs.View())), call) ==>
              Survives(fs.c, old(fs.View()), call, fs.dev.log[|old(fs.dev.log)|..])
  {
    hide Indexed, Collecting, Ring, Exec, Contents, Survives, Legal, Blocked, Cells;
    ghost var before := fs.View();
    InvCounted(fs.c, before);
    ExecIsCall(fs.c, before, call);
    match call {
      case Write(name, ext, data, env) =>
        code := fs.FsWrite(name, ext, data, env);
      case Thread(flag, env) =>
        var _ := fs.FsThread(flag, env);
        code := 0;
    }
    assert fs.dev.log[|before.log|..] == Exec(fs.c, before, call).0.log;
    if Legal(fs.c, Vars(fs.c, before), call) { CallSurvives(fs.c, before, call); }
  }

  // ---------------------------------------------------------------- one life

  /** The atomic map after `calls` returned `codes`. */
  function Replay(m: map<Key, Data>, calls: seq<Call>, codes: seq<int>): map<Key, Data>
    requires |codes| == |calls|
    decreases |calls|
  {
    if calls == [] then m
    else
      var n := |calls| - 1;
      var before := Replay(m, calls[..n], codes[..n]);
      if calls[n].Write? && |calls[n].data| <= DATA_SIZE && codes[n] == 0 then Updated(before, calls[n]) else before
  }

  lemma {:induction false} LegalAfter(c: Config, l: seq<Image>, st: State, calls: seq<Call>)
    requires Ring(c, st) && Ring(c, After(l, st)) && LegalSession(c, st, calls)
    ensures LegalSession(c, After(l, st), calls)
  {
    hide Find, Dims, Store.FsWrite, FsThread;
  }

  lemma InvAfter(c: Config, l: seq<Image>, st: State)
    requires Inv(c, st)
    ensures Inv(c, After(l, st)) && Vars(c, After(l, st)) == Vars(c, st)
    ensures Ring(c, st) && Ring(c, After(l, st))
  {
    hide Find, Good, Reads, Distinct, Where, Dims, Entries;
    IndexedIsRing(c, st);
  }

  lemma {:induction false} SessionStep(c: Config, st: State, calls: seq<Call>, st': State, code: int)
    requires Inv(c, st) && Ring(c, st) && calls != [] && LegalSession(c, st, calls)
    requires st' == After(st.log, Exec(c, st, calls[0]).0) && code == Exec(c, st, calls[0]).1
    ensures Inv(c, st') && Ring(c, st') && LegalSession(c, st', calls[1..])
    ensures Vars(c, st') ==
        if calls[0].Write? && |calls[0].data| <= DATA_SIZE && code == 0 then Updated(Vars(c, st), calls[0])
        else Vars(c, st)
  {
    hide Indexed, Collecting, Ring, Exec, Contents, Updated, Fits, Commits, Holds, CommitPoint;
    if calls[0].Write? && |calls[0].data| <= DATA_SIZE {
      FitsByVars(c, st, Key(calls[0].name, TruncateExt(calls[0].ext)));
    }
    ExecKeeps(c, st, calls[0]);
    InvAfter(c, st.log, Exec(c, st, calls[0]).0);
    LegalAfter(c, st.log, Exec(c, st, calls[0]).0, calls[1..]);
  }

  /** Any sequence of legal calls on the C store, whatever their number and order,
      is a run of the atomic map. */
  method Session(fs: Fs, calls: seq<Call>) returns (codes: seq<int>)
    requires fs.Wired() && Inv(fs.c, fs.View()) && Ring(fs.c, fs.View()) && LegalSession(fs.c, fs.View(), calls)
    modifies fs, fs.fd, fs.pos, fs.dev
    ensures fs.Wired() && Inv(fs.c, fs.View()) && Ring(fs.c, fs.View()) && |codes| == |calls|
    ensures Vars(fs.c, fs.View()) == Replay(Vars(fs.c, old(fs.View())), calls, codes)
  {
    hide Indexed, Collecting, Ring, Exec, Contents, Survives, Legal, LegalSession, Blocked, Cells, Updated;
    codes := [];
    for i := 0 to |calls|
      invariant fs.Wired() && Inv(fs.c, fs.View()) && Ring(fs.c, fs.View()) && |codes| == i
      invariant LegalSession(fs.c, fs.View(), calls[i..])
      invariant Vars(fs.c, fs.View()) == Replay(Vars(fs.c, old(fs.View())), calls[..i], codes)
    {
      ghost var before := fs.View();
      var code := Serve(fs, calls[i]);
      SessionStep(fs.c, before, calls[i..], fs.View(), code);
      assert calls[i..][1..] == calls[i + 1..];
      assert calls[..i + 1][..i] == calls[..i] && (codes + [code])[..i] == codes;
      codes := codes + [code];
    }
    assert calls[..|calls|] == calls;
  }

  /** The device, without any RAM, stores `m`. */
  ghost predicate DeviceHolds(dev: FlashMock, m: map<Key, Data>)
    reads dev
  {
    dev.Valid() && Holds(dev.c, Cells(dev.c, dev.flash), m)
  }

  /** The C store is up and stores `m`. */
  ghost predicate Running(fs: Fs, m: map<Key, Data>)
    reads fs, fs.dev, fs.fd, fs.pos
  {
    fs.Wired() && Inv(fs.c, fs.View()) && Ring(fs.c, fs.View()) && Vars(fs.c, fs.View()) == m
  }

  lemma DeviceBoots(dev: FlashMock, m: map<Key, Data>)
    requires DeviceHolds(dev, m)
    ensures ValidConfig(dev.c) && |dev.flash| == dev.c.sectors
    ensures var im := Cells(dev.c, dev.flash);
            var st := After(dev.log, Boot(dev.c, im));
            && Shape(dev.c, After(dev.log, ZeroRam(dev.c, im)))
            && Store.FsInit(dev.c, After(dev.log, ZeroRam(dev.c, im))) == st
            && Inv(dev.c, st) && Ring(dev.c, st) && Vars(dev.c, st) == m
            && Logged(dev.c, dev.log, st.log, m)
  {
    hide Indexed, Collecting, Ring, Contents, Cells, Holds, Dims, InitFrom;
    var im := Cells(dev.c, dev.flash);
    HoldsDims(dev.c, im, m);
    var start := ZeroRam(dev.c, im);
    AfterRing(dev.c, dev.log, start);
    InitAfter(dev.c, dev.log, start, 0, 0, false);
    BootOf(dev.c, im, m);
    InvAfter(dev.c, dev.log, Boot(dev.c, im));
  }

  /** A power cycle: zeroed RAM and `fs_init` over a device that stores `m`. Every
      flash operation of the boot leaves an image of `m` as well. */
  method PowerOn(dev: FlashMock, ghost m: map<Key, Data>) returns (fs: Fs)
    requires DeviceHolds(dev, m) && |dev.flash| == dev.c.sectors && ValidConfig(dev.c)
    modifies dev
    ensures fresh(fs) && fresh(fs.fd) && fresh(fs.pos) && fs.dev == dev && Running(fs, m)
    ensures fs.View() == After(old(dev.log), Boot(dev.c, old(Cells(dev.c, dev.flash))))
    ensures Logged(dev.c, old(dev.log), dev.log, m)
  {
    hide Indexed, Collecting, Ring, Contents, Cells, Holds, Dims, Store.FsInit, Boot, Logged, Blocked;
    DeviceBoots(dev, m);
    fs := new Fs(dev);
    assert fs.View() == After(dev.log, ZeroRam(dev.c, Cells(dev.c, dev.flash)));
    fs.FsInit();
  }

  /** Read back through the C store. */
  method ReadBack(fs: Fs, name: bv16, ext: bv8, len: nat, ghost m: map<Key, Data>) returns (code: int, data: seq<bv8>)
    requires Running(fs, m) && len <= DATA_SIZE
    ensures var key := Key(name, TruncateExt(ext));
            (code, data) == if ext < 8 && key in m then (0, m[key][..len]) else (-1, [])
  {
    hide Indexed, Collecting, Blocked, Cells, Contents, Store.FsRead, TruncateExt, Dims;
    ReadReturns(fs.c, fs.View(), name, ext, len);
    code, data := fs.FsRead(name, ext, len);
  }

  lemma RunningHolds(fs: Fs, m: map<Key, Data>)
    requires Running(fs, m)
    ensures DeviceHolds(fs.dev, m)
  {
    hide Indexed, Collecting, Contents, Cells, Holds, Dims, Blocked;
    InvHolds(fs.c, fs.View());
  }

  /** A whole life between two power cycles: zeroed RAM, boot, any legal calls, and
      the power goes. The device passes from one map to the next. */
  method Life(dev: FlashMock, calls: seq<Call>, ghost m: map<Key, Data>) returns (codes: seq<int>)
    requires DeviceHolds(dev, m) && |dev.flash| == dev.c.sectors && ValidConfig(dev.c)
    requires var st := Boot(dev.c, Cells(dev.c, dev.flash)); Ring(dev.c, st) && LegalSession(dev.c, st, calls)
    modifies dev
    ensures |codes| == |calls| && DeviceHolds(dev, Replay(m, calls, codes))
  {
    hide Indexed, Collecting, Ring, Contents, Cells, Holds, Dims, Boot, Logged, Blocked, LegalSession;
    ghost var st := Boot(dev.c, Cells(dev.c, dev.flash));
    DeviceBoots(dev, m);
    LegalAfter(dev.c, dev.log, st, calls);
    var fs := PowerOn(dev, m);
    codes := Session(fs, calls);
    RunningHolds(fs, Replay(m, calls, codes));
  }

  lemma OnesAreBlank(b: seq<bv8>)
    requires b == Repeat(0xFF, BLOCK_SIZE)
    ensures DecodeCell(b) == BLANK_CELL
  {
    assert HeaderOf(0xFF, 0xFF, 0xFF, 0xFF) == BLANK_HEADER;
    assert b[HEADER_SIZE..] == Repeat(0xFF, DATA_SIZE);
  }

  /** A new device, without chunks, is the fully erased image. */
  lemma NewIsFactory(c: Config)
    requires ValidConfig(c)
    ensures Cells(c, NoChunks(c)) == Factory(c)
  {
    hide DecodeCell, BytesAt, Dims;
    NoChunksErased(c);
    forall a | InRange(c, a)
      ensures DecodeCell(BytesAt(c, NoChunks(c), a)) == BLANK_CELL
    {
      OnesAreBlank(BytesAt(c, NoChunks(c), a));
    }
  }

  /** The first life of a device: from nothing stored to the map of the accepted writes. */
  method FirstLife(c: Config, calls: seq<Call>) returns (dev: FlashMock, codes: seq<int>)
    requires ValidConfig(c) && Ring(c, Boot(c, Factory(c))) && LegalSession(c, Boot(c, Factory(c)), calls)
    ensures fresh(dev) && dev.c == c && |codes| == |calls| && DeviceHolds(dev, Replay(map[], calls, codes))
  {
    hide Cells, Holds, Dims, Boot, LegalSession, Ring, Factory, Blocked;
    NewIsFactory(c);
    FactoryIsEmpty(c);
    dev := new FlashMock(c);
    codes := Life(dev, calls, map[]);
  }
}
