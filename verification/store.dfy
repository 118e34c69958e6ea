/** The wormvars store as a state machine (wormvars.c). Every function mirrors one
    C function: it maps the whole state, RAM and flash, to the state that the
    C function leaves, and appends to `log` the flash image after each single
    flash write or erase. */
module Store {
  import opened Block

  /** The geometry of wormvars.c:55-104 and wvars_structs.h:28-29, kept symbolic. */
  datatype Config = Config(sectors: nat, slots: nat, minBlank: nat, fdMax: nat, crc: Crc)

  /** The slots of `n` sectors: `n * k`, written so that no proof about the store
      has to meet a product. */
  function Capacity(n: nat, k: nat): nat {
    if n == 0 then 0 else Capacity(n - 1, k) + k
  }

  lemma {:induction false} CapacityIsProduct(n: nat, k: nat)
    ensures Capacity(n, k) == n * k
  {
    if n > 0 {
      CapacityIsProduct(n - 1, k);
      assert (n - 1) * k == n * k - k;
    }
  }

  predicate ValidConfig(c: Config) {
    && 1 <= c.minBlank && c.minBlank + 1 <= c.sectors <= 255
    && 2 <= c.slots <= 255
    && c.fdMax <= Capacity(c.sectors - c.minBlank - 1, c.slots)
  }

  datatype Option<T> = None | Some(value: T)

  /** Slot `slot` of sector `sector`; the byte address is computed in FlashDevice. */
  datatype Addr = Addr(sector: nat, slot: nat)

  type Image = map<Addr, Cell>

  datatype Fd = Fd(address: Addr, header: Header, sector: nat)

  datatype Reloc = Reloc(buffer: Cell, fd: Fd, sector: nat, fdIndex: nat)

  /** Where `fs_thread` resumes, named by its line in wormvars.c. */
  datatype Pc = Wait555 | Yield556 | Wait576 | Yield596 | Yield610 | Yield617 | Wait622

  /** What the hardware answers during one call. */
  datatype Env = Env(expired: bool, ready: bool)

  /** `pos[s]` is the write pointer `curr.address[s]` counted in slots. */
  datatype State = State(flash: Image, fd: seq<Fd>, pos: seq<nat>, cur: nat, reloc: Reloc, pc: Pc, log: seq<Image>)

  predicate InRange(c: Config, a: Addr) {
    a.sector < c.sectors && a.slot < c.slots
  }

  ghost predicate Dims(c: Config, im: Image) {
    forall a :: a in im <==> InRange(c, a)
  }

  /** All slots of the device, row by row. */
  ghost function Row(s: nat, k: nat): (r: set<Addr>)
    ensures forall a :: a in r <==> a.sector == s && a.slot < k
  {
    if k == 0 then {} else Row(s, k - 1) + {Addr(s, k - 1)}
  }

  ghost function Rows(c: Config, n: nat): (r: set<Addr>)
    ensures forall a :: a in r <==> a.sector < n && a.slot < c.slots
  {
    if n == 0 then {} else Rows(c, n - 1) + Row(n - 1, c.slots)
  }

  /** What indexing and slicing need; the real invariant is in module Invariant. */
  ghost predicate Shape(c: Config, st: State) {
    && ValidConfig(c) && Dims(c, st.flash)
    && |st.pos| == c.sectors && st.cur < c.sectors
    && |st.fd| <= c.fdMax
    && (forall i :: 0 <= i < |st.fd| ==> InRange(c, st.fd[i].address) && st.fd[i].sector < c.sectors)
    && InRange(c, st.reloc.fd.address) && st.reloc.sector < c.sectors
    && (st.pc == Wait576 || Moving(st.pc) || st.pc == Yield617 ==> st.reloc.fdIndex < |st.fd|)
  }

  /** Resume points inside the relocation of one descriptor. */
  predicate Moving(pc: Pc) {
    pc == Yield596 || pc == Yield610
  }

  /** The log is used sector by sector: only the current one may be partly written. */
  ghost predicate Ring(c: Config, st: State) {
    && Shape(c, st)
    && st.pos[st.cur] <= c.slots
    && (forall s :: 0 <= s < c.sectors && s != st.cur ==> st.pos[s] == 0 || st.pos[s] == c.slots)
  }

  // ---------------------------------------------------------------- flash operations

  function Program(c: Config, st: State, a: Addr, cell: Cell): (r: State)
    requires a in st.flash
    ensures Dims(c, st.flash) ==> Dims(c, r.flash)
    ensures r == st.(flash := r.flash, log := r.log)
  {
    var im := st.flash[a := AndCell(st.flash[a], cell)];
    st.(flash := im, log := st.log + [im])
  }

  /** A four-byte write of a header. */
  function WriteHeader(c: Config, st: State, a: Addr, h: Header): State
    requires a in st.flash
  {
    var im := st.flash[a := st.flash[a].(hdr := AndHeader(st.flash[a].hdr, h))];
    st.(flash := im, log := st.log + [im])
  }

  /** A one-byte write of a header: the flag byte. */
  function WriteFlags(c: Config, st: State, a: Addr, h: Header): State
    requires a in st.flash
  {
    var im := st.flash[a := st.flash[a].(hdr := AndFlags(st.flash[a].hdr, h))];
    st.(flash := im, log := st.log + [im])
  }

  function Erase(c: Config, st: State, s: nat): State {
    var im := map a | a in st.flash :: if a.sector == s then BLANK_CELL else st.flash[a];
    st.(flash := im, log := st.log + [im])
  }

  // ---------------------------------------------------------------- index

  /** Linear search in the descriptor table. */
  function Find(fd: seq<Fd>, key: Key): (r: nat)
    ensures r <= |fd|
    ensures r < |fd| ==> KeyOf(fd[r].header) == key
    ensures forall j :: 0 <= j < r ==> KeyOf(fd[j].header) != key
  {
    FindFrom(fd, key, 0)
  }

  function FindFrom(fd: seq<Fd>, key: Key, i: nat): (r: nat)
    requires i <= |fd|
    ensures i <= r <= |fd|
    ensures r < |fd| ==> KeyOf(fd[r].header) == key
    ensures forall j :: i <= j < r ==> KeyOf(fd[j].header) != key
    decreases |fd| - i
  {
    if i == |fd| || KeyOf(fd[i].header) == key then i else FindFrom(fd, key, i + 1)
  }

  /** `fs_read` compares the caller's eight-bit extension with the three-bit field. */
  predicate MatchesRead(h: Header, name: bv16, ext: bv8) {
    h.name == name && h.ext as bv8 == ext
  }

  function FindForRead(fd: seq<Fd>, name: bv16, ext: bv8, i: nat := 0): (r: nat)
    requires i <= |fd|
    ensures i <= r <= |fd|
    ensures r < |fd| ==> MatchesRead(fd[r].header, name, ext)
    ensures forall j :: i <= j < r ==> !MatchesRead(fd[j].header, name, ext)
    decreases |fd| - i
  {
    if i == |fd| || MatchesRead(fd[i].header, name, ext) then i else FindForRead(fd, name, ext, i + 1)
  }

  function FsRead(c: Config, st: State, name: bv16, ext: bv8, len: nat): (int, seq<bv8>)
    requires Shape(c, st) && len <= DATA_SIZE
  {
    var i := FindForRead(st.fd, name, ext);
    if i < |st.fd| then (0, st.flash[st.fd[i].address].data[..len]) else (-1, [])
  }

  // ---------------------------------------------------------------- fs_write

  /** The sector after `n`, circularly. */
  function Successor(c: Config, n: nat): (r: nat)
    requires n < c.sectors
    ensures r == if n + 1 == c.sectors then 0 else n + 1
  {
    (n + 1) % c.sectors
  }

  /** Steps from sector `n` upwards and around to `cur`. */
  function Ahead(c: Config, cur: nat, n: nat): nat
    requires cur < c.sectors && n < c.sectors
  {
    if n <= cur then cur - n else cur + c.sectors - n
  }

  /** The next sector after `n`, circularly and ending at `cur`, that is not full. */
  function NextFree(c: Config, pos: seq<nat>, cur: nat, n: nat): (r: Option<nat>)
    requires |pos| == c.sectors && cur < c.sectors && n < c.sectors
    ensures r.Some? ==> r.value < c.sectors && pos[r.value] < c.slots
    decreases Ahead(c, cur, Successor(c, n))
  {
    hide Successor;
    var next := Successor(c, n);
    if pos[next] < c.slots then Some(next)
    else if next == cur then None
    else NextFree(c, pos, cur, next)
  }

  /** Steps from sector `n` upwards and around to `s`: `n` itself comes last. */
  function Around(c: Config, n: nat, s: nat): int {
    if s > n then s - n else s - n + c.sectors
  }

  /** The search goes around from `n` and stops at the nearest sector that is not full. */
  lemma {:induction false} NextFreeIsNearest(c: Config, pos: seq<nat>, cur: nat, n: nat)
    requires |pos| == c.sectors && cur < c.sectors && n < c.sectors
    ensures var r := NextFree(c, pos, cur, n);
            var last := if r.Some? then Around(c, n, r.value) - 1 else Around(c, n, cur);
            forall s :: 0 <= s < c.sectors && Around(c, n, s) <= last ==> pos[s] >= c.slots
    decreases Ahead(c, cur, Successor(c, n))
  {
    var next := Successor(c, n);
    hide Successor;
    if pos[next] >= c.slots && next != cur {
      NextFreeIsNearest(c, pos, cur, next);
    }
  }

  /** 1 when the next write must change sector: only then can `fs_write` re-enter `fs_thread`. */
  function Rollover(c: Config, st: State): nat
    requires Shape(c, st)
  {
    if st.pos[st.cur] >= c.slots then 1 else 0
  }

  function Activate(c: Config, st: State, s: nat): (r: State)
    requires Ring(c, st) && s < c.sectors && st.pos[st.cur] == c.slots
    ensures Ring(c, r)
  {
    st.(cur := s)
  }

  function UpdateSector(c: Config, st: State, env: Env): (r: (State, int))
    requires Ring(c, st)
    ensures Ring(c, r.0)
    ensures r.1 >= 0 ==> r.0.pos[r.0.cur] < c.slots
    ensures Moving(st.pc) ==> Moving(r.0.pc) || r.0.pc == Yield617
    decreases Rollover(c, st), 0
  {
    hide Dims, NextFree, FsThread;
    if st.pos[st.cur] >= c.slots then
      match NextFree(c, st.pos, st.cur, st.cur)
      case Some(next) => (FsThread(c, Activate(c, st, next), true, env), 1)
      case None => (st, -1)
    else (st, 0)
  }

  function Pad(data: seq<bv8>): Data
    requires |data| <= DATA_SIZE
  {
    data + Repeat(0, DATA_SIZE - |data|)
  }

  /** First flash write of `fs_write`: the previous cell of the key stops being `newer`. */
  function ClearNewer(c: Config, st: State, i: nat): (r: State)
    requires Shape(c, st) && i <= |st.fd|
    ensures Shape(c, r) && |r.fd| == |st.fd| && r == st.(fd := r.fd, flash := r.flash, log := r.log)
  {
    if i < |st.fd| && st.fd[i].header.newer == NEWER then
      var h := st.fd[i].header.(newer := CURRENT);
      WriteHeader(c, st.(fd := st.fd[i := st.fd[i].(header := h)]), st.fd[i].address, h)
    else st
  }

  /** Third flash write: the previous cell is invalidated. */
  function Retire(c: Config, st: State, i: nat): (r: State)
    requires Shape(c, st) && i <= |st.fd|
    ensures Shape(c, r) && |r.fd| == |st.fd| && r == st.(fd := r.fd, flash := r.flash, log := r.log)
  {
    if i < |st.fd| then
      var h := st.fd[i].header.(size := SIZE_INVALID);
      WriteFlags(c, st.(fd := st.fd[i := st.fd[i].(header := h)]), st.fd[i].address, h)
    else st
  }

  /** Fourth flash write: the new cell is indexed and stops being `newer`. */
  function Enter(c: Config, st: State, i: nat, h: Header): (r: State)
    requires Shape(c, st) && i <= |st.fd| && i < c.fdMax && st.pos[st.cur] < c.slots
    ensures Shape(c, r)
    ensures r == st.(fd := r.fd, flash := r.flash, log := r.log, pos := st.pos[st.cur := st.pos[st.cur] + 1])
  {
    var a := Addr(st.cur, st.pos[st.cur]);
    var entry := Fd(a, h.(newer := CURRENT), st.cur);
    var fd := if i < |st.fd| then st.fd[i := entry] else st.fd + [entry];
    WriteFlags(c, st, a, entry.header).(fd := fd, pos := st.pos[st.cur := st.pos[st.cur] + 1])
  }

  /** `fs_write` after the room check. With a full table the cell is programmed all the same. */
  function WriteCell(c: Config, st: State, key: Key, data: Data): (r: (State, int))
    requires Ring(c, st) && st.pos[st.cur] < c.slots
    ensures Ring(c, r.0) && r.0.pc == st.pc && r.0.cur == st.cur && r.0.pos[st.cur] <= st.pos[st.cur] + 1
  {
    hide Dims, ClearNewer, Retire, Enter, Find;
    var i := Find(st.fd, key);
    var cell := NewCell(c.crc, key, data);
    var cleared := ClearNewer(c, st, i);
    var programmed := Program(c, cleared, Addr(st.cur, st.pos[st.cur]), cell);
    var retired := Retire(c, programmed, i);
    if i < c.fdMax then (Enter(c, retired, i, cell.hdr), 0) else (retired, -1)
  }

  function FsWrite(c: Config, st: State, name: bv16, ext: bv8, data: seq<bv8>, env: Env): (r: (State, int))
    requires Ring(c, st)
    ensures Ring(c, r.0)
    ensures Moving(st.pc) ==> Moving(r.0.pc) || r.0.pc == Yield617
    ensures st.pos[st.cur] < c.slots ==> r.0.cur == st.cur && r.0.pos[st.cur] <= st.pos[st.cur] + 1
    decreases Rollover(c, st), 1
  {
    if |data| > DATA_SIZE then (st, -1)
    else
      var (ready, code) := UpdateSector(c, st, env);
      if code < 0 then (ready, -2)
      else WriteCell(c, ready, Key(name, TruncateExt(ext)), Pad(data))
  }

  // ---------------------------------------------------------------- fs_thread

  function BlankCount(c: Config, pos: seq<nat>, cur: nat, n: nat): (r: nat)
    requires |pos| == c.sectors && n <= c.sectors
    ensures r <= n
  {
    if n == 0 then 0
    else BlankCount(c, pos, cur, n - 1) + if n - 1 != cur && pos[n - 1] == 0 then 1 else 0
  }

  predicate Candidate(c: Config, pos: seq<nat>, cur: nat, s: nat)
    requires |pos| == c.sectors
  {
    s < c.sectors && s != cur && pos[s] != 0 && pos[s] >= c.slots
  }

  /** How many descriptors point into sector `s`. */
  function CountIn(fd: seq<Fd>, s: nat): (r: nat)
    ensures r <= |fd|
  {
    if fd == [] then 0
    else CountIn(fd[..|fd| - 1], s) + if fd[|fd| - 1].sector == s then 1 else 0
  }

  /** The running minimum after looking at `n` sectors in circular order from `cur`. */
  function Best(c: Config, fd: seq<Fd>, pos: seq<nat>, cur: nat, n: nat): (r: (nat, nat))
    requires |pos| == c.sectors && 0 < c.sectors && n <= c.sectors
    ensures r.1 < c.sectors
  {
    if n == 0 then (c.slots, 0)
    else
      var best := Best(c, fd, pos, cur, n - 1);
      var s := (cur + (n - 1)) % c.sectors;
      if Candidate(c, pos, cur, s) && CountIn(fd, s) < best.0 then (CountIn(fd, s), s) else best
  }

  function FindRelocSector(c: Config, fd: seq<Fd>, pos: seq<nat>, cur: nat): (r: Option<nat>)
    requires |pos| == c.sectors && 0 < c.sectors
    ensures r.Some? ==> r.value < c.sectors
  {
    if BlankCount(c, pos, cur, c.sectors) >= c.minBlank then None
    else Some(Best(c, fd, pos, cur, c.sectors).1)
  }

  /** First descriptor at or after `i` that points into sector `s`. */
  function NextIn(fd: seq<Fd>, s: nat, i: nat): (r: nat)
    requires i <= |fd|
    ensures i <= r <= |fd|
    ensures forall j :: i <= j < r ==> fd[j].sector != s
    ensures r < |fd| ==> fd[r].sector == s
    decreases |fd| - i
  {
    if i == |fd| then i
    else if fd[i].sector == s then i
    else NextIn(fd, s, i + 1)
  }

  function EraseVictim(c: Config, st: State): (r: State)
    requires Ring(c, st)
    ensures Ring(c, r) && r.cur == st.cur && r.pos[r.cur] <= st.pos[r.cur]
  {
    var v := st.reloc.sector;
    var erased := Erase(c, st, v);
    erased.(pos := erased.pos[v := 0], pc := Wait555)
  }

  function Fetch(c: Config, st: State): (r: State)
    requires Ring(c, st) && st.reloc.fdIndex < |st.fd|
    ensures Ring(c, r) && r.cur == st.cur && r.pos[r.cur] <= st.pos[r.cur]
  {
    st.(reloc := st.reloc.(buffer := st.flash[st.reloc.fd.address]), pc := Yield596)
  }

  /** The `for` loop of `fs_thread` from index `i` up to its next yield, or the erase after it. */
  function RelocLoop(c: Config, st: State, i: nat, env: Env): (r: State)
    requires Ring(c, st) && i <= |st.fd|
    ensures Ring(c, r) && r.cur == st.cur && r.pos[r.cur] <= st.pos[r.cur]
  {
    var next := NextIn(st.fd, st.reloc.sector, i);
    if next < |st.fd| then
      var st1 := st.(reloc := st.reloc.(fdIndex := next, fd := st.fd[next]), pc := Wait576);
      if env.ready then Fetch(c, st1) else st1
    else
      var st1 := st.(reloc := st.reloc.(fdIndex := next), pc := Wait622);
      if env.ready then EraseVictim(c, st1) else st1
  }

  /** One turn of the `while (fs_write(...) < 0)` loop. */
  function Move(c: Config, st: State, env: Env): (r: State)
    requires Ring(c, st) && Moving(st.pc)
    ensures Ring(c, r) && (r.pc == Yield610 || r.pc == Yield617)
    ensures st.pos[st.cur] < c.slots ==> r.cur == st.cur && r.pos[st.cur] <= st.pos[st.cur] + 1
    decreases Rollover(c, st), 2
  {
    var h := st.reloc.fd.header;
    var (moved, code) := FsWrite(c, st, h.name, h.ext as bv8, st.reloc.buffer.data, env);
    moved.(pc := if code < 0 then Yield610 else Yield617)
  }

  function FsThread(c: Config, st: State, flag: bool, env: Env): (r: State)
    requires Ring(c, st)
    ensures Ring(c, r)
    ensures Moving(st.pc) ==> r.pc == Yield610 || r.pc == Yield617
    ensures st.pos[st.cur] < c.slots ==> r.cur == st.cur && r.pos[st.cur] <= st.pos[st.cur] + 1
    decreases Rollover(c, st), 3
  {
    match st.pc
    case Wait555 => if flag || env.expired then st.(pc := Yield556) else st
    case Yield556 =>
      (match FindRelocSector(c, st.fd, st.pos, st.cur)
       case None => st.(pc := Wait555)
       case Some(v) => RelocLoop(c, st.(reloc := st.reloc.(sector := v)), 0, env))
    case Wait576 => if env.ready then Fetch(c, st) else st
    case Yield596 =>
      if st.fd[st.reloc.fdIndex].address == st.reloc.fd.address then Move(c, st, env) else st.(pc := Yield617)
    case Yield610 => Move(c, st, env)
    case Yield617 => RelocLoop(c, st, st.reloc.fdIndex + 1, env)
    case Wait622 => if env.ready then EraseVictim(c, st) else st
  }

  // ---------------------------------------------------------------- fs_init

  /** Two valid cells of one key: the `newer` one stays, otherwise the first found. */
  function Resolve(c: Config, st: State, i: nat, a: Addr, cell: Cell): (r: State)
    requires Shape(c, st) && i < |st.fd| && InRange(c, a)
    ensures Shape(c, r)
  {
    if st.fd[i].header.newer == CURRENT && cell.hdr.newer == NEWER then
      WriteHeader(c, st, st.fd[i].address, st.fd[i].header.(size := SIZE_INVALID))
        .(fd := st.fd[i := Fd(a, cell.hdr, a.sector)])
    else
      WriteHeader(c, st, a, cell.hdr.(size := SIZE_INVALID))
  }

  function InitFileDescriptors(c: Config, st: State, s: nat, k: nat): (r: (State, int))
    requires Shape(c, st) && s < c.sectors && k <= c.slots
    ensures Shape(c, r.0)
    decreases c.slots - k
  {
    if k == c.slots then (st.(pos := st.pos[s := k]), 2)
    else
      var here := st.(pos := st.pos[s := k]);
      var a := Addr(s, k);
      var cell := st.flash[a];
      var check := CheckCell(c.crc, cell);
      if check == BLOCK_OK then
        var i := Find(st.fd, KeyOf(cell.hdr));
        if i < |st.fd| then InitFileDescriptors(c, Resolve(c, here, i, a, cell), s, k + 1)
        else if |st.fd| < c.fdMax then
          InitFileDescriptors(c, here.(fd := st.fd + [Fd(a, cell.hdr, s)]), s, k + 1)
        else (here, -1)
      else if check == BLOCK_IS_BLANK then (here, if k == 0 then 0 else 1)
      else InitFileDescriptors(c, here, s, k + 1)
  }

  /** The loop of `fs_init` from sector `s` on; `found` says that a written sector has been seen. */
  function InitFrom(c: Config, st: State, s: nat, blank: nat, found: bool): (r: State)
    requires Shape(c, st) && s <= c.sectors && blank < c.sectors
    ensures Shape(c, r)
    decreases c.sectors - s
  {
    if s == c.sectors then st.(cur := if found then st.cur else blank, pc := Wait555)
    else
      var (st1, code) := InitFileDescriptors(c, st, s, 0);
      InitFrom(c, if code == 1 then st1.(cur := s) else st1, s + 1,
               if code == 0 then s else blank, found || code == 1)
  }

  /** `fs_init` does not touch `fd_index`: it scans on top of whatever RAM holds. */
  function FsInit(c: Config, st: State): (r: State)
    requires Shape(c, st)
    ensures Shape(c, r)
  {
    InitFrom(c, st, 0, 0, false)
  }

  const ZERO_HEADER := Header(0, 0, 0, 0, 0, 0)

  /** RAM as the C start-up code leaves it. */
  function ZeroRam(c: Config, im: Image): (r: State)
    requires ValidConfig(c) && Dims(c, im)
    ensures Shape(c, r)
  {
    State(im, [], seq(c.sectors, i => 0), 0,
          Reloc(Cell(ZERO_HEADER, Repeat(0, DATA_SIZE)), Fd(Addr(0, 0), ZERO_HEADER, 0), 0, 0), Wait555, [])
  }

  /** A power cycle. */
  function Boot(c: Config, im: Image): (r: State)
    requires ValidConfig(c) && Dims(c, im)
    ensures Shape(c, r)
  {
    FsInit(c, ZeroRam(c, im))
  }
}
