/** The four flash writes of `fs_write` (wormvars.c:361-430), one lemma each. */
module Writing {
  import opened Block
  import opened Store
  import opened Images
  import opened Invariant

  /** The images added to the log all store `m`. */
  ghost predicate Logged(c: Config, before: seq<Image>, after: seq<Image>, m: map<Key, Data>) {
    before <= after && forall i :: |before| <= i < |after| ==> Holds(c, after[i], m)
  }

  /** The images added before position `n` store `m`, those from `n` on store `m'`. */
  ghost predicate Commits(c: Config, before: seq<Image>, n: nat, after: seq<Image>,
      m: map<Key, Data>, m': map<Key, Data>) {
    && before <= after && |before| <= n <= |after|
    && (forall i :: |before| <= i < n ==> Holds(c, after[i], m))
    && (forall i :: n <= i < |after| ==> Holds(c, after[i], m'))
  }

  /** `i` is where the search for `key` ends, and there is room for its descriptor. */
  ghost predicate Fits(c: Config, st: State, key: Key) {
    Find(st.fd, key) < |st.fd| || |st.fd| < c.fdMax
  }

  /** Whether `fs_write` starts with the flash write of line 369. */
  predicate NeedsClear(st: State, key: Key) {
    var i := Find(st.fd, key);
    i < |st.fd| && st.fd[i].header.newer == NEWER
  }

  lemma EntryIsValid(c: Config, st: State, i: nat)
    requires Indexed(c, st) && i < |st.fd|
    ensures ValidAt(c, st.flash, st.fd[i].address)
    ensures KeyAt(st.flash, st.fd[i].address) == KeyOf(st.fd[i].header)
    ensures Find(st.fd, KeyOf(st.fd[i].header)) == i
    ensures KeyOf(st.fd[i].header) in Where(st.fd) && Where(st.fd)[KeyOf(st.fd[i].header)] == st.fd[i].address
  {
    hide Good, Find, Layout, Dims;
    WhereKeys(st.fd);
    assert Find(st.fd, KeyOf(st.fd[i].header)) == i;
    hide Where;
  }

  lemma ValidIsEntry(c: Config, st: State, a: Addr)
    requires Indexed(c, st) && ValidAt(c, st.flash, a)
    ensures Find(st.fd, KeyAt(st.flash, a)) < |st.fd|
    ensures st.fd[Find(st.fd, KeyAt(st.flash, a))].address == a
  {
    hide Good, Find, Layout, Dims;
    WhereKeys(st.fd);
    hide Where;
  }

  /** Distinct entries point to distinct cells. */
  lemma AddressesDistinct(c: Config, st: State, i: nat, j: nat)
    requires Indexed(c, st) && i < j < |st.fd|
    ensures st.fd[i].address != st.fd[j].address
  {
    hide Good, Find, Layout, Dims, LiveAt, Where;
    assert Find(st.fd, KeyOf(st.fd[i].header)) == i;
    assert Find(st.fd, KeyOf(st.fd[j].header)) == j;
  }

  lemma ClearIndex(c: Config, st: State, i: nat, e: Fd, fd': seq<Fd>)
    requires Indexed(c, st) && i < |st.fd| && fd' == st.fd[i := e]
    requires e == st.fd[i].(header := st.fd[i].header.(newer := CURRENT))
    ensures Distinct(fd') && Where(fd') == Where(st.fd) && forall k :: Find(fd', k) == Find(st.fd, k)
  {
    hide Find, Keys, Where, Distinct, Reads, Good, Entries, Shape;
    EntryIsValid(c, st, i);
    SetEntry(st.fd, i, e, fd');
    assert Where(st.fd)[KeyOf(e.header) := e.address] == Where(st.fd);
  }

  lemma ClearEntries(c: Config, st: State, i: nat, e: Fd, fd': seq<Fd>, im': Image)
    requires Indexed(c, st) && i < |st.fd| && fd' == st.fd[i := e]
    requires e == st.fd[i].(header := st.fd[i].header.(newer := CURRENT))
    requires st.fd[i].address in st.flash
    requires im' == st.flash[st.fd[i].address := st.flash[st.fd[i].address].(hdr := e.header)]
    ensures Entries(im', fd')
  {
    hide Find, Where, Distinct, Reads;
    forall j | 0 <= j < |fd'|
      ensures fd'[j].address in im' && im'[fd'[j].address].hdr == fd'[j].header
          && fd'[j].sector == fd'[j].address.sector
    {
      if j < i { AddressesDistinct(c, st, j, i); }
      if i < j { AddressesDistinct(c, st, i, j); }
    }
  }

  lemma ClearStep(c: Config, st: State, key: Key, st': State)
    requires Indexed(c, st) && st' == ClearNewer(c, st, Find(st.fd, key))
    ensures Indexed(c, st') && Vars(c, st') == Vars(c, st) && Where(st'.fd) == Where(st.fd)
    ensures Find(st'.fd, key) == Find(st.fd, key)
    ensures !NeedsClear(st', key)
    ensures if NeedsClear(st, key) then st'.log == st.log + [st'.flash] else st' == st
    ensures forall j :: 0 <= j < |st.fd| && j != Find(st.fd, key) ==> st'.fd[j] == st.fd[j]
    ensures forall a :: a in st.flash ==> a in st'.flash && st'.flash[a].data == st.flash[a].data
  {
    hide Good, Find, Reads, Where, Distinct, Entries;
    var i := Find(st.fd, key);
    if NeedsClear(st, key) {
      var e := st.fd[i].(header := st.fd[i].header.(newer := CURRENT));
      EntryIsValid(c, st, i);
      assert st.flash[st.fd[i].address].hdr == st.fd[i].header by {
        EntryHeader(c, st, i);
      }
      ClearingBits(st.fd[i].header);
      ClearIndex(c, st, i, e, st'.fd);
      ClearEntries(c, st, i, e, st'.fd, st'.flash);
      TableFits(c, st.fd);
      ClearNewerKeeps(c, st.flash, ReadingOf(st), st.fd[i].address, st'.flash);
    }
  }

  lemma EntryHeader(c: Config, st: State, i: nat)
    requires Indexed(c, st) && i < |st.fd|
    ensures st.fd[i].address in st.flash && st.flash[st.fd[i].address].hdr == st.fd[i].header
    ensures st.fd[i].sector == st.fd[i].address.sector
  {
    hide Find, Reads, Where, Distinct;
  }

  lemma NewCellFacts(c: Config, key: Key, data: Data)
    ensures var cell := NewCell(c.crc, key, data);
            Good(c.crc, cell) && cell.hdr.newer == NEWER && KeyOf(cell.hdr) == key && cell.data == data
  {
    HeaderProtocol(c.crc, Cell(Header(0, 0, 0, key.ext, 0, key.name), data), NEWER);
    hide Good, HashOf;
  }

  /** The slot that `fs_write` is about to program. */
  function Target(st: State): Addr
    requires st.cur < |st.pos|
  {
    Addr(st.cur, st.pos[st.cur])
  }

  lemma TargetInFlash(c: Config, st: State)
    requires Shape(c, st) && st.pos[st.cur] < c.slots
    ensures Target(st) in st.flash
  {
    assert InRange(c, Target(st));
  }

  lemma ProgramStep(c: Config, st: State, key: Key, cell: Cell, im: Image)
    requires Indexed(c, st) && st.pos[st.cur] < c.slots && Fits(c, st, key) && !NeedsClear(st, key)
    requires Good(c.crc, cell) && cell.hdr.newer == NEWER && KeyOf(cell.hdr) == key
    requires Target(st) in st.flash && im == st.flash[Target(st) := AndCell(st.flash[Target(st)], cell)]
    ensures st.flash[Target(st)] == BLANK_CELL && im == st.flash[Target(st) := cell]
    ensures ReadsAs(c, im, Programmed(ReadingOf(st), key), Vars(c, st)[key := cell.data])
  {
    hide Good, Find, Where, Layout, LiveAt, Dims, AndCell, Keys, Entries;
    var w := ReadingOf(st);
    assert st.flash[Target(st)] == BLANK_CELL by {
      TargetIsBlank(c, st.flash, w);
    }
    BlankAbsorbs(cell);
    WhereKeys(st.fd);
    if key in w.at {
      EntryHeader(c, st, Find(st.fd, key));
    }
    ProgramCommits(c, st.flash, w, cell, im);
  }

  lemma TargetIsBlank(c: Config, im: Image, w: Reading)
    requires Reads(c, im, w) && w.pos[w.cur] < c.slots
    ensures Addr(w.cur, w.pos[w.cur]) in im && im[Addr(w.cur, w.pos[w.cur])] == BLANK_CELL
    ensures !ValidAt(c, im, Addr(w.cur, w.pos[w.cur]))
  {
    hide Good, LiveAt;
    GoodIsProgrammed(c.crc, BLANK_CELL);
    assert InRange(c, Addr(w.cur, w.pos[w.cur]));
  }

  lemma RetireStep(c: Config, st: State, key: Key, cell: Cell, m: map<Key, Data>, im: Image, im': Image)
    requires Indexed(c, st) && st.pos[st.cur] < c.slots && Find(st.fd, key) < |st.fd|
    requires Target(st) in st.flash && im == st.flash[Target(st) := cell]
    requires ReadsAs(c, im, Programmed(ReadingOf(st), key), m)
    requires var e := st.fd[Find(st.fd, key)];
             e.address in im
             && im' == im[e.address := im[e.address].(hdr := AndFlags(im[e.address].hdr,
                e.header.(size := SIZE_INVALID)))]
    ensures st.fd[Find(st.fd, key)].address != Target(st)
    ensures ReadsAs(c, im', Programmed(ReadingOf(st), key).(stale := None), m)
  {
    hide Good, Find, Where, Layout, LiveAt, Dims, AndFlags, Keys, Entries, Distinct;
    var i := Find(st.fd, key);
    EntryIsValid(c, st, i);
    EntryHeader(c, st, i);
    TargetIsBlank(c, st.flash, ReadingOf(st));
    ClearingBits(st.fd[i].header);
    RetireKeeps(c, im, Programmed(ReadingOf(st), key), st.fd[i].address, im');
  }

  lemma EnterStep(c: Config, w: Reading, a: Addr, cell: Cell, m: map<Key, Data>, im: Image, im': Image)
    requires ReadsAs(c, im, w, m) && w.stale == None && a in im && im[a] == cell && Good(c.crc, cell)
    requires im' == im[a := im[a].(hdr := AndFlags(im[a].hdr, cell.hdr.(newer := CURRENT)))]
    ensures ReadsAs(c, im', w, m) && im'[a] == cell.(hdr := cell.hdr.(newer := CURRENT))
  {
    hide Good, Layout, LiveAt, Dims, AndFlags;
    ClearingBits(cell.hdr);
    ClearNewerKeeps(c, im, w, a, im');
  }

  /** The index after a write: one entry replaced or appended. */
  lemma EnterIndex(c: Config, st: State, key: Key, e: Fd, fd': seq<Fd>)
    requires Indexed(c, st) && KeyOf(e.header) == key
    requires var i := Find(st.fd, key); fd' == if i < |st.fd| then st.fd[i := e] else st.fd + [e]
    ensures Distinct(fd') && Where(fd') == Where(st.fd)[key := e.address]
    ensures Find(fd', key) == Find(st.fd, key) < |fd'| && fd'[Find(fd', key)] == e
  {
    hide Find, Keys, Where, Distinct, Reads, Entries, Shape;
    var i := Find(st.fd, key);
    if i < |st.fd| {
      SetEntry(st.fd, i, e, fd');
    } else {
      AddEntry(st.fd, e, fd');
    }
  }

  /** Apart from the cell being written and the old cell of its variable, `im` is the image of `st`. */
  ghost predicate RestKept(st: State, key: Key, im: Image)
    requires st.cur < |st.pos|
  {
    forall a :: a in st.flash && a != Target(st) && !HoldsOld(st, key, a) ==> a in im && im[a] == st.flash[a]
  }

  predicate HoldsOld(st: State, key: Key, a: Addr) {
    Find(st.fd, key) < |st.fd| && st.fd[Find(st.fd, key)].address == a
  }

  lemma EnterEntries(c: Config, st: State, key: Key, e: Fd, fd': seq<Fd>, im': Image)
    requires Indexed(c, st) && st.pos[st.cur] < c.slots
    requires var i := Find(st.fd, key); fd' == if i < |st.fd| then st.fd[i := e] else st.fd + [e]
    requires e.address == Target(st) && e.sector == st.cur && Target(st) in im' && im'[Target(st)].hdr == e.header
    requires RestKept(st, key, im')
    ensures Entries(im', fd')
  {
    hide Find, Keys, Where, Distinct, Reads, Shape, Good;
    var i := Find(st.fd, key);
    TargetIsBlank(c, st.flash, ReadingOf(st));
    forall j | 0 <= j < |fd'|
      ensures fd'[j].address in im' && im'[fd'[j].address].hdr == fd'[j].header
          && fd'[j].sector == fd'[j].address.sector
    {
      if j < |st.fd| && j != i {
        EntryIsValid(c, st, j);
        if i < j { AddressesDistinct(c, st, i, j); }
        if j < i < |st.fd| { AddressesDistinct(c, st, j, i); }
      }
    }
  }

  /** What a successful `fs_write` leaves alone: other descriptors, the data of
      every other cell, and the collector's variables. */
  ghost predicate WriteFrame(c: Config, st: State, key: Key, st': State)
    requires Shape(c, st) && Shape(c, st')
  {
    var i := Find(st.fd, key);
    && st'.cur == st.cur && st'.reloc == st.reloc
    && st'.pos == st.pos[st.cur := st.pos[st.cur] + 1]
    && |st'.fd| == (if i < |st.fd| then |st.fd| else |st.fd| + 1)
    && (forall j :: 0 <= j < |st.fd| && j != i ==> st'.fd[j] == st.fd[j])
    && st'.fd[i].address == Target(st) && st'.fd[i].sector == st.cur && KeyOf(st'.fd[i].header) == key
    && (forall a :: a in st.flash && a != Target(st) ==> a in st'.flash && st'.flash[a].data == st.flash[a].data)
  }

  lemma HoldsOf(c: Config, im: Image, w: Reading, m: map<Key, Data>)
    requires ReadsAs(c, im, w, m)
    ensures Holds(c, im, m)
  {
  }

  lemma RetireOrNot(c: Config, st: State, key: Key, cell: Cell, m: map<Key, Data>, s2: State, s3: State)
    requires st.cur < |st.pos| && Indexed(c, st) && st.pos[st.cur] < c.slots
    requires Target(st) in st.flash && Shape(c, s2) && s2.fd == st.fd && s2.flash == st.flash[Target(st) := cell]
    requires ReadsAs(c, s2.flash, Programmed(ReadingOf(st), key), m) && Holds(c, s2.flash, m)
    requires s3 == Retire(c, s2, Find(st.fd, key))
    ensures ReadsAs(c, s3.flash, Programmed(ReadingOf(st), key).(stale := None), m) && Holds(c, s3.flash, m)
    ensures Find(st.fd, key) < |st.fd| ==> st.fd[Find(st.fd, key)].address != Target(st)
    ensures RestKept(st, key, s3.flash) && Target(st) in s3.flash && s3.flash[Target(st)] == cell
    ensures forall a :: a in s2.flash ==> a in s3.flash && s3.flash[a].data == s2.flash[a].data
    ensures s3.log == if Find(st.fd, key) < |st.fd| then s2.log + [s3.flash] else s2.log
    ensures forall j :: 0 <= j < |st.fd| && j != Find(st.fd, key) ==> s3.fd[j] == st.fd[j]
  {
    hide Good, Find, Where, Reads, ReadsAs, Holds, Dims, AndFlags, Keys, Indexed;
    var i := Find(st.fd, key);
    if i < |st.fd| {
      EntryHeader(c, st, i);
      RetireStep(c, st, key, cell, m, s2.flash, s3.flash);
      HoldsOf(c, s3.flash, Programmed(ReadingOf(st), key).(stale := None), m);
    } else {
      WhereKeys(st.fd);
    }
  }

  lemma EnterFinishes(c: Config, st: State, key: Key, cell: Cell, m: map<Key, Data>, s3: State, s4: State)
    requires st.cur < |st.pos| && Indexed(c, st) && st.pos[st.cur] < c.slots && Fits(c, st, key)
    requires Good(c.crc, cell) && KeyOf(cell.hdr) == key
    requires Shape(c, s3) && |s3.fd| == |st.fd| && s3.cur == st.cur && s3.pos == st.pos
    requires forall j :: 0 <= j < |st.fd| && j != Find(st.fd, key) ==> s3.fd[j] == st.fd[j]
    requires RestKept(st, key, s3.flash)
    requires Target(st) in s3.flash && s3.flash[Target(st)] == cell
    requires ReadsAs(c, s3.flash, Programmed(ReadingOf(st), key).(stale := None), m)
    requires s4 == Enter(c, s3, Find(st.fd, key), cell.hdr)
    ensures Indexed(c, s4) && Vars(c, s4) == m && Holds(c, s4.flash, m) && s4.log == s3.log + [s4.flash]
    ensures ReadingOf(s4) == Programmed(ReadingOf(st), key).(stale := None)
    ensures Find(st.fd, key) < |s4.fd|
    ensures s4.fd[Find(st.fd, key)] == Fd(Target(st), cell.hdr.(newer := CURRENT), st.cur)
    ensures forall j :: 0 <= j < |st.fd| && j != Find(st.fd, key) ==> s4.fd[j] == st.fd[j]
    ensures |s4.fd| == if Find(st.fd, key) < |st.fd| then |st.fd| else |st.fd| + 1
    ensures forall a :: a in s3.flash ==> a in s4.flash && s4.flash[a].data == s3.flash[a].data
  {
    hide Good, Find, Where, Reads, Holds, AndFlags, Keys, Distinct, Entries, Contents;
    var i := Find(st.fd, key);
    var a := Target(st);
    var e := Fd(a, cell.hdr.(newer := CURRENT), st.cur);
    var w := Programmed(ReadingOf(st), key).(stale := None);
    EnterStep(c, w, a, cell, m, s3.flash, s4.flash);
    assert s4.fd == if i < |st.fd| then st.fd[i := e] else st.fd + [e];
    EnterIndex(c, st, key, e, s4.fd);
    EnterEntries(c, st, key, e, s4.fd, s4.flash);
    assert ReadingOf(s4) == w;
    HoldsOf(c, s4.flash, w, m);
  }

  lemma IndexedIsRing(c: Config, st: State)
    requires Indexed(c, st)
    ensures Ring(c, st)
  {
    hide Good, Find, Where, LiveAt, Dims, Keys, Distinct, Entries;
  }

  lemma TailLog(c: Config, log: seq<Image>, l2: seq<Image>, l3: seq<Image>, l4: seq<Image>, m: map<Key, Data>,
      m': map<Key, Data>)
    requires |l2| == |log| + 1 && log <= l2 <= l3 <= l4 && |l3| <= |l2| + 1 && |l4| == |l3| + 1
    requires Holds(c, l2[|l2| - 1], m') && Holds(c, l3[|l3| - 1], m') && Holds(c, l4[|l4| - 1], m')
    ensures Commits(c, log, |log|, l4, m, m')
  {
    hide Holds;
  }

  /** Everything from the flash write of line 385 on already holds the new map. */
  lemma TailCommits(c: Config, st: State, key: Key, cell: Cell, s2: State, s3: State, s4: State)
    requires st.cur < |st.pos| && Indexed(c, st) && st.pos[st.cur] < c.slots && Fits(c, st, key) && !NeedsClear(st, key)
    requires Good(c.crc, cell) && cell.hdr.newer == NEWER && KeyOf(cell.hdr) == key
    requires Target(st) in st.flash
    requires s2 == Program(c, st, Target(st), cell)
    requires Shape(c, s2) && s3 == Retire(c, s2, Find(st.fd, key))
    requires Find(st.fd, key) < c.fdMax && s3.pos[s3.cur] < c.slots && s4 == Enter(c, s3, Find(st.fd, key), cell.hdr)
    ensures Indexed(c, s4) && Vars(c, s4) == Vars(c, st)[key := cell.data]
    ensures Commits(c, st.log, |st.log|, s4.log, Vars(c, st), Vars(c, s4)) && |s4.log| > |st.log|
    ensures WriteFrame(c, st, key, s4)
  {
    hide Good, Find, Where, Reads, ReadsAs, Holds, Keys, Distinct, Entries, Contents, AndCell, AndFlags, Dims, Commits,
      RestKept;
    var m := Vars(c, st)[key := cell.data];
    ProgramStep(c, st, key, cell, s2.flash);
    HoldsOf(c, s2.flash, Programmed(ReadingOf(st), key), m);
    RetireOrNot(c, st, key, cell, m, s2, s3);
    EnterFinishes(c, st, key, cell, m, s3, s4);
    TailLog(c, st.log, s2.log, s3.log, s4.log, Vars(c, st), m);
  }

  /** The states between the four flash writes of a write that finds a descriptor. */
  lemma WriteSteps(c: Config, st: State, key: Key, data: Data) returns (s1: State, s2: State, s3: State, s4: State)
    requires Ring(c, st) && st.pos[st.cur] < c.slots && Find(st.fd, key) < c.fdMax
    ensures s1 == ClearNewer(c, st, Find(st.fd, key)) && Target(st) in s1.flash
    ensures s2 == Program(c, s1, Target(st), NewCell(c.crc, key, data))
    ensures Shape(c, s2) && |s2.fd| == |st.fd| && s3 == Retire(c, s2, Find(st.fd, key))
    ensures s3.pos == st.pos && s3.cur == st.cur && |s3.fd| == |st.fd|
    ensures s4 == Enter(c, s3, Find(st.fd, key), NewCell(c.crc, key, data).hdr)
    ensures WriteCell(c, st, key, data) == (s4, 0)
    ensures s1 == st.(fd := s1.fd, flash := s1.flash, log := s1.log)
  {
    hide Find, NewCell, ClearNewer, Retire, Enter;
    var i := Find(st.fd, key);
    var cell := NewCell(c.crc, key, data);
    s1 := ClearNewer(c, st, i);
    assert InRange(c, Target(st));
    s2 := Program(c, s1, Target(st), cell);
    s3 := Retire(c, s2, i);
    s4 := Enter(c, s3, i, cell.hdr);
  }

  /** `fs_write` past the room check: the map gains exactly the written variable,
      and the flash images switch from the old to the new map at one flash write. */
  lemma WriteCellCommits(c: Config, st: State, key: Key, data: Data)
    requires Ring(c, st) && Indexed(c, st) && st.pos[st.cur] < c.slots && Fits(c, st, key)
    ensures var (st', code) := WriteCell(c, st, key, data);
            && code == 0 && Indexed(c, st')
            && Vars(c, st') == Vars(c, st)[key := data]
            && Commits(c, st.log, |st.log| + (if NeedsClear(st, key) then 1 else 0), st'.log, Vars(c, st), Vars(c, st'))
            && |st'.log| > |st.log| + (if NeedsClear(st, key) then 1 else 0)
            && WriteFrame(c, st, key, st')
  {
    hide Find, NewCell, ClearNewer, Retire, Enter, Program, WriteCell, Good, Where, Reads, Holds, Keys, Distinct,
      Entries, Contents, Dims;
    NewCellFacts(c, key, data);
    var s1, s2, s3, s4 := WriteSteps(c, st, key, data);
    ClearStep(c, st, key, s1);
    TableFits(c, s1.fd);
    HoldsOf(c, s1.flash, ReadingOf(s1), Vars(c, st));
    TailCommits(c, s1, key, NewCell(c.crc, key, data), s2, s3, s4);
  }

  /** `s1` to `s4` are the states after the four flash writes of `fs_write` from `st`,
      and each of them stores exactly what the code meant to store: the cell on an
      erased slot, then one header field of the previous or the new cell. */
  ghost predicate Overwrites(c: Config, st: State, key: Key, data: Data, s1: State, s2: State, s3: State, s4: State)
    requires Shape(c, st)
  {
    var t, i, cell := Target(st), Find(st.fd, key), NewCell(c.crc, key, data);
    && t.slot < c.slots && |s1.fd| == |s2.fd| == |s3.fd| == |st.fd| && i < |s4.fd|
    && t in s1.flash && s1.flash[t] == BLANK_CELL
    && s2.flash == s1.flash[t := cell]
    && t in s3.flash && s4.flash == s3.flash[t := cell.(hdr := s4.fd[i].header)]
    && s4.fd[i].header == cell.hdr.(newer := CURRENT)
    && if i < |st.fd| then
         var b := st.fd[i].address;
         && b in st.flash && b in s2.flash
         && s1.fd[i].header == st.fd[i].header.(newer := CURRENT)
         && s3.fd[i].header == s1.fd[i].header.(size := SIZE_INVALID)
         && s1.flash == st.flash[b := st.flash[b].(hdr := s1.fd[i].header)]
         && s3.flash == s2.flash[b := s2.flash[b].(hdr := s3.fd[i].header)]
       else s1.flash == st.flash && s3.flash == s2.flash
  }

  /** The log entries of those writes: the first is made only for a previous cell that
      is still `newer`, the third only if there is a previous cell. */
  ghost predicate LogsWrites(st: State, key: Key, s1: State, s2: State, s3: State, s4: State) {
    && (if NeedsClear(st, key) then s1.log == st.log + [s1.flash] else s1.log == st.log && s1.flash == st.flash)
    && s2.log == s1.log + [s2.flash]
    && s3.log == (if Find(st.fd, key) < |st.fd| then s2.log + [s3.flash] else s2.log)
    && s4.log == s3.log + [s4.flash]
  }

  lemma StepsLog(c: Config, st: State, key: Key, cell: Cell, s1: State, s2: State, s3: State, s4: State)
    requires Shape(c, st) && st.pos[st.cur] < c.slots && s1 == ClearNewer(c, st, Find(st.fd, key))
    requires Target(st) in s1.flash && s2 == Program(c, s1, Target(st), cell)
    requires Shape(c, s2) && |s2.fd| == |st.fd| && s3 == Retire(c, s2, Find(st.fd, key))
    requires Shape(c, s3) && |s3.fd| == |st.fd| && Find(st.fd, key) < c.fdMax && s3.pos[s3.cur] < c.slots
    requires s4 == Enter(c, s3, Find(st.fd, key), cell.hdr)
    ensures LogsWrites(st, key, s1, s2, s3, s4)
  {
    hide Find, Dims, AndHeader, AndFlags, AndCell;
  }

  /** Bit clearing loses nothing: at all four flash writes of `fs_write` the AND of
      the device gives exactly the bytes that the code meant to store, because the
      cell lands on an erased slot and each header rewrite only turns ones to zeros. */
  lemma AndIsOverwrite(c: Config, st: State, key: Key, data: Data) returns (s1: State, s2: State, s3: State, s4: State)
    requires Ring(c, st) && Indexed(c, st) && st.pos[st.cur] < c.slots && Fits(c, st, key)
    ensures WriteCell(c, st, key, data) == (s4, 0) && Overwrites(c, st, key, data, s1, s2, s3, s4)
    ensures LogsWrites(st, key, s1, s2, s3, s4)
  {
    hide Find, NewCell, Program, WriteCell, Good, Where, Reads, Distinct, Entries, Contents, Dims, AndHeader,
      AndFlags, AndCell;
    NewCellFacts(c, key, data);
    s1, s2, s3, s4 := WriteSteps(c, st, key, data);
    StepsLog(c, st, key, NewCell(c.crc, key, data), s1, s2, s3, s4);
    hide LogsWrites;
    ClearStep(c, st, key, s1);
    ProgrammedOver(c, s1, key, data, s2);
    var i := Find(st.fd, key);
    ClearingBits(NewCell(c.crc, key, data).hdr);
    if i < |st.fd| {
      EntryHeader(c, st, i);
      ClearingBits(st.fd[i].header);
      EntryHeader(c, s1, i);
      ClearingBits(s1.fd[i].header);
      EntryIsValid(c, s1, i);
      TargetIsBlank(c, s1.flash, ReadingOf(s1));
    }
  }

  lemma ProgrammedOver(c: Config, st: State, key: Key, data: Data, st': State)
    requires Indexed(c, st) && st.pos[st.cur] < c.slots && Target(st) in st.flash
    requires st' == Program(c, st, Target(st), NewCell(c.crc, key, data))
    ensures st.flash[Target(st)] == BLANK_CELL && st'.flash == st.flash[Target(st) := NewCell(c.crc, key, data)]
    ensures st' == st.(flash := st'.flash, log := st'.log)
  {
    hide Find, NewCell, Good, Where, Reads, Distinct, Entries, Dims, AndCell;
    TargetIsBlank(c, st.flash, ReadingOf(st));
    BlankAbsorbs(NewCell(c.crc, key, data));
  }
}
