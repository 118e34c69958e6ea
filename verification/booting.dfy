/** Recovery: `fs_init` and `initFileDescriptors` (wormvars.c:199-294, 460-493),
    run on zeroed RAM over any image that a cut can leave. */
module Booting {
  import opened Block
  import opened Store
  import opened Images
  import opened Invariant
  import opened Writing
  import opened Collector

  /** The scan has passed `a` once it stands at slot `k` of sector `s`. */
  predicate Seen(a: Addr, s: nat, k: nat) {
    a.sector < s || (a.sector == s && a.slot < k)
  }

  /** The index built so far lists exactly the valid cells already passed. */
  ghost predicate Scanned(c: Config, im: Image, fd: seq<Fd>, s: nat, k: nat) {
    && Distinct(fd) && Entries(im, fd)
    && (forall i :: 0 <= i < |fd| ==> ValidAt(c, im, fd[i].address) && Seen(fd[i].address, s, k))
    && (forall a :: ValidAt(c, im, a) && Seen(a, s, k) ==>
          Find(fd, KeyAt(im, a)) < |fd| && fd[Find(fd, KeyAt(im, a))].address == a)
  }

  ghost predicate ScanInv(c: Config, st: State, w: Reading, m: map<Key, Data>, s: nat, k: nat) {
    && Shape(c, st) && s <= c.sectors && k <= c.slots
    && ReadsAs(c, st.flash, w, m) && Scanned(c, st.flash, st.fd, s, k)
    && (forall t :: 0 <= t < s ==> st.pos[t] == w.pos[t])
    && (k > 0 ==> s < c.sectors && k <= w.pos[s])
  }

  /** What the scan does to the flash: nothing, or one operation that removes the stale cell. */
  predicate Cleaner(st: State, w: Reading, st': State, w': Reading) {
    || (w' == w && st'.log == st.log && st'.flash == st.flash)
    || (w.stale.Some? && w' == w.(stale := None) && st'.log == st.log + [st'.flash])
  }

  lemma ScannedKeysLive(c: Config, im: Image, fd: seq<Fd>, at: map<Key, Addr>, stale: Option<Addr>, s: nat, k: nat)
    requires LiveAt(c, im, at, stale) && Scanned(c, im, fd, s, k)
    ensures Keys(fd) <= at.Keys && |fd| == |Keys(fd)|
  {
    hide Good, Find, Where;
    KeysCount(fd);
    forall i | 0 <= i < |fd|
      ensures KeyOf(fd[i].header) in at
    {
      assert ValidAt(c, im, fd[i].address);
    }
  }

  /** A key seen for the first time always finds room in the table. */
  lemma RoomForNew(c: Config, im: Image, fd: seq<Fd>, w: Reading, s: nat, k: nat, a: Addr)
    requires Reads(c, im, w) && AtMost(w.at, c.fdMax) && Scanned(c, im, fd, s, k) && ValidAt(c, im, a)
    requires Find(fd, KeyAt(im, a)) == |fd|
    ensures |fd| < c.fdMax
  {
    hide Good, Find, Where, Layout, Dims, Distinct, Entries;
    ScannedKeysLive(c, im, fd, w.at, w.stale, s, k);
    var key := KeyAt(im, a);
    assert key !in Keys(fd);
    SubsetSmaller(Keys(fd) + {key}, w.at.Keys);
  }

  lemma SubsetSmaller(x: set<Key>, y: set<Key>)
    requires x <= y
    ensures |x| <= |y|
  {
    if x != {} {
      var e :| e in x;
      SubsetSmaller(x - {e}, y - {e});
    }
  }

  lemma AppendScanned(c: Config, im: Image, fd: seq<Fd>, s: nat, k: nat, e: Fd, fd': seq<Fd>)
    requires Scanned(c, im, fd, s, k) && ValidAt(c, im, Addr(s, k)) && Find(fd, KeyAt(im, Addr(s, k))) == |fd|
    requires e == Fd(Addr(s, k), im[Addr(s, k)].hdr, s) && fd' == fd + [e]
    ensures Scanned(c, im, fd', s, k + 1)
  {
    hide Good, Find, Where;
    AddEntryFinds(fd, e, fd');
    forall a | ValidAt(c, im, a) && Seen(a, s, k + 1)
      ensures Find(fd', KeyAt(im, a)) < |fd'| && fd'[Find(fd', KeyAt(im, a))].address == a
    {
      if a != Addr(s, k) { assert Seen(a, s, k); }
    }
  }

  lemma SkipScanned(c: Config, im: Image, fd: seq<Fd>, s: nat, k: nat)
    requires Scanned(c, im, fd, s, k) && !ValidAt(c, im, Addr(s, k))
    ensures Scanned(c, im, fd, s, k + 1)
  {
    hide Good, Find, Where, Distinct;
    forall a | ValidAt(c, im, a) && Seen(a, s, k + 1)
      ensures Find(fd, KeyAt(im, a)) < |fd| && fd[Find(fd, KeyAt(im, a))].address == a
    {
      assert a != Addr(s, k);
      assert Seen(a, s, k);
    }
  }

  /** Nothing valid is left in the sector: go on with the next one. */
  lemma SectorScanned(c: Config, im: Image, fd: seq<Fd>, s: nat, k: nat)
    requires Dims(c, im) && Scanned(c, im, fd, s, k)
    requires forall a :: ValidAt(c, im, a) && a.sector == s ==> a.slot < k
    ensures Scanned(c, im, fd, s + 1, 0)
  {
    hide Good, Find, Where, Distinct;
  }

  /** Of two valid cells of one key, the flags always name the live one: the branch
      for "unexpected" flags is never taken on a reachable image. */
  lemma DuplicateFlags(c: Config, im: Image, at: map<Key, Addr>, stale: Option<Addr>, b: Addr, a: Addr)
    requires LiveAt(c, im, at, stale) && ValidAt(c, im, a) && ValidAt(c, im, b) && a != b
    requires KeyAt(im, a) == KeyAt(im, b)
    ensures NewerAt(im, a) != NewerAt(im, b) && stale.Some?
    ensures at[KeyAt(im, a)] == if NewerAt(im, a) == NEWER then a else b
  {
    hide Good;
  }

  /** The index after the older of two cells, already indexed, was invalidated. */
  lemma ReplaceScanned(c: Config, im: Image, fd: seq<Fd>, s: nat, k: nat, i: nat, e: Fd, fd': seq<Fd>, im': Image)
    requires Scanned(c, im, fd, s, k) && ValidAt(c, im, Addr(s, k)) && i < |fd| && Find(fd, KeyAt(im, Addr(s, k))) == i
    requires e == Fd(Addr(s, k), im[Addr(s, k)].hdr, s) && fd' == fd[i := e]
    requires im' == im[fd[i].address := im[fd[i].address].(hdr := im[fd[i].address].hdr.(size := SIZE_INVALID))]
    ensures Scanned(c, im', fd', s, k + 1)
  {
    hide Good, Find, Where;
    var b := fd[i].address;
    GoodSurvivesClear(c.crc, im[b]);
    PutEffect(c, im, b, im'[b], im');
    SetEntry(fd, i, e, fd');
    forall j | 0 <= j < |fd'| && j != i
      ensures fd[j].address != b
    {
      assert Find(fd, KeyOf(fd[j].header)) == j;
    }
    forall a | ValidAt(c, im', a) && Seen(a, s, k + 1)
      ensures Find(fd', KeyAt(im', a)) < |fd'| && fd'[Find(fd', KeyAt(im', a))].address == a
    {
      if a != Addr(s, k) { assert Seen(a, s, k); }
    }
  }

  /** The index after the cell just read was invalidated as the older one. */
  lemma DropScanned(c: Config, im: Image, fd: seq<Fd>, s: nat, k: nat, im': Image)
    requires Scanned(c, im, fd, s, k) && ValidAt(c, im, Addr(s, k))
    requires im' == im[Addr(s, k) := im[Addr(s, k)].(hdr := im[Addr(s, k)].hdr.(size := SIZE_INVALID))]
    ensures Scanned(c, im', fd, s, k + 1)
  {
    hide Good, Find, Where, Distinct;
    var a := Addr(s, k);
    GoodSurvivesClear(c.crc, im[a]);
    PutEffect(c, im, a, im'[a], im');
    forall b | ValidAt(c, im', b) && Seen(b, s, k + 1)
      ensures Find(fd, KeyAt(im', b)) < |fd| && fd[Find(fd, KeyAt(im', b))].address == b
    {
      assert Seen(b, s, k);
    }
  }

  /** The recovery writes lose nothing either: whichever of the two cells the scan
      gives up, its flash write clears `size` in that cell and changes nothing else. */
  lemma ResolveOverwrites(c: Config, st: State, i: nat, a: Addr)
    requires Shape(c, st) && Entries(st.flash, st.fd) && i < |st.fd| && InRange(c, a)
    ensures var b := if st.fd[i].header.newer == CURRENT && st.flash[a].hdr.newer == NEWER then st.fd[i].address else a;
            && b in st.flash
            && Resolve(c, st, i, a, st.flash[a]).flash
               == st.flash[b := st.flash[b].(hdr := st.flash[b].hdr.(size := SIZE_INVALID))]
  {
    hide AndHeader;
    ClearingBits(st.flash[a].hdr);
    ClearingBits(st.fd[i].header);
  }

  lemma ResolveKeeps(c: Config, st: State, w: Reading, m: map<Key, Data>, s: nat, k: nat)
    requires s < |w.pos| && ScanInv(c, st, w, m, s, k) && s < c.sectors && k < w.pos[s] && k < c.slots
    requires ValidAt(c, st.flash, Addr(s, k)) && Find(st.fd, KeyAt(st.flash, Addr(s, k))) < |st.fd|
    ensures var a := Addr(s, k);
            var i := Find(st.fd, KeyAt(st.flash, a));
            var st' := Resolve(c, st, i, a, st.flash[a]);
            && st.fd[i].header.newer != st.flash[a].hdr.newer && w.stale.Some?
            && ScanInv(c, st', w.(stale := None), m, s, k + 1)
            && st'.log == st.log + [st'.flash] && Holds(c, st'.flash, m) && st'.pos == st.pos && st'.cur == st.cur
  {
    hide Good, Find, Where, Layout, Dims, Distinct, LiveAt;
    var a := Addr(s, k);
    var cell := st.flash[a];
    var i := Find(st.fd, KeyAt(st.flash, a));
    var b := st.fd[i].address;
    var st' := Resolve(c, st, i, a, cell);
    assert Seen(b, s, k) && ValidAt(c, st.flash, b);
    ClearingBits(cell.hdr);
    ClearingBits(st.fd[i].header);
    DuplicateFlags(c, st.flash, w.at, w.stale, b, a);
    hide AndHeader;
    if st.fd[i].header.newer == CURRENT {
      ReplaceScanned(c, st.flash, st.fd, s, k, i, Fd(a, cell.hdr, s), st'.fd, st'.flash);
      RetireKeeps(c, st.flash, w, b, st'.flash);
    } else {
      DropScanned(c, st.flash, st.fd, s, k, st'.flash);
      RetireKeeps(c, st.flash, w, a, st'.flash);
    }
    HoldsOf(c, st'.flash, w.(stale := None), m);
  }

  /** Where a sector's programmed prefix ends, `checkBlock` says blank, and nothing
      above it is valid. */
  lemma PrefixEnd(c: Config, im: Image, pos: seq<nat>, cur: nat, s: nat, k: nat)
    requires Dims(c, im) && Layout(c, im, pos, cur) && s < c.sectors && k < c.slots && k <= pos[s]
    ensures Addr(s, k) in im
    ensures CheckCell(c.crc, im[Addr(s, k)]) == BLOCK_IS_BLANK <==> k == pos[s]
    ensures k == pos[s] ==> forall a :: ValidAt(c, im, a) && a.sector == s ==> a.slot < k
  {
    hide HashOf;
    assert InRange(c, Addr(s, k));
    GoodIsProgrammed(c.crc, BLANK_CELL);
    hide Good, CheckCell;
    BlankCheck(c.crc, im[Addr(s, k)]);
  }

  lemma ReadsLayout(c: Config, im: Image, w: Reading)
    requires Reads(c, im, w)
    ensures Dims(c, im) && Layout(c, im, w.pos, w.cur)
  {
    hide Layout, LiveAt;
  }

  lemma BlankCheck(crc: Crc, cell: Cell)
    ensures CheckCell(crc, cell) == BLOCK_IS_BLANK <==> cell.hdr == BLANK_HEADER
  {
  }

  function SectorCode(c: Config, pos: nat): int {
    if pos == 0 then 0 else if pos < c.slots then 1 else 2
  }

  /** From `st` the scan has got to slot `k` of sector `s`. */
  ghost predicate ScanResult(c: Config, st: State, w: Reading, m: map<Key, Data>, s: nat, k: nat, st': State,
      w': Reading) {
    ScanInv(c, st', w', m, s, k) && Cleaner(st, w, st', w') && Logged(c, st.log, st'.log, m)
  }

  /** One programmed cell: resolve, append or skip. */
  lemma CellKeeps(c: Config, st: State, w: Reading, m: map<Key, Data>, s: nat, k: nat) returns (st': State, w': Reading)
    requires s < |w.pos| && ScanInv(c, st, w, m, s, k) && s < c.sectors && k < c.slots && k < w.pos[s]
    ensures ScanResult(c, st, w, m, s, k + 1, st', w') && st'.cur == st.cur
    ensures InitFileDescriptors(c, st, s, k) == InitFileDescriptors(c, st', s, k + 1)
  {
    hide Good, Find, Where, Reads, Dims, Distinct, Entries, Resolve, Holds, CheckCell, Contents;
    w' := w;
    SameLog(c, st.log, m);
    st' := st.(pos := st.pos[s := k]);
    var a := Addr(s, k);
    ReadsLayout(c, st.flash, w);
    PrefixEnd(c, st.flash, w.pos, w.cur, s, k);
    GoodMeans(c.crc, st.flash[a]);
    if CheckCell(c.crc, st.flash[a]) == BLOCK_OK {
      var i := Find(st.fd, KeyAt(st.flash, a));
      if i < |st.fd| {
        ResolveKeeps(c, st', w, m, s, k);
        st', w' := Resolve(c, st', i, a, st.flash[a]), w.(stale := None);
      } else {
        RoomForNew(c, st.flash, st.fd, w, s, k, a);
        var e := Fd(a, st.flash[a].hdr, s);
        AppendScanned(c, st.flash, st.fd, s, k, e, st.fd + [e]);
        st' := st'.(fd := st.fd + [e]);
      }
    } else {
      SkipScanned(c, st.flash, st.fd, s, k);
    }
  }

  lemma ScanTrans(c: Config, st: State, w: Reading, m: map<Key, Data>, s: nat, k: nat, st1: State, w1: Reading,
      s2: nat, k2: nat, st2: State, w2: Reading)
    requires ScanResult(c, st, w, m, s, k, st1, w1) && ScanResult(c, st1, w1, m, s2, k2, st2, w2)
    ensures ScanResult(c, st, w, m, s2, k2, st2, w2)
  {
    hide ScanInv, Holds;
    LoggedAgain(c, st.log, st1.log, st2.log, m);
  }

  /** The scan of a sector ends at its first unprogrammed slot. */
  lemma {:induction false} SectorEnds(c: Config, st: State, w: Reading, m: map<Key, Data>, s: nat, k: nat)
    requires ScanInv(c, st, w, m, s, k) && s < c.sectors && s < |w.pos| && k == w.pos[s]
    ensures var (st', code) := InitFileDescriptors(c, st, s, k);
            && ScanResult(c, st, w, m, s + 1, 0, st', w)
            && code == SectorCode(c, w.pos[s]) && st'.cur == st.cur
  {
    hide Good, Find, Where, Reads, Dims, Distinct, Entries, Resolve, Holds, CheckCell, Contents, Logged, Scanned;
    SameLog(c, st.log, m);
    InRangeSlots(c, st.flash, w);
    if k < c.slots {
      ReadsLayout(c, st.flash, w);
      PrefixEnd(c, st.flash, w.pos, w.cur, s, k);
    }
    SectorScanned(c, st.flash, st.fd, s, k);
  }

  lemma ScanBounds(c: Config, st: State, w: Reading, m: map<Key, Data>, s: nat, k: nat)
    requires ScanInv(c, st, w, m, s, k) && s < c.sectors
    ensures Shape(c, st) && |w.pos| == c.sectors && k <= w.pos[s] <= c.slots
  {
    hide Good, Shape, LiveAt, Dims, Scanned, Contents;
  }

  /** From slot `k` to the end of sector `s`. */
  lemma InitFileDescriptorsKeeps(c: Config, st: State, w: Reading, m: map<Key, Data>, s: nat, k: nat)
      returns (w': Reading)
    requires ScanInv(c, st, w, m, s, k) && s < c.sectors
    ensures var (st', code) := InitFileDescriptors(c, st, s, k);
            && ScanResult(c, st, w, m, s + 1, 0, st', w')
            && s < |w.pos| && code == SectorCode(c, w.pos[s]) && st'.cur == st.cur
    decreases c.slots - k
  {
    hide ScanInv, Shape, InitFileDescriptors, Logged;
    ScanBounds(c, st, w, m, s, k);
    if k == w.pos[s] {
      SectorEnds(c, st, w, m, s, k);
      w' := w;
    } else {
      var st1, w1 := CellKeeps(c, st, w, m, s, k);
      ScanBounds(c, st1, w1, m, s, k + 1);
      w' := InitFileDescriptorsKeeps(c, st1, w1, m, s, k + 1);
      ScanTrans(c, st, w, m, s, k + 1, st1, w1, s + 1, 0, InitFileDescriptors(c, st1, s, k + 1).0, w');
    }
  }

  lemma GoodMeans(crc: Crc, cell: Cell)
    ensures Good(crc, cell) <==> CheckCell(crc, cell) == BLOCK_OK
  {
  }

  lemma InRangeSlots(c: Config, im: Image, w: Reading)
    requires Reads(c, im, w)
    ensures Dims(c, im)
    ensures forall a :: ValidAt(c, im, a) ==> a.slot < c.slots
    ensures |w.pos| == c.sectors && forall s :: 0 <= s < c.sectors ==> w.pos[s] <= c.slots
  {
    hide LiveAt, Good;
  }

  /** What `fs_init` knows about the sectors already scanned. */
  ghost predicate SectorsSeen(c: Config, w: Reading, s: nat, cur: nat, found: bool) {
    && |w.pos| == c.sectors && w.cur < c.sectors && s <= c.sectors
    && (found ==> cur == w.cur && w.cur < s && 0 < w.pos[w.cur] < c.slots)
    && (!found ==> forall t :: 0 <= t < s ==> w.pos[t] == 0 || w.pos[t] == c.slots)
  }

  /** The last blank sector among the first `s`, or 0 if there is none. */
  ghost predicate LastBlank(pos: seq<nat>, s: nat, blank: nat) {
    && s <= |pos| && (blank == 0 || (blank < s && pos[blank] == 0))
    && forall t :: blank < t < s ==> pos[t] != 0
  }

  /** Where a boot starts writing: in the partly written sector, else in the last
      blank one, else in sector 0. */
  ghost predicate Starts(c: Config, pos: seq<nat>, cur: nat) {
    && cur < |pos|
    && (|| 0 < pos[cur] < c.slots
        || (LastBlank(pos, |pos|, cur) && forall s :: 0 <= s < |pos| ==> pos[s] == 0 || pos[s] == c.slots))
  }

  lemma StartsOnce(c: Config, im: Image, w: Reading, cur: nat, cur': nat)
    requires Reads(c, im, w) && Starts(c, w.pos, cur) && Starts(c, w.pos, cur')
    ensures cur == cur'
  {
    hide LiveAt, Good, Dims;
  }

  lemma SectorsSeenNext(c: Config, im: Image, w: Reading, s: nat, cur: nat, found: bool)
    requires Reads(c, im, w) && SectorsSeen(c, w, s, cur, found) && s < c.sectors
    ensures var code := SectorCode(c, w.pos[s]);
            SectorsSeen(c, w, s + 1, if code == 1 then s else cur, found || code == 1)
  {
    hide LiveAt, Good, Dims;
  }

  /** The loop of `fs_init` at sector `s`. */
  ghost predicate InitInv(c: Config, st: State, w: Reading, m: map<Key, Data>, s: nat, blank: nat, found: bool) {
    ScanInv(c, st, w, m, s, 0) && blank < c.sectors && SectorsSeen(c, w, s, st.cur, found) && LastBlank(w.pos, s, blank)
  }

  /** What the boot has done to the flash since `st`: at most one duplicate resolved. */
  ghost predicate Cleans(c: Config, st: State, w: Reading, m: map<Key, Data>, st': State, w': Reading) {
    Cleaner(st, w, st', w') && Logged(c, st.log, st'.log, m)
  }

  lemma CleansAgain(c: Config, m: map<Key, Data>, st: State, w: Reading, st1: State, w1: Reading, st2: State,
      w2: Reading)
    requires Cleans(c, st, w, m, st1, w1) && Cleans(c, st1, w1, m, st2, w2)
    ensures Cleans(c, st, w, m, st2, w2)
  {
    hide Holds;
    LoggedAgain(c, st.log, st1.log, st2.log, m);
  }

  lemma InitStep(c: Config, st: State, w: Reading, m: map<Key, Data>, s: nat, blank: nat, found: bool)
      returns (st': State, w': Reading, blank': nat, found': bool)
    requires InitInv(c, st, w, m, s, blank, found) && Shape(c, st) && s < c.sectors
    ensures InitInv(c, st', w', m, s + 1, blank', found') && Cleans(c, st, w, m, st', w')
    ensures Shape(c, st') && blank' < c.sectors
    ensures InitFrom(c, st, s, blank, found) == InitFrom(c, st', s + 1, blank', found')
  {
    hide Good, Find, Reads, Dims, Distinct, Holds, Contents, Logged, InitFileDescriptors, Scanned;
    w' := InitFileDescriptorsKeeps(c, st, w, m, s, 0);
    var (st1, code) := InitFileDescriptors(c, st, s, 0);
    SectorsSeenNext(c, st.flash, w, s, st.cur, found);
    st' := if code == 1 then st1.(cur := s) else st1;
    blank' := if code == 0 then s else blank;
    found' := found || code == 1;
  }

  lemma InitFromKeeps(c: Config, st: State, w: Reading, m: map<Key, Data>, s: nat, blank: nat, found: bool)
      returns (w': Reading)
    requires InitInv(c, st, w, m, s, blank, found) && Shape(c, st)
    ensures s <= c.sectors && blank < c.sectors
    ensures var st' := InitFrom(c, st, s, blank, found);
            Booted(c, st', w', m) && Cleans(c, st, w, m, st', w')
    decreases c.sectors - s
  {
    hide Reads, Shape, Holds, Contents, Logged, InitFileDescriptors, Scanned, Booted;
    if s == c.sectors {
      hide Cleans;
      w' := w;
      InitEnds(c, st, w, m, blank, found);
    } else {
      var st1, w1, blank1, found1 := InitStep(c, st, w, m, s, blank, found);
      hide InitInv, Cleans;
      w' := InitFromKeeps(c, st1, w1, m, s + 1, blank1, found1);
      CleansAgain(c, m, st, w, st1, w1, InitFrom(c, st1, s + 1, blank1, found1), w');
    }
  }

  lemma {:induction false} InitEnds(c: Config, st: State, w: Reading, m: map<Key, Data>, blank: nat, found: bool)
    requires InitInv(c, st, w, m, c.sectors, blank, found) && Shape(c, st)
    ensures var st' := InitFrom(c, st, c.sectors, blank, found);
            Booted(c, st', w, m) && Cleans(c, st, w, m, st', w)
  {
    hide ScanInv, Holds, Booted, Shape;
    SameLog(c, st.log, m);
    FinishKeeps(c, st, w, m, if found then st.cur else blank);
  }

  /** The state after a boot: the index is a bijection with the surviving valid
      cells, every write pointer is at the first unprogrammed slot, and the current
      sector is the one that `Starts` determines. */
  ghost predicate Booted(c: Config, st: State, w: Reading, m: map<Key, Data>) {
    && Inv(c, st) && Vars(c, st) == m && st.pc == Wait555
    && Where(st.fd) == w.at && st.pos == w.pos && |w.pos| == c.sectors
    && Starts(c, w.pos, st.cur)
  }

  lemma AllScannedLive(c: Config, im: Image, fd: seq<Fd>)
    requires Dims(c, im) && Scanned(c, im, fd, c.sectors, 0)
    ensures LiveAt(c, im, Where(fd), None)
  {
    hide Good, Find, Keys;
    WhereKeys(fd);
    hide Where;
    forall a | ValidAt(c, im, a)
      ensures Find(fd, KeyAt(im, a)) < |fd| && fd[Find(fd, KeyAt(im, a))].address == a
    {
      assert Seen(a, c.sectors, 0);
    }
    hide Seen;
    forall k | k in Where(fd)
      ensures ValidAt(c, im, Where(fd)[k]) && KeyAt(im, Where(fd)[k]) == k
    {
      assert ValidAt(c, im, fd[Find(fd, k)].address);
    }
  }

  lemma AllScanned(c: Config, im: Image, fd: seq<Fd>, w: Reading)
    requires Reads(c, im, w) && Scanned(c, im, fd, c.sectors, 0)
    ensures LiveAt(c, im, Where(fd), None) && Where(fd) == w.at
  {
    hide Good, Find, Dims, Keys, Where, Distinct, Layout, Scanned, LiveAt;
    AllScannedLive(c, im, fd);
    SameLive(c, im, Where(fd), None, w.at, w.stale);
  }

  lemma RelocateCurrent(c: Config, im: Image, w: Reading, cur: nat)
    requires Reads(c, im, w) && cur < c.sectors
    requires cur == w.cur || w.pos[w.cur] == 0 || w.pos[w.cur] == c.slots
    ensures Layout(c, im, w.pos, cur)
  {
    hide LiveAt, Good, Dims;
  }

  lemma FinishKeeps(c: Config, st: State, w: Reading, m: map<Key, Data>, cur: nat)
    requires ScanInv(c, st, w, m, c.sectors, 0) && cur < c.sectors && |w.pos| == c.sectors && w.cur < c.sectors
    requires cur == w.cur || w.pos[w.cur] == 0 || w.pos[w.cur] == c.slots
    requires Starts(c, w.pos, cur)
    ensures Booted(c, st.(cur := cur, pc := Wait555), w, m)
  {
    hide Good, Find, Where, LiveAt, Layout, Scanned, Dims, Contents, Distinct, Entries;
    var st' := st.(cur := cur, pc := Wait555);
    assert st'.pos == w.pos;
    AllScanned(c, st.flash, st.fd, w);
    ScannedIndex(c, st.flash, st.fd, c.sectors, 0);
    RelocateCurrent(c, st.flash, w, cur);
  }

  lemma ScannedIndex(c: Config, im: Image, fd: seq<Fd>, s: nat, k: nat)
    requires Scanned(c, im, fd, s, k)
    ensures Distinct(fd) && Entries(im, fd)
  {
    hide Distinct, Entries, ValidAt, Find;
  }

  lemma ZeroScanned(c: Config, im: Image, w: Reading, m: map<Key, Data>)
    requires ValidConfig(c) && ReadsAs(c, im, w, m)
    ensures InitInv(c, ZeroRam(c, im), w, m, 0, 0, false)
  {
    hide Good, LiveAt;
  }

  /** Recovery: from any image that stores `m` a boot ends in a state that stores
      `m`, and no image it passes through stores anything else. If there is no stale
      cell the boot writes nothing at all, and otherwise it makes one flash write. */
  lemma BootKeeps(c: Config, im: Image, w: Reading, m: map<Key, Data>)
    requires ValidConfig(c) && ReadsAs(c, im, w, m)
    ensures Booted(c, Boot(c, im), w, m) && Logged(c, [], Boot(c, im).log, m)
    ensures (Boot(c, im).log == [] && Boot(c, im).flash == im)
        || (w.stale.Some? && Boot(c, im).log == [Boot(c, im).flash])
  {
    hide Good, Find, Where, Reads, Dims, Distinct, Entries, Holds, Contents, Logged, InitFrom, Inv;
    ZeroScanned(c, im, w, m);
    var w' := InitFromKeeps(c, ZeroRam(c, im), w, m, 0, 0, false);
  }

  /** Booting is idempotent: a second power cycle performs no flash write, finds
      every variable at the same address and gives the same write pointers and the
      same current sector. */
  lemma SecondBoot(c: Config, im: Image, m: map<Key, Data>)
    requires ValidConfig(c) && Dims(c, im) && Holds(c, im, m)
    ensures var first := Boot(c, im);
            var second := Boot(c, first.flash);
            && second.log == [] && second.flash == first.flash
            && Where(second.fd) == Where(first.fd) && second.pos == first.pos && second.cur == first.cur
            && Inv(c, second) && Vars(c, second) == m
  {
    hide Good, Find, Where, LiveAt, Layout, Distinct, Entries, Dims, Contents, Boot, Collecting, Starts;
    var w :| ReadsAs(c, im, w, m);
    BootKeeps(c, im, w, m);
    var first := Boot(c, im);
    BootKeeps(c, first.flash, ReadingOf(first), m);
    StartsOnce(c, first.flash, ReadingOf(first), first.cur, Boot(c, first.flash).cur);
  }
}
