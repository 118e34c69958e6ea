/** `fs_init` over any image at all, also one with more variables than the table has
    room for, with gaps or with duplicates (wormvars.c:199-294, 460-493). */
module Scanning {
  import opened Block
  import opened Store
  import opened Images
  import opened Invariant
  import opened Booting

  predicate Known(fd: seq<Fd>, key: Key) {
    Find(fd, key) < |fd|
  }

  predicate BlankAt(im: Image, s: nat, k: nat) {
    Addr(s, k) in im && im[Addr(s, k)].hdr == BLANK_HEADER
  }

  /** The first `k` slots of the sector carry a header. */
  ghost predicate Written(im: Image, s: nat, k: nat) {
    forall j :: 0 <= j < k ==> !BlankAt(im, s, j)
  }

  /** A valid cell of the variable that no blank slot hides from the scan. */
  ghost predicate Offers(c: Config, im: Image, a: Addr, key: Key) {
    ValidAt(c, im, a) && KeyAt(im, a) == key && Written(im, a.sector, a.slot)
  }

  /** The index lists valid cells of different variables, before slot `k` of sector `s`. */
  ghost predicate Listed(c: Config, im: Image, flash: Image, fd: seq<Fd>, s: nat, k: nat) {
    && Distinct(fd) && Entries(flash, fd)
    && forall i :: 0 <= i < |fd| ==>
         && ValidAt(c, flash, fd[i].address) && Seen(fd[i].address, s, k)
         && Offers(c, im, fd[i].address, KeyOf(fd[i].header))
  }

  /** The flash differs from `im` only in cells of indexed variables that were
      invalidated, all of them before slot `k` of sector `s`. */
  ghost predicate Cleaned(c: Config, im: Image, flash: Image, fd: seq<Fd>, s: nat, k: nat) {
    forall a :: a in im ==> a in flash && (flash[a] == im[a] || (Seen(a, s, k) && Invalidated(c, im, flash, fd, a)))
  }

  ghost predicate Invalidated(c: Config, im: Image, flash: Image, fd: seq<Fd>, a: Addr)
    requires a in flash
  {
    && ValidAt(c, im, a) && Known(fd, KeyAt(im, a))
    && flash[a] == im[a].(hdr := im[a].hdr.(size := SIZE_INVALID))
  }

  /** What the scan has made of `im` when it stands at slot `k` of sector `s`. */
  ghost predicate Sound(c: Config, im: Image, st: State, s: nat, k: nat) {
    && Shape(c, st) && Dims(c, im)
    && Listed(c, im, st.flash, st.fd, s, k) && Cleaned(c, im, st.flash, st.fd, s, k)
  }

  /** The index may only grow, and not beyond the table. */
  ghost predicate Grows(c: Config, fd: seq<Fd>, fd': seq<Fd>) {
    && |fd| <= |fd'| <= c.fdMax && (forall k :: Known(fd, k) ==> Known(fd', k))
    && (|fd| == c.fdMax ==> forall k :: Known(fd', k) ==> Known(fd, k))
  }

  /** The scan goes past slot `j`: something is written there, and if it is valid its
      variable is indexed. */
  ghost predicate Passed(c: Config, im: Image, fd: seq<Fd>, s: nat, j: nat) {
    && !BlankAt(im, s, j)
    && (ValidAt(c, im, Addr(s, j)) ==> Known(fd, KeyAt(im, Addr(s, j))))
  }

  /** Every indexed variable has a valid cell before slot `k` of sector `s`. */
  ghost predicate Earlier(c: Config, im: Image, fd: seq<Fd>, s: nat, k: nat) {
    forall i :: 0 <= i < |fd| ==> OffersBefore(c, im, KeyOf(fd[i].header), s, k)
  }

  ghost predicate OffersBefore(c: Config, im: Image, key: Key, s: nat, k: nat) {
    exists a :: Offers(c, im, a, key) && Seen(a, s, k)
  }

  /** A valid cell at which the scan gives up: the table is full of earlier variables. */
  ghost predicate Lost(c: Config, im: Image, fd: seq<Fd>, s: nat, p: nat) {
    && ValidAt(c, im, Addr(s, p)) && !Known(fd, KeyAt(im, Addr(s, p)))
    && |fd| == c.fdMax && Earlier(c, im, fd, s, p)
  }

  /** Where the scan of sector `s` ends. */
  ghost predicate Stops(c: Config, im: Image, fd: seq<Fd>, s: nat, p: nat) {
    && p <= c.slots && (forall j :: 0 <= j < p ==> Passed(c, im, fd, s, j))
    && (p < c.slots ==> BlankAt(im, s, p) || Lost(c, im, fd, s, p))
  }

  // ---------------------------------------------------------------- one cell

  lemma KnownKeys(fd: seq<Fd>, key: Key)
    ensures Known(fd, key) <==> exists i :: 0 <= i < |fd| && KeyOf(fd[i].header) == key
  {
    hide Find;
  }

  lemma SkipSound(c: Config, im: Image, st: State, s: nat, k: nat)
    requires Sound(c, im, st, s, k)
    ensures Sound(c, im, st, s, k + 1) && Sound(c, im, st, s + 1, 0)
  {
    hide Find, Good, Distinct, Dims, Shape, Entries, Offers, Invalidated;
  }

  lemma AddSound(c: Config, im: Image, st: State, s: nat, k: nat, st': State)
    requires Sound(c, im, st, s, k) && InRange(c, Addr(s, k)) && Offers(c, im, Addr(s, k), KeyAt(im, Addr(s, k)))
    requires !Known(st.fd, KeyAt(im, Addr(s, k))) && |st.fd| < c.fdMax
    requires st' == st.(fd := st.fd + [Fd(Addr(s, k), im[Addr(s, k)].hdr, s)])
    ensures Sound(c, im, st', s, k + 1) && Grows(c, st.fd, st'.fd) && Known(st'.fd, KeyAt(im, Addr(s, k)))
  {
    hide Find, Good, Dims, Written;
    assert st.flash[Addr(s, k)] == im[Addr(s, k)];
    AddEntryFinds(st.fd, st'.fd[|st.fd|], st'.fd);
    hide Distinct;
  }

  lemma {:induction false} KeptListed(c: Config, im: Image, flash: Image, fd: seq<Fd>, s: nat, k: nat, cell: Cell)
    requires Listed(c, im, flash, fd, s, k)
    ensures Listed(c, im, flash[Addr(s, k) := cell], fd, s, k + 1)
  {
    hide Good, Distinct, Offers;
  }

  lemma {:induction false} MovedListed(c: Config, im: Image, flash: Image, fd: seq<Fd>, s: nat, k: nat, i: nat,
      fd': seq<Fd>, cell: Cell)
    requires Listed(c, im, flash, fd, s, k) && i < |fd|
    requires Addr(s, k) in flash && Addr(s, k) in im && flash[Addr(s, k)] == im[Addr(s, k)]
    requires Offers(c, im, Addr(s, k), KeyOf(fd[i].header))
    requires fd' == fd[i := Fd(Addr(s, k), im[Addr(s, k)].hdr, s)]
    ensures Listed(c, im, flash[fd[i].address := cell], fd', s, k + 1)
    ensures forall key :: Known(fd', key) <==> Known(fd, key)
  {
    hide Good, Written, Find;
    SetEntry(fd, i, fd'[i], fd');
    forall j | 0 <= j < |fd| && j != i
      ensures fd[j].address != fd[i].address
    {
      assert Find(fd, KeyOf(fd[j].header)) == j;
    }
    hide Distinct;
  }

  lemma CleanedMore(c: Config, im: Image, flash: Image, fd: seq<Fd>, s: nat, k: nat, b: Addr, fd': seq<Fd>)
    requires Cleaned(c, im, flash, fd, s, k) && Seen(b, s, k + 1)
    requires b in flash && ValidAt(c, im, b) && Known(fd, KeyAt(im, b)) && flash[b] == im[b]
    requires forall key :: Known(fd', key) <==> Known(fd, key)
    ensures Cleaned(c, im, flash[b := im[b].(hdr := im[b].hdr.(size := SIZE_INVALID))], fd', s, k + 1)
  {
    hide Good, Known;
  }

  /** An indexed cell has not been invalidated. */
  lemma ListedIsLive(c: Config, im: Image, flash: Image, fd: seq<Fd>, s: nat, k: nat, i: nat)
    requires Listed(c, im, flash, fd, s, k) && Cleaned(c, im, flash, fd, s, k) && i < |fd|
    ensures fd[i].address in im && flash[fd[i].address] == im[fd[i].address]
  {
    GoodSurvivesClear(c.crc, im[fd[i].address]);
    hide Good, Distinct, Find;
  }

  /** Invalidating one of two cells of an indexed variable. */
  lemma ResolveSound(c: Config, im: Image, st: State, s: nat, k: nat)
    requires Sound(c, im, st, s, k) && InRange(c, Addr(s, k)) && Offers(c, im, Addr(s, k), KeyAt(im, Addr(s, k)))
    requires Known(st.fd, KeyAt(im, Addr(s, k)))
    ensures var st' := Resolve(c, st, Find(st.fd, KeyAt(im, Addr(s, k))), Addr(s, k), im[Addr(s, k)]);
            && Sound(c, im, st', s, k + 1) && Grows(c, st.fd, st'.fd) && Known(st'.fd, KeyAt(im, Addr(s, k)))
            && st'.pos == st.pos && st'.cur == st.cur
  {
    hide Good, Dims, Written, AndHeader, Find;
    var a := Addr(s, k);
    var i := Find(st.fd, KeyAt(im, a));
    var b := st.fd[i].address;
    assert st.flash[a] == im[a];
    ListedIsLive(c, im, st.flash, st.fd, s, k, i);
    ResolveOverwrites(c, st, i, a);
    if st.fd[i].header.newer == CURRENT && im[a].hdr.newer == NEWER {
      var fd' := st.fd[i := Fd(a, im[a].hdr, s)];
      MovedListed(c, im, st.flash, st.fd, s, k, i, fd', im[b].(hdr := im[b].hdr.(size := SIZE_INVALID)));
      hide Listed, Cleaned;
      CleanedMore(c, im, st.flash, st.fd, s, k, b, fd');
    } else {
      KeptListed(c, im, st.flash, st.fd, s, k, im[a].(hdr := im[a].hdr.(size := SIZE_INVALID)));
      hide Listed, Cleaned;
      CleanedMore(c, im, st.flash, st.fd, s, k, a, st.fd);
    }
  }

  // ---------------------------------------------------------------- a sector, and all of them

  lemma GrowsAgain(c: Config, fd: seq<Fd>, fd1: seq<Fd>, fd2: seq<Fd>)
    requires Grows(c, fd, fd1) && Grows(c, fd1, fd2)
    ensures Grows(c, fd, fd2)
  {
    forall k | Known(fd, k)
      ensures Known(fd2, k)
    {
      assert Known(fd1, k);
    }
    assert |fd| == c.fdMax ==> forall k :: Known(fd2, k) ==> Known(fd, k);
  }

  lemma ListedIsEarlier(c: Config, im: Image, flash: Image, fd: seq<Fd>, s: nat, k: nat)
    requires Listed(c, im, flash, fd, s, k)
    ensures Earlier(c, im, fd, s, k)
  {
    hide Good, Offers;
  }

  /** A sector's end is not affected by what is indexed later. */
  lemma StopsStill(c: Config, im: Image, fd: seq<Fd>, s: nat, p: nat, fd': seq<Fd>)
    requires Stops(c, im, fd, s, p) && Grows(c, fd, fd')
    ensures Stops(c, im, fd', s, p)
  {
    hide Passed, Lost, BlankAt;
    PassedStill(c, im, fd, s, p, fd');
    if p < c.slots && !BlankAt(im, s, p) {
      LostStill(c, im, fd, s, p, fd');
    }
  }

  lemma LostStill(c: Config, im: Image, fd: seq<Fd>, s: nat, p: nat, fd': seq<Fd>)
    requires Lost(c, im, fd, s, p) && Grows(c, fd, fd')
    ensures Lost(c, im, fd', s, p)
  {
    hide Find, Good, OffersBefore;
    assert !Known(fd', KeyAt(im, Addr(s, p)));
    forall i | 0 <= i < |fd'|
      ensures OffersBefore(c, im, KeyOf(fd'[i].header), s, p)
    {
      KnownKeys(fd', KeyOf(fd'[i].header));
      KnownKeys(fd, KeyOf(fd'[i].header));
    }
  }

  /** What the code of `initFileDescriptors` says about the place where it stopped. */
  predicate Verdict(c: Config, im: Image, s: nat, p: nat, code: int) {
    code == if p == c.slots then 2 else if BlankAt(im, s, p) then if p == 0 then 0 else 1 else -1
  }

  /** The scan gives up at this cell: its variable is new and the table is full. */
  ghost predicate GivesUp(c: Config, im: Image, st: State, s: nat, k: nat) {
    ValidAt(c, im, Addr(s, k)) && !Known(st.fd, KeyAt(im, Addr(s, k))) && |st.fd| >= c.fdMax
  }

  /** One cell that the scan goes past. */
  lemma {:induction false} StepCell(c: Config, im: Image, st: State, s: nat, k: nat) returns (next: State)
    requires Sound(c, im, st, s, k) && s < c.sectors && k < c.slots && Written(im, s, k)
    requires !BlankAt(im, s, k) && !GivesUp(c, im, st, s, k)
    ensures Shape(c, next) && InitFileDescriptors(c, st, s, k) == InitFileDescriptors(c, next, s, k + 1)
    ensures Sound(c, im, next, s, k + 1) && Grows(c, st.fd, next.fd) && Passed(c, im, next.fd, s, k)
    ensures next.pos == st.pos[s := k] && next.cur == st.cur
  {
    hide Find, HashOf, Dims, Listed, Entries, Written;
    var here := st.(pos := st.pos[s := k]);
    var a := Addr(s, k);
    assert a in im && st.flash[a] == im[a] by { UnseenIsSame(c, im, st, s, k); }
    var key := KeyAt(im, a);
    hide Cleaned;
    if !Good(c.crc, im[a]) {
      next := here;
      SkipSound(c, im, st, s, k);
    } else if Known(st.fd, key) {
      next := Resolve(c, here, Find(here.fd, key), a, im[a]);
      ResolveSound(c, im, here, s, k);
    } else {
      next := here.(fd := here.fd + [Fd(a, im[a].hdr, s)]);
      AddSound(c, im, here, s, k, next);
    }
  }

  lemma UnseenIsSame(c: Config, im: Image, st: State, s: nat, k: nat)
    requires Sound(c, im, st, s, k) && s < c.sectors && k < c.slots
    ensures Addr(s, k) in im && Addr(s, k) in st.flash && st.flash[Addr(s, k)] == im[Addr(s, k)]
  {
    hide Listed, Invalidated;
  }

  /** The scan stops here. */
  lemma {:induction false} StopCell(c: Config, im: Image, st: State, s: nat, k: nat)
    requires Sound(c, im, st, s, k) && s < c.sectors && k < c.slots && (BlankAt(im, s, k) || GivesUp(c, im, st, s, k))
    ensures var (st', code) := InitFileDescriptors(c, st, s, k);
            && st' == st.(pos := st.pos[s := k]) && Verdict(c, im, s, k, code)
            && (BlankAt(im, s, k) || Lost(c, im, st.fd, s, k))
  {
    hide Find, HashOf, Dims, Entries;
    UnseenIsSame(c, im, st, s, k);
    ListedIsEarlier(c, im, st.flash, st.fd, s, k);
    hide Listed, Cleaned;
  }

  /** `initFileDescriptors` from slot `k` of sector `s` on. */
  lemma {:induction false} ScanSector(c: Config, im: Image, st: State, s: nat, k: nat)
    requires Sound(c, im, st, s, k) && s < c.sectors && k <= c.slots
    requires forall j :: 0 <= j < k ==> Passed(c, im, st.fd, s, j)
    ensures var (st', code) := InitFileDescriptors(c, st, s, k);
            && |st'.pos| == c.sectors && st'.pos == st.pos[s := st'.pos[s]] && st'.cur == st.cur
            && Grows(c, st.fd, st'.fd) && Sound(c, im, st', s, st'.pos[s])
            && Stops(c, im, st'.fd, s, st'.pos[s]) && Verdict(c, im, s, st'.pos[s], code)
    decreases c.slots - k
  {
    hide Find, Good, Dims, Listed, Cleaned, Entries, ValidAt, Known;
    if k < c.slots && (BlankAt(im, s, k) || GivesUp(c, im, st, s, k)) {
      StopCell(c, im, st, s, k);
    } else if k < c.slots {
      assert Written(im, s, k) by { PassedIsWritten(c, im, st.fd, s, k); }
      var next := StepCell(c, im, st, s, k);
      PassedStill(c, im, st.fd, s, k, next.fd);
      hide InitFileDescriptors, Lost, Passed, BlankAt;
      ScanSector(c, im, next, s, k + 1);
      GrowsAgain(c, st.fd, next.fd, InitFileDescriptors(c, next, s, k + 1).0.fd);
    }
  }

  lemma PassedIsWritten(c: Config, im: Image, fd: seq<Fd>, s: nat, k: nat)
    requires forall j :: 0 <= j < k ==> Passed(c, im, fd, s, j)
    ensures Written(im, s, k)
  {
    hide ValidAt;
    forall j | 0 <= j < k
      ensures !BlankAt(im, s, j)
    {
      assert Passed(c, im, fd, s, j);
    }
  }

  lemma PassedStill(c: Config, im: Image, fd: seq<Fd>, s: nat, k: nat, fd': seq<Fd>)
    requires Grows(c, fd, fd') && forall j :: 0 <= j < k ==> Passed(c, im, fd, s, j)
    ensures forall j :: 0 <= j < k ==> Passed(c, im, fd', s, j)
  {
    forall j | 0 <= j < k
      ensures Passed(c, im, fd', s, j)
    {
      assert Passed(c, im, fd, s, j);
    }
  }

  /** Every sector scanned so far ends where it should. */
  ghost predicate AllStop(c: Config, im: Image, st: State, s: nat)
    requires |st.pos| == c.sectors && s <= c.sectors
  {
    forall t :: 0 <= t < s ==> Stops(c, im, st.fd, t, st.pos[t])
  }

  /** A sector that is partly written, seen from its end. */
  predicate Partly(c: Config, im: Image, pos: seq<nat>, t: nat)
    requires t < |pos|
  {
    0 < pos[t] < c.slots && BlankAt(im, t, pos[t])
  }

  predicate Empty(c: Config, im: Image, pos: seq<nat>, t: nat)
    requires t < |pos|
  {
    pos[t] == 0 && 0 < c.slots && BlankAt(im, t, 0)
  }

  /** What the loop of `fs_init` remembers of the sectors before `s`. */
  ghost predicate Remembers(c: Config, im: Image, pos: seq<nat>, s: nat, cur: nat, blank: nat, found: bool) {
    && |pos| == c.sectors && s <= c.sectors
    && (found ==> cur < s && Partly(c, im, pos, cur))
    && (forall t :: (if found then cur + 1 else 0) <= t < s ==> !Partly(c, im, pos, t))
    && (blank == 0 || (blank < s && Empty(c, im, pos, blank)))
    && (forall t :: blank < t < s ==> !Empty(c, im, pos, t))
  }

  /** Where writing starts: in the last partly written sector, else in the last blank
      one, else in sector 0. */
  ghost predicate Current(c: Config, im: Image, pos: seq<nat>, cur: nat)
    requires |pos| == c.sectors
  {
    && cur < c.sectors
    && (Partly(c, im, pos, cur) || forall t :: 0 <= t < c.sectors ==> !Partly(c, im, pos, t))
    && (Partly(c, im, pos, cur) ==> forall t :: cur < t < c.sectors ==> !Partly(c, im, pos, t))
    && (!Partly(c, im, pos, cur) ==>
          && (Empty(c, im, pos, cur) || cur == 0)
          && forall t :: cur < t < c.sectors ==> !Empty(c, im, pos, t))
  }

  lemma RememberNext(c: Config, im: Image, pos: seq<nat>, s: nat, cur: nat, blank: nat, found: bool, p: nat, code: int)
    requires Remembers(c, im, pos, s, cur, blank, found) && s < c.sectors && Verdict(c, im, s, p, code) && p <= c.slots
    requires 0 < c.slots
    ensures Remembers(c, im, pos[s := p], s + 1, if code == 1 then s else cur, if code == 0 then s else blank,
              found || code == 1)
  {
    var pos' := pos[s := p];
    assert forall t :: 0 <= t < s ==>
        (Partly(c, im, pos', t) <==> Partly(c, im, pos, t)) && (Empty(c, im, pos', t) <==> Empty(c, im, pos, t));
    assert Partly(c, im, pos', s) <==> code == 1;
    assert Empty(c, im, pos', s) <==> code == 0;
  }

  /** The loop of `fs_init` from sector `s` on. */
  lemma {:induction false} InitAny(c: Config, im: Image, st: State, s: nat, blank: nat, found: bool)
    requires Shape(c, st) && Sound(c, im, st, s, 0) && s <= c.sectors && blank < c.sectors && AllStop(c, im, st, s)
    requires Remembers(c, im, st.pos, s, st.cur, blank, found)
    ensures var b := InitFrom(c, st, s, blank, found);
            && Sound(c, im, b, c.sectors, 0) && AllStop(c, im, b, c.sectors)
            && Current(c, im, b.pos, b.cur) && b.pc == Wait555
    decreases c.sectors - s
  {
    hide Find, Good, Dims, Listed, Cleaned, Stops, Partly, Empty, InitFileDescriptors;
    if s < c.sectors {
      ScanSector(c, im, st, s, 0);
      var (st1, code) := InitFileDescriptors(c, st, s, 0);
      var p := st1.pos[s];
      SkipSound(c, im, st1, s, p);
      StopBound(c, im, st1.fd, s, p);
      RememberNext(c, im, st.pos, s, st.cur, blank, found, p, code);
      forall t | 0 <= t < s
        ensures Stops(c, im, st1.fd, t, st1.pos[t])
      {
        StopsStill(c, im, st.fd, t, st.pos[t], st1.fd);
      }
      var next := if code == 1 then st1.(cur := s) else st1;
      InitAny(c, im, next, s + 1, if code == 0 then s else blank, found || code == 1);
    }
  }

  lemma StopBound(c: Config, im: Image, fd: seq<Fd>, s: nat, p: nat)
    requires Stops(c, im, fd, s, p)
    ensures p <= c.slots
  {
    hide Passed, Lost;
  }

  /** A boot of any image: the index, the flash, where each sector ends and where
      writing goes on. */
  lemma BootOfAny(c: Config, im: Image)
    requires ValidConfig(c) && Dims(c, im)
    ensures var b := Boot(c, im);
            && Listed(c, im, b.flash, b.fd, c.sectors, 0) && |b.fd| <= c.fdMax
            && Cleaned(c, im, b.flash, b.fd, c.sectors, 0)
            && |b.pos| == c.sectors && (forall s :: 0 <= s < c.sectors ==> Stops(c, im, b.fd, s, b.pos[s]))
            && Current(c, im, b.pos, b.cur) && b.pc == Wait555
  {
    hide InitFrom, Listed, Stops, Partly, Empty;
    var z := ZeroRam(c, im);
    ZeroSound(c, im);
    hide ZeroRam, Cleaned, Dims;
    InitAny(c, im, z, 0, 0, false);
  }

  lemma ZeroSound(c: Config, im: Image)
    requires ValidConfig(c) && Dims(c, im)
    ensures Sound(c, im, ZeroRam(c, im), 0, 0)
  {
  }

  // ---------------------------------------------------------------- more variables than descriptors

  /** The variables that a scan can meet. */
  ghost function Variables(c: Config, im: Image): set<Key> {
    set a | a in im && ValidAt(c, im, a) && Written(im, a.sector, a.slot) :: KeyAt(im, a)
  }

  lemma ListedKeys(c: Config, im: Image, flash: Image, fd: seq<Fd>, s: nat, k: nat)
    requires Listed(c, im, flash, fd, s, k)
    ensures Keys(fd) <= Variables(c, im) && |Keys(fd)| == |fd|
    ensures forall key :: key in Keys(fd) <==> Known(fd, key)
  {
    hide Good, Find, Written;
    KeysCount(fd);
    forall key
      ensures key in Keys(fd) <==> Known(fd, key)
    {
      KnownKeys(fd, key);
    }
    forall i | 0 <= i < |fd|
      ensures KeyOf(fd[i].header) in Variables(c, im)
    {
      assert Offers(c, im, fd[i].address, KeyOf(fd[i].header));
    }
  }

  lemma LostVariable(c: Config, im: Image, fd: seq<Fd>, s: nat, p: nat)
    requires Stops(c, im, fd, s, p) && p < c.slots && !BlankAt(im, s, p)
    ensures Addr(s, p) in im && KeyAt(im, Addr(s, p)) in Variables(c, im) && !Known(fd, KeyAt(im, Addr(s, p)))
    ensures |fd| == c.fdMax
  {
    hide Good, Find, Earlier;
    PassedIsWritten(c, im, fd, s, p);
  }

  lemma MetVariable(c: Config, im: Image, fd: seq<Fd>, a: Addr, p: nat)
    requires Stops(c, im, fd, a.sector, p) && (p == c.slots || BlankAt(im, a.sector, p))
    requires Dims(c, im) && ValidAt(c, im, a) && Written(im, a.sector, a.slot)
    ensures Known(fd, KeyAt(im, a))
  {
    hide Find, HashOf;
    if a.slot < p { assert Passed(c, im, fd, a.sector, a.slot); }
  }

  /** A boot indexes every variable if and only if there are at most `fdMax` of them.
      Otherwise the table is full, and in some sector the scan gave up before a valid
      cell: the write pointer stays there, on a programmed slot. */
  lemma TableOverflow(c: Config, im: Image)
    requires ValidConfig(c) && Dims(c, im)
    ensures var b := Boot(c, im);
            && |b.pos| == c.sectors && Keys(b.fd) <= Variables(c, im)
            && (|Variables(c, im)| <= c.fdMax ==>
                  && Keys(b.fd) == Variables(c, im)
                  && forall s :: 0 <= s < c.sectors ==> b.pos[s] == c.slots || BlankAt(im, s, b.pos[s]))
            && (|Variables(c, im)| > c.fdMax ==>
                  |b.fd| == c.fdMax && exists s :: 0 <= s < c.sectors && Lost(c, im, b.fd, s, b.pos[s]))
  {
    hide Good, Find, Written, Boot, Cleaned, Current, Dims, Known, ValidAt;
    BootOfAny(c, im);
    var b := Boot(c, im);
    ListedKeys(c, im, b.flash, b.fd, c.sectors, 0);
    hide Listed, Keys, Variables, BlankAt;
    if s :| 0 <= s < c.sectors && b.pos[s] < c.slots && !BlankAt(im, s, b.pos[s]) {
      LostVariable(c, im, b.fd, s, b.pos[s]);
      SubsetSmaller(Keys(b.fd) + {KeyAt(im, Addr(s, b.pos[s]))}, Variables(c, im));
    } else {
      AllMet(c, im, b);
      assert Keys(b.fd) == Variables(c, im);
    }
  }

  lemma AllMet(c: Config, im: Image, b: State)
    requires Dims(c, im) && |b.pos| == c.sectors && forall s :: 0 <= s < c.sectors ==> Stops(c, im, b.fd, s, b.pos[s])
    requires forall s :: 0 <= s < c.sectors ==> b.pos[s] == c.slots || BlankAt(im, s, b.pos[s])
    requires forall key :: key in Keys(b.fd) <==> Known(b.fd, key)
    ensures Variables(c, im) <= Keys(b.fd)
  {
    hide Good, Find, Keys, Known, Stops, BlankAt;
    forall a | a in im && ValidAt(c, im, a) && Written(im, a.sector, a.slot)
      ensures KeyAt(im, a) in Keys(b.fd)
    {
      MetVariable(c, im, b.fd, a, b.pos[a.sector]);
    }
  }
}
