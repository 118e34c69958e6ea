/** Every slot of the device is free, live or dead, and what a relocation pass gains
    in free slots is exactly what it loses in dead ones (wormvars.c:552-632). */
module Conservation {
  import opened Arithmetic
  import opened Block
  import opened Store
  import opened Images
  import opened Invariant
  import opened Writing
  import opened Collector
  import opened Progress

  /** Cells that were never programmed since the last erase of their sector. */
  ghost function FreeCells(im: Image): set<Addr> {
    set a | a in im && im[a].hdr == BLANK_HEADER
  }

  ghost function LiveCells(c: Config, im: Image): set<Addr> {
    set a | a in im && im[a].hdr != BLANK_HEADER && ValidAt(c, im, a)
  }

  /** Programmed cells that hold no variable any more. */
  ghost function DeadCells(c: Config, im: Image): set<Addr> {
    set a | a in im && im[a].hdr != BLANK_HEADER && !ValidAt(c, im, a)
  }

  // ---------------------------------------------------------------- counting

  lemma {:induction false} RowSize(s: nat, k: nat)
    ensures |Row(s, k)| == k
  {
    if k > 0 {
      RowSize(s, k - 1);
      UnionSize(Row(s, k - 1), {Addr(s, k - 1)});
    }
  }

  lemma {:induction false} AddRow(x: set<Addr>, n: nat, k: nat)
    requires forall a :: a in x ==> a.sector < n
    ensures |x + Row(n, k)| == |x| + k
  {
    RowSize(n, k);
    UnionSize(x, Row(n, k));
  }

  /** The programmed prefix of each of the first `n` sectors. */
  ghost function Prefixes(pos: seq<nat>, n: nat): set<Addr>
    requires n <= |pos|
  {
    if n == 0 then {} else Prefixes(pos, n - 1) + Row(n - 1, pos[n - 1])
  }

  lemma {:induction false} PrefixesMembers(pos: seq<nat>, n: nat)
    requires n <= |pos|
    ensures forall a :: a in Prefixes(pos, n) <==> a.sector < n && a.slot < pos[a.sector]
  {
    hide Row;
    if n > 0 { PrefixesMembers(pos, n - 1); }
  }

  lemma {:induction false} PrefixesBelow(pos: seq<nat>, n: nat)
    requires n <= |pos|
    ensures forall a :: a in Prefixes(pos, n) ==> a.sector < n
  {
    hide Prefixes;
    PrefixesMembers(pos, n);
  }

  lemma {:induction false} NoPrefixes(pos: seq<nat>)
    ensures |Prefixes(pos, 0)| == 0
  {
  }

  lemma PrefixStep(pos: seq<nat>, n: nat)
    requires 0 < n <= |pos|
    ensures |Prefixes(pos, n)| == |Prefixes(pos, n - 1)| + pos[n - 1]
  {
    hide Row;
    PrefixesBelow(pos, n - 1);
    AddRow(Prefixes(pos, n - 1), n - 1, pos[n - 1]);
  }

  lemma {:induction false} PrefixesSize(c: Config, pos: seq<nat>, n: nat)
    requires n <= |pos|
    ensures FreeUpTo(c, pos, n) + |Prefixes(pos, n)| == Capacity(n, c.slots)
  {
    hide Prefixes;
    if n == 0 {
      NoPrefixes(pos);
    } else {
      PrefixesSize(c, pos, n - 1);
      PrefixStep(pos, n);
    }
  }

  lemma {:induction false} SameKeys(c: Config, im: Image, full: seq<nat>)
    requires Dims(c, im) && |full| == c.sectors && forall s :: 0 <= s < |full| ==> full[s] == c.slots
    ensures im.Keys == Prefixes(full, c.sectors)
  {
    hide Prefixes;
    PrefixesMembers(full, c.sectors);
  }

  lemma ImageSize(c: Config, im: Image)
    requires Dims(c, im)
    ensures |im.Keys| == c.sectors * c.slots
  {
    hide FreeUpTo, Prefixes, Capacity;
    var full := seq(c.sectors, s => c.slots);
    PrefixesSize(c, full, c.sectors);
    FreeNone(c, full, c.sectors);
    CapacityIsProduct(c.sectors, c.slots);
    SameKeys(c, im, full);
  }

  ghost function Addresses(fd: seq<Fd>): set<Addr> {
    set i | 0 <= i < |fd| :: fd[i].address
  }

  lemma {:induction false} AddressesSize(fd: seq<Fd>)
    requires forall i, j :: 0 <= i < j < |fd| ==> fd[i].address != fd[j].address
    ensures |Addresses(fd)| == |fd|
  {
    if fd != [] {
      var n := |fd| - 1;
      AddressesSize(fd[..n]);
      forall a
        ensures a in Addresses(fd) <==> a in Addresses(fd[..n]) + {fd[n].address}
      {
        if a in Addresses(fd[..n]) {
          var i :| 0 <= i < n && fd[..n][i].address == a;
          assert fd[i].address == a;
        }
        if a in Addresses(fd) {
          var i :| 0 <= i < |fd| && fd[i].address == a;
          assert i < n ==> fd[..n][i].address == a;
        }
      }
      assert Addresses(fd) == Addresses(fd[..n]) + {fd[n].address};
      assert fd[n].address !in Addresses(fd[..n]);
    }
  }

  // ---------------------------------------------------------------- the three kinds

  lemma LiveAreEntries(c: Config, st: State)
    requires Indexed(c, st)
    ensures LiveCells(c, st.flash) == Addresses(st.fd) && |LiveCells(c, st.flash)| == |st.fd|
  {
    hide Find, Good, Indexed;
    forall a
      ensures a in LiveCells(c, st.flash) <==> a in Addresses(st.fd)
    {
      if a in LiveCells(c, st.flash) {
        ValidIsEntry(c, st, a);
      }
      if a in Addresses(st.fd) {
        var i :| 0 <= i < |st.fd| && st.fd[i].address == a;
        EntryIsValid(c, st, i);
        GoodIsProgrammed(c.crc, st.flash[a]);
      }
    }
    forall i, j | 0 <= i < j < |st.fd|
      ensures st.fd[i].address != st.fd[j].address
    {
      AddressesDistinct(c, st, i, j);
    }
    AddressesSize(st.fd);
  }

  lemma ProgrammedArePrefixes(c: Config, st: State)
    requires Indexed(c, st)
    ensures |st.pos| == c.sectors
    ensures LiveCells(c, st.flash) + DeadCells(c, st.flash) == Prefixes(st.pos, c.sectors)
    ensures FreeCells(st.flash) == st.flash.Keys - Prefixes(st.pos, c.sectors)
    ensures Prefixes(st.pos, c.sectors) <= st.flash.Keys
  {
    hide Find, Good, Where, LiveAt, Distinct, Entries, Prefixes;
    PrefixesMembers(st.pos, c.sectors);
    forall a | a in st.flash
      ensures InRange(c, a) && (st.flash[a].hdr != BLANK_HEADER <==> a.slot < st.pos[a.sector])
    {
    }
    forall a | a in Prefixes(st.pos, c.sectors)
      ensures a in st.flash
    {
      assert InRange(c, a);
    }
  }

  lemma IndexedDims(c: Config, st: State)
    requires Indexed(c, st)
    ensures Dims(c, st.flash)
  {
    hide Find, Reads, Distinct, Entries;
  }

  /** Conservation: in every state that keeps the invariant, hence at every step of
      every run, the free, live and dead slots make up the whole device, the free
      ones are what the write pointers leave, and the live ones are one for each
      variable. */
  lemma SlotsConserved(c: Config, st: State)
    requires Indexed(c, st)
    ensures |FreeCells(st.flash)| + |LiveCells(c, st.flash)| + |DeadCells(c, st.flash)| == c.sectors * c.slots
    ensures |FreeCells(st.flash)| == Free(c, st.pos) && |LiveCells(c, st.flash)| == |Vars(c, st)|
  {
    hide Find, Good, Indexed, Contents, ValidAt, Prefixes, FreeUpTo, Capacity;
    ProgrammedArePrefixes(c, st);
    LiveAreEntries(c, st);
    FitsByVars(c, st, Key(0, 0));
    PrefixesSize(c, st.pos, c.sectors);
    IndexedDims(c, st);
    ImageSize(c, st.flash);
    CapacityIsProduct(c.sectors, c.slots);
    UnionSize(LiveCells(c, st.flash), DeadCells(c, st.flash));
    DifferenceSize(st.flash.Keys, Prefixes(st.pos, c.sectors));
  }

  /** A whole pass turns exactly `slots - live` dead slots into free ones, one fewer
      if it changes sector, and leaves the number of live ones alone. */
  lemma {:induction false} PassConserves(c: Config, st: State, v: nat, calls: seq<(bool, Env)>)
    requires Inv(c, st) && Ring(c, st) && st.pc == Yield556 && FindRelocSector(c, st.fd, st.pos, st.cur) == Some(v)
    requires AllReady(calls) && |calls| == 2 * CountIn(st.fd, v) + 1
    requires Free(c, st.pos) >= CountIn(st.fd, v) + Blanks(c, st)
    ensures var live := CountIn(st.fd, v);
            var change := if live > c.slots - st.pos[st.cur] then 1 else 0;
            var im, im' := st.flash, Collect(c, st, calls).flash;
            && |DeadCells(c, im)| - |DeadCells(c, im')| == c.slots - live - change == |FreeCells(im')| - |FreeCells(im)|
            && |LiveCells(c, im')| == |LiveCells(c, im)|
  {
    hide Indexed, Collecting, Ring, Collect, FindRelocSector, CountIn, Free, Contents, DeadCells, LiveCells,
      FreeCells, BlankCount, AllReady;
    WholePass(c, st, v, calls);
    SlotsConserved(c, st);
    SlotsConserved(c, Collect(c, st, calls));
  }
}
