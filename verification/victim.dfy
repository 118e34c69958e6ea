/** The choice of the sector to relocate (wormvars.c:496-549) and the counting
    argument behind the limit on FD_MAX (wormvars.c:101-104). */
module Victim {
  import opened Arithmetic
  import opened Block
  import opened Store
  import opened Images
  import opened Invariant
  import Writing

  /** Steps from the current sector to `s`, walking upwards and around. */
  function Distance(c: Config, cur: nat, s: nat): nat
    requires cur < c.sectors && s < c.sectors
  {
    if s >= cur then s - cur else s + c.sectors - cur
  }

  function Visited(c: Config, cur: nat, i: nat): nat
    requires 0 < c.sectors
  {
    (cur + i) % c.sectors
  }

  lemma DistanceVisits(c: Config, cur: nat, s: nat)
    requires cur < c.sectors && s < c.sectors
    ensures Distance(c, cur, s) < c.sectors && Visited(c, cur, Distance(c, cur, s)) == s
  {
  }

  lemma VisitedDistance(c: Config, cur: nat, i: nat)
    requires cur < c.sectors && i < c.sectors
    ensures Visited(c, cur, i) < c.sectors && Distance(c, cur, Visited(c, cur, i)) == i
  {
    if cur + i < c.sectors {
      assert (cur + i) % c.sectors == cur + i;
    } else {
      assert (cur + i) % c.sectors == cur + i - c.sectors;
    }
  }

  /** The running minimum: no candidate seen yet is below it, and if it is below
      a full sector's worth it belongs to the first sector that attains it. */
  lemma {:induction false} BestSoFar(c: Config, fd: seq<Fd>, pos: seq<nat>, cur: nat, n: nat)
    requires |pos| == c.sectors && cur < c.sectors && n <= c.sectors
    ensures Best(c, fd, pos, cur, n).0 <= c.slots
    ensures Best(c, fd, pos, cur, n).0 == c.slots ==> Best(c, fd, pos, cur, n).1 == 0
    ensures forall i :: 0 <= i < n && Candidate(c, pos, cur, Visited(c, cur, i)) ==>
              Best(c, fd, pos, cur, n).0 <= CountIn(fd, Visited(c, cur, i))
    ensures Best(c, fd, pos, cur, n).0 < c.slots ==>
              var v := Best(c, fd, pos, cur, n).1;
              && Candidate(c, pos, cur, v) && CountIn(fd, v) == Best(c, fd, pos, cur, n).0 && Distance(c, cur, v) < n
              && forall i :: 0 <= i < Distance(c, cur, v) && Candidate(c, pos, cur, Visited(c, cur, i)) ==>
                   CountIn(fd, v) < CountIn(fd, Visited(c, cur, i))
  {
    if n > 0 {
      BestSoFar(c, fd, pos, cur, n - 1);
      VisitedDistance(c, cur, n - 1);
      hide CountIn, Candidate;
    }
  }

  // ---------------------------------------------------------------- without counters

  ghost function BlankSectors(pos: seq<nat>, cur: nat, n: nat): set<nat>
    requires n <= |pos|
  {
    set s: nat | s < n && s != cur && pos[s] == 0
  }

  lemma {:induction false} BlankCountIs(c: Config, pos: seq<nat>, cur: nat, n: nat)
    requires |pos| == c.sectors && n <= c.sectors
    ensures BlankCount(c, pos, cur, n) == |BlankSectors(pos, cur, n)|
  {
    if n == 0 {
      assert BlankSectors(pos, cur, 0) == {};
    } else {
      BlankCountIs(c, pos, cur, n - 1);
      if n - 1 != cur && pos[n - 1] == 0 {
        assert BlankSectors(pos, cur, n) == BlankSectors(pos, cur, n - 1) + {n - 1};
      } else {
        assert BlankSectors(pos, cur, n) == BlankSectors(pos, cur, n - 1);
      }
    }
  }

  ghost function Live(fd: seq<Fd>, s: nat): set<nat> {
    set i: nat | i < |fd| && fd[i].sector == s
  }

  lemma {:induction false} CountInIs(fd: seq<Fd>, s: nat)
    ensures CountIn(fd, s) == |Live(fd, s)|
  {
    if fd == [] {
      assert Live(fd, s) == {};
    } else {
      var n := |fd| - 1;
      CountInIs(fd[..n], s);
      assert Live(fd, s) == Live(fd[..n], s) + if fd[n].sector == s then {n} else {};
    }
  }

  /** Full, not current, and with at least one dead cell. */
  ghost predicate Eligible(c: Config, fd: seq<Fd>, pos: seq<nat>, cur: nat, s: nat)
    requires |pos| == c.sectors
  {
    s < c.sectors && s != cur && pos[s] >= c.slots && |Live(fd, s)| < c.slots
  }

  /** Fewer variables in `v` than in `s`, or as many and `v` comes first, upwards and
      around from the current sector. */
  ghost predicate Beats(fd: seq<Fd>, cur: nat, v: nat, s: nat) {
    || |Live(fd, v)| < |Live(fd, s)|
    || (|Live(fd, v)| == |Live(fd, s)| && if s > cur then cur < v < s else v > cur || v < s)
  }

  lemma CountsAreLive(fd: seq<Fd>)
    ensures forall s :: CountIn(fd, s) == |Live(fd, s)|
  {
    forall s
      ensures CountIn(fd, s) == |Live(fd, s)|
    {
      CountInIs(fd, s);
    }
  }

  lemma {:induction false} WinnerIs(c: Config, fd: seq<Fd>, pos: seq<nat>, cur: nat, s: nat)
    requires |pos| == c.sectors && cur < c.sectors && 0 < c.slots && Eligible(c, fd, pos, cur, s)
    ensures var v := Best(c, fd, pos, cur, c.sectors).1;
            Eligible(c, fd, pos, cur, v) && (s != v ==> Beats(fd, cur, v, s))
  {
    hide Best, Live, CountIn, Visited;
    CountsAreLive(fd);
    BestSoFar(c, fd, pos, cur, c.sectors);
    DistanceVisits(c, cur, s);
  }

  /** `findRelocSector` on any state. It reports nothing if and only if enough sectors
      besides the current one are blank. Otherwise it reports the eligible sector that
      beats every other, or 0 if none is eligible. */
  lemma {:induction false} Chosen(c: Config, fd: seq<Fd>, pos: seq<nat>, cur: nat)
    requires |pos| == c.sectors && cur < c.sectors && 0 < c.slots
    ensures FindRelocSector(c, fd, pos, cur) == None <==> |BlankSectors(pos, cur, c.sectors)| >= c.minBlank
    ensures var r := FindRelocSector(c, fd, pos, cur);
            r.Some? ==>
              && (forall s :: Eligible(c, fd, pos, cur, s) ==>
                    Eligible(c, fd, pos, cur, r.value) && (s != r.value ==> Beats(fd, cur, r.value, s)))
              && ((forall s: nat :: !Eligible(c, fd, pos, cur, s)) ==> r.value == 0)
  {
    hide Best, BlankSectors, BlankCount, CountIn, Live, Beats;
    BlankCountIs(c, pos, cur, c.sectors);
    forall s | Eligible(c, fd, pos, cur, s)
      ensures Eligible(c, fd, pos, cur, Best(c, fd, pos, cur, c.sectors).1)
      ensures s != Best(c, fd, pos, cur, c.sectors).1 ==> Beats(fd, cur, Best(c, fd, pos, cur, c.sectors).1, s)
    {
      WinnerIs(c, fd, pos, cur, s);
    }
    CountsAreLive(fd);
    BestSoFar(c, fd, pos, cur, c.sectors);
    var best := Best(c, fd, pos, cur, c.sectors);
    assert best.0 < c.slots ==> Eligible(c, fd, pos, cur, best.1);
  }

  // ---------------------------------------------------------------- pigeonhole

  function CandidateCount(c: Config, pos: seq<nat>, cur: nat, n: nat): nat
    requires |pos| == c.sectors && n <= c.sectors
  {
    if n == 0 then 0
    else CandidateCount(c, pos, cur, n - 1) + if Candidate(c, pos, cur, n - 1) then 1 else 0
  }

  function CandidateTotal(c: Config, fd: seq<Fd>, pos: seq<nat>, cur: nat, n: nat): nat
    requires |pos| == c.sectors && n <= c.sectors
  {
    if n == 0 then 0
    else CandidateTotal(c, fd, pos, cur, n - 1) + if Candidate(c, pos, cur, n - 1) then CountIn(fd, n - 1) else 0
  }

  /** Every sector is current, blank or a candidate. */
  lemma {:induction false} SectorsSplit(c: Config, pos: seq<nat>, cur: nat, n: nat)
    requires |pos| == c.sectors && cur < c.sectors && n <= c.sectors && 0 < c.slots
    requires forall s :: 0 <= s < c.sectors && s != cur ==> pos[s] == 0 || pos[s] == c.slots
    ensures CandidateCount(c, pos, cur, n) + BlankCount(c, pos, cur, n) + (if cur < n then 1 else 0) == n
  {
    if n > 0 { SectorsSplit(c, pos, cur, n - 1); }
  }

  lemma {:induction false} TotalOfPrefix(c: Config, fd: seq<Fd>, pos: seq<nat>, cur: nat, n: nat)
    requires |pos| == c.sectors && n <= c.sectors && fd != []
    ensures CandidateTotal(c, fd, pos, cur, n) <=
            CandidateTotal(c, fd[..|fd| - 1], pos, cur, n) + if fd[|fd| - 1].sector < n then 1 else 0
  {
    if n > 0 { TotalOfPrefix(c, fd, pos, cur, n - 1); }
  }

  lemma {:induction false} TotalBound(c: Config, fd: seq<Fd>, pos: seq<nat>, cur: nat, n: nat)
    requires |pos| == c.sectors && n <= c.sectors
    ensures CandidateTotal(c, fd, pos, cur, n) <= |fd|
  {
    if fd == [] {
      if n > 0 { TotalBound(c, fd, pos, cur, n - 1); }
    } else {
      TotalBound(c, fd[..|fd| - 1], pos, cur, n);
      TotalOfPrefix(c, fd, pos, cur, n);
    }
  }

  lemma {:induction false} TotalAtLeast(c: Config, fd: seq<Fd>, pos: seq<nat>, cur: nat, n: nat, q: nat)
    requires |pos| == c.sectors && n <= c.sectors
    requires forall s :: 0 <= s < n && Candidate(c, pos, cur, s) ==> q <= CountIn(fd, s)
    ensures q * CandidateCount(c, pos, cur, n) <= CandidateTotal(c, fd, pos, cur, n)
  {
    if n > 0 {
      TotalAtLeast(c, fd, pos, cur, n - 1, q);
      MulSuccessor(q, CandidateCount(c, pos, cur, n - 1));
    }
  }

  // ---------------------------------------------------------------- the counters

  ghost function SlotsIn(fd: seq<Fd>, s: nat): set<nat> {
    set i | 0 <= i < |fd| && fd[i].sector == s :: fd[i].address.slot
  }

  lemma SlotsOfPrefix(fd: seq<Fd>, s: nat)
    requires fd != []
    ensures var last := fd[|fd| - 1];
            SlotsIn(fd, s) == SlotsIn(fd[..|fd| - 1], s) + if last.sector == s then {last.address.slot} else {}
  {
    var n := |fd| - 1;
    forall k
      ensures k in SlotsIn(fd, s) <==> k in SlotsIn(fd[..n], s) + if fd[n].sector == s then {fd[n].address.slot} else {}
    {
      if k in SlotsIn(fd[..n], s) {
        var i :| 0 <= i < n && fd[..n][i].sector == s && fd[..n][i].address.slot == k;
        assert fd[i].sector == s;
      }
      if k in SlotsIn(fd, s) {
        var i :| 0 <= i < |fd| && fd[i].sector == s && fd[i].address.slot == k;
        assert i < n ==> fd[..n][i].sector == s;
      }
    }
  }

  lemma {:induction false} CountIsSlots(fd: seq<Fd>, s: nat)
    requires forall i, j :: 0 <= i < j < |fd| && fd[i].sector == s == fd[j].sector ==>
        fd[i].address.slot != fd[j].address.slot
    ensures CountIn(fd, s) == |SlotsIn(fd, s)|
  {
    if fd == [] {
      assert SlotsIn(fd, s) == {};
    } else {
      var n := |fd| - 1;
      CountIsSlots(fd[..n], s);
      SlotsOfPrefix(fd, s);
    }
  }

  /** The `u8_t` counters of the histogram never wrap: a sector has at most
      `slots <= 255` live cells. */
  lemma {:induction false} CountersFit(c: Config, st: State, s: nat)
    requires Indexed(c, st)
    ensures CountIn(st.fd, s) <= c.slots <= 255
  {
    hide Reads, Find, Good, Where, Distinct;
    forall i, j | 0 <= i < j < |st.fd| && st.fd[i].sector == s == st.fd[j].sector
      ensures st.fd[i].address.slot != st.fd[j].address.slot
    {
      Writing.AddressesDistinct(c, st, i, j);
    }
    CountIsSlots(st.fd, s);
    BelowBound(SlotsIn(st.fd, s), c.slots);
  }

  /** Whenever `findRelocSector` reports a victim it is full and not current, has
      the fewest live variables, is the first such sector in circular order, and
      has at most `fd_index / (sectors - minBlank)` of them. The initial value 0
      of `reloc` is never what is returned. */
  lemma {:induction false} VictimChoice(c: Config, st: State, v: nat)
    requires Indexed(c, st) && FindRelocSector(c, st.fd, st.pos, st.cur) == Some(v)
    ensures v < c.sectors && v != st.cur && st.pos[v] == c.slots
    ensures CountIn(st.fd, v) * (c.sectors - c.minBlank) <= |st.fd| && CountIn(st.fd, v) < c.slots
    ensures forall s :: 0 <= s < c.sectors && s != st.cur && st.pos[s] == c.slots ==>
              && CountIn(st.fd, v) <= CountIn(st.fd, s)
              && (CountIn(st.fd, v) == CountIn(st.fd, s) ==> Distance(c, st.cur, v) <= Distance(c, st.cur, s))
  {
    hide Find, Good, Where, Distinct, Entries, LiveAt, Dims, Best, CountIn, Capacity;
    CapacityIsProduct(c.sectors - c.minBlank - 1, c.slots);
    var best := Best(c, st.fd, st.pos, st.cur, c.sectors);
    BestSoFar(c, st.fd, st.pos, st.cur, c.sectors);
    forall s | 0 <= s < c.sectors && Candidate(c, st.pos, st.cur, s)
      ensures best.0 <= CountIn(st.fd, s)
    {
      DistanceVisits(c, st.cur, s);
    }
    SectorsSplit(c, st.pos, st.cur, c.sectors);
    TotalAtLeast(c, st.fd, st.pos, st.cur, c.sectors, best.0);
    TotalBound(c, st.fd, st.pos, st.cur, c.sectors);
    var k := CandidateCount(c, st.pos, st.cur, c.sectors);
    Pigeonhole(best.0, k, c.sectors - c.minBlank, |st.fd|, c.slots);
    forall s | 0 <= s < c.sectors && s != st.cur && st.pos[s] == c.slots
      ensures CountIn(st.fd, best.1) <= CountIn(st.fd, s)
      ensures CountIn(st.fd, best.1) == CountIn(st.fd, s) ==> Distance(c, st.cur, best.1) <= Distance(c, st.cur, s)
    {
      DistanceVisits(c, st.cur, s);
      assert Candidate(c, st.pos, st.cur, s);
    }
  }

  lemma Pigeonhole(least: nat, candidates: nat, atLeast: nat, total: nat, slots: nat)
    requires atLeast <= candidates && least * candidates <= total && total <= (atLeast - 1) * slots
    requires 1 <= atLeast && 0 < slots
    requires least <= slots
    ensures least * atLeast <= total && least < slots
  {
    assert least * atLeast <= least * candidates;
    assert least == slots ==> slots * atLeast == (atLeast - 1) * slots + slots;
  }
}
