/** What one call of `fs_thread` does from each of its resume points, and when it does
    nothing (wormvars.c:552-632). */
module Threading {
  import opened Block
  import opened Store
  import opened Images
  import opened Invariant
  import opened Writing
  import opened Collector
  import opened Progress
  import Victim

  /** The three waits: nothing at all changes until the timer has expired or a pass is
      forced, or until the device is ready; then the resume point moves on. */
  lemma {:induction false} Waits(c: Config, st: State, flag: bool, env: Env)
    requires Ring(c, st)
    ensures var st' := FsThread(c, st, flag, env);
            && (st.pc == Wait555 && !flag && !env.expired ==> st' == st)
            && ((st.pc == Wait576 || st.pc == Wait622) && !env.ready ==> st' == st)
            && (st.pc == Wait555 ==> (st'.pc != Wait555 <==> flag || env.expired))
            && (st.pc == Wait576 ==> (st'.pc != Wait576 <==> env.ready))
            && (st.pc == Wait622 ==> (st'.pc != Wait622 <==> env.ready))
            && (st.pc == Wait555 && (flag || env.expired) ==> st' == st.(pc := Yield556))
  {
    hide Dims;
  }

  /** Descriptor `j` is the next one from `i` on that points into the victim. */
  predicate NextLive(fd: seq<Fd>, v: nat, i: nat, j: nat) {
    i <= j < |fd| && fd[j].sector == v && forall k :: i <= k < j ==> fd[k].sector != v
  }

  /** The victim is erased: its cells read 0xFF, its pointer is at its first slot. */
  ghost predicate Erased(st: State, v: nat, st': State) {
    && v < |st.pos| && st'.pos == st.pos[v := 0] && st'.log == st.log + [st'.flash]
    && st'.flash.Keys == st.flash.Keys
    && (forall a :: a in st.flash && a.sector == v ==> st'.flash[a] == BLANK_CELL)
    && (forall a :: a in st.flash && a.sector != v ==> st'.flash[a] == st.flash[a])
  }

  lemma EraseIs(c: Config, st: State)
    requires Ring(c, st)
    ensures var st' := EraseVictim(c, st);
            && Erased(st, st.reloc.sector, st')
            && st' == st.(flash := st'.flash, log := st'.log, pos := st'.pos, pc := Wait555)
  {
  }

  /** The relocation loop from index `i` on: the next descriptor in the victim is copied,
      and its cell read as soon as the device is ready; if there is none the victim is
      erased as soon as the device is ready. */
  lemma {:induction false} LoopOutcome(c: Config, st: State, i: nat, env: Env)
    requires Ring(c, st) && i <= |st.fd|
    ensures var st' := RelocLoop(c, st, i, env);
            var v := st.reloc.sector;
            && (forall j: nat :: NextLive(st.fd, v, i, j) ==>
                  var e := st.fd[j];
                  e.address in st.flash
                  && st' == if env.ready then st.(reloc := Reloc(st.flash[e.address], e, v, j), pc := Yield596)
                            else st.(reloc := Reloc(st.reloc.buffer, e, v, j), pc := Wait576))
            && ((forall j :: i <= j < |st.fd| ==> st.fd[j].sector != v) ==>
                  && st'.fd == st.fd && st'.cur == st.cur && st'.reloc == st.reloc.(fdIndex := |st.fd|)
                  && (env.ready ==> st'.pc == Wait555 && Erased(st, v, st'))
                  && (!env.ready ==> st' == st.(reloc := st'.reloc, pc := Wait622)))
  {
    hide NextIn, EraseVictim;
    var next := NextIn(st.fd, st.reloc.sector, i);
    forall j: nat | NextLive(st.fd, st.reloc.sector, i, j)
      ensures j == next
    {
    }
    if next == |st.fd| {
      EraseIs(c, st.(reloc := st.reloc.(fdIndex := next), pc := Wait622));
    }
  }

  /** The yields: after Yield556 the choice of a victim, or nothing to do; after a
      read the move, unless the descriptor has been rewritten meanwhile; after a move
      the rest of the loop. */
  lemma {:induction false} Yields(c: Config, st: State, flag: bool, env: Env)
    requires Ring(c, st)
    ensures var st' := FsThread(c, st, flag, env);
            var choice := FindRelocSector(c, st.fd, st.pos, st.cur);
            && (st.pc == Yield556 && |Victim.BlankSectors(st.pos, st.cur, c.sectors)| >= c.minBlank ==>
                  st' == st.(pc := Wait555))
            && (st.pc == Yield556 && |Victim.BlankSectors(st.pos, st.cur, c.sectors)| < c.minBlank ==>
                  choice.Some? && st' == RelocLoop(c, st.(reloc := st.reloc.(sector := choice.value)), 0, env))
            && (st.pc == Yield596 && st.fd[st.reloc.fdIndex].address != st.reloc.fd.address ==>
                  st' == st.(pc := Yield617))
            && (st.pc == Yield617 ==> st' == RelocLoop(c, st, st.reloc.fdIndex + 1, env))
  {
    hide Dims, RelocLoop, FindRelocSector;
    Victim.Chosen(c, st.fd, st.pos, st.cur);
  }

  lemma {:induction false} LoopEnds(c: Config, st: State, i: nat, env: Env)
    requires Ring(c, st) && i <= |st.fd| && st.pos[st.reloc.sector] > 0
    ensures var st' := RelocLoop(c, st, i, env);
            (exists s :: 0 <= s < c.sectors && st.pos[s] > 0 && st'.pos[s] == 0)
            <==> st'.pc == Wait555 && |st'.log| > |st.log|
  {
    hide NextIn, RelocLoop, Dims;
    LoopOutcome(c, st, i, env);
    var j := NextIn(st.fd, st.reloc.sector, i);
    assert j < |st.fd| ==> NextLive(st.fd, st.reloc.sector, i, j);
  }

  /** A call erases a sector if and only if it takes the thread back to its start
      through a flash operation. */
  lemma {:induction false} EndsByErase(c: Config, st: State, flag: bool, env: Env)
    requires Inv(c, st) && Ring(c, st)
    ensures var st' := FsThread(c, st, flag, env);
            (exists s :: 0 <= s < c.sectors && st.pos[s] > 0 && st'.pos[s] == 0)
            <==> st'.pc == Wait555 && |st'.log| > |st.log|
  {
    hide Indexed, RelocLoop, FindRelocSector, Dims, Move, EraseVictim;
    match st.pc
    case Wait555 =>
    case Yield556 =>
      if FindRelocSector(c, st.fd, st.pos, st.cur).Some? {
        var v := FindRelocSector(c, st.fd, st.pos, st.cur).value;
        Victim.VictimChoice(c, st, v);
        LoopEnds(c, st.(reloc := st.reloc.(sector := v)), 0, env);
      }
    case Wait576 =>
    case Yield596 =>
      if st.fd[st.reloc.fdIndex].address == st.reloc.fd.address { MoveEndsNothing(c, st, env); }
    case Yield610 => MoveEndsNothing(c, st, env);
    case Yield617 => LoopEnds(c, st, st.reloc.fdIndex + 1, env);
    case Wait622 => EraseIs(c, st);
  }

  lemma {:induction false} MoveEndsNothing(c: Config, st: State, env: Env)
    requires Inv(c, st) && Ring(c, st) && Moving(st.pc) && st.fd[st.reloc.fdIndex].address == st.reloc.fd.address
    ensures Move(c, st, env).pc != Wait555
    ensures !exists s :: 0 <= s < c.sectors && st.pos[s] > 0 && Move(c, st, env).pos[s] == 0
  {
    hide Inv, Dims, Move;
    forall s | 0 <= s < c.sectors && st.pos[s] > 0
      ensures Move(c, st, env).pos[s] > 0
    {
      MoveErasesNothing(c, st, env, s);
    }
  }
}
