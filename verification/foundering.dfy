/** Why one reserved blank sector is not enough: with four sectors of two slots, four
    variables and any number of collector calls after each write, a power cut can still
    leave a store that no boot recovers (wormvars.c:460-632). */
module Foundering {
  import opened Block
  import opened Store
  import opened Images
  import opened Invariant
  import opened Collector
  import opened Progress
  import opened Runs
  import opened Limits
  import opened Stuck
  import opened Rebooting
  import opened Pacing
  import opened Outages
  import Victim

  // ---------------------------------------------------------------- disciplined runs, event by event

  ghost predicate Reaches(c: Config, pace: nat, s: System, owed: nat, ss: seq<System>, es: seq<Event>)
    requires ValidConfig(c)
  {
    && Path(c, ss, es) && ss[0] == Off(Factory(c)) && Disciplined(c, pace, ss, es)
    && ss[|es|] == s && Owed(c, pace, es, |es|) == owed
  }

  /** Some disciplined run from an erased device leads to `s`. */
  ghost predicate Reached(c: Config, pace: nat, s: System, owed: nat)
    requires ValidConfig(c)
  {
    exists ss, es :: Reaches(c, pace, s, owed, ss, es)
  }

  lemma {:induction false} OwedPrefix(c: Config, pace: nat, es: seq<Event>, more: seq<Event>, n: nat)
    requires ValidConfig(c) && es <= more && n <= |es|
    ensures Owed(c, pace, more, n) == Owed(c, pace, es, n)
  {
    hide OwedAfter;
    if n > 0 { OwedPrefix(c, pace, es, more, n - 1); }
  }

  lemma Extend(c: Config, pace: nat, s: System, owed: nat, ss: seq<System>, es: seq<Event>, e: Event, s': System)
    requires ValidConfig(c) && Reaches(c, pace, s, owed, ss, es) && Step(c, s, e, s') && Allowed(c, s, e, owed)
    ensures Reaches(c, pace, s', OwedAfter(c, pace, owed, e), ss + [s'], es + [e])
  {
    hide Step, Allowed, OwedAfter, Owed;
    var ss', es' := ss + [s'], es + [e];
    forall i | 0 <= i < |es'|
      ensures Step(c, ss'[i], es'[i], ss'[i + 1]) && Allowed(c, ss'[i], es'[i], Owed(c, pace, es', i))
    {
      OwedPrefix(c, pace, es, es', i);
      if i < |es| { assert Step(c, ss[i], es[i], ss[i + 1]); }
    }
    OwedPrefix(c, pace, es, es', |es|);
    OwedLast(c, pace, es', |es|);
  }

  lemma OwedLast(c: Config, pace: nat, es: seq<Event>, n: nat)
    requires ValidConfig(c) && n < |es|
    ensures Owed(c, pace, es, n + 1) == OwedAfter(c, pace, Owed(c, pace, es, n), es[n])
  {
    hide OwedAfter;
  }

  lemma ReachedNext(c: Config, pace: nat, s: System, owed: nat, e: Event, s': System)
    requires ValidConfig(c) && Reached(c, pace, s, owed) && Step(c, s, e, s') && Allowed(c, s, e, owed)
    ensures Reached(c, pace, s', OwedAfter(c, pace, owed, e))
  {
    hide Step, Allowed, OwedAfter, Reaches;
    var ss, es :| Reaches(c, pace, s, owed, ss, es);
    Extend(c, pace, s, owed, ss, es, e, s');
  }

  // ---------------------------------------------------------------- steps of the example

  function Small(crc: Crc): Config {
    Config(4, 2, 1, 4, crc)
  }

  lemma SmallFits(crc: Crc)
    ensures ValidConfig(Small(crc))
  {
  }

  lemma HasBlank(c: Config, st: State, blank: nat)
    requires |st.pos| == c.sectors && c.minBlank == 1 && blank < c.sectors && blank != st.cur && st.pos[blank] == 0
    ensures Blanks(c, st) >= c.minBlank
  {
    hide BlankCount;
    if Blanks(c, st) == 0 { NoBlankIsFull(c, st.pos, st.cur, c.sectors); }
  }

  /** A forced call of a collector at rest changes the resume point alone. */
  lemma QuietCall(c: Config, pace: nat, st: State, owed: nat, pos: seq<nat>, cur: nat, at: seq<nat>)
      returns (st': State)
    requires ValidConfig(c) && Reached(c, pace, On(st), owed) && Sketch(c, st, pos, cur, at) && Rested(c, st)
    ensures Reached(c, pace, On(st'), if owed > 0 then owed - 1 else 0) && Sketch(c, st', pos, cur, at)
        && Rested(c, st')
    ensures st.pc == Wait555 ==> st'.pc == Yield556
  {
    hide Indexed, Collecting, Ring, Reached, BlankCount;
    FreshLog(c, st);
    var start := st.(log := []);
    st' := Exec(c, st, FORCED).0;
    ThreadKeeps(c, start, true, Env(true, true));
    ReachedNext(c, pace, On(st), owed, Do(FORCED), On(st'));
  }

  /** All the calls that are owed, and one more if the collector is not yet due to choose. */
  lemma {:induction false} Quiet(c: Config, pace: nat, st: State, owed: nat, pos: seq<nat>, cur: nat, at: seq<nat>)
      returns (st': State)
    requires ValidConfig(c) && Reached(c, pace, On(st), owed) && Sketch(c, st, pos, cur, at) && Rested(c, st)
    ensures Reached(c, pace, On(st'), 0) && Sketch(c, st', pos, cur, at) && Rested(c, st') && st'.pc == Yield556
    decreases owed
  {
    hide Reached, Sketch, Blanks;
    if owed > 0 {
      var st1 := QuietCall(c, pace, st, owed, pos, cur, at);
      st' := Quiet(c, pace, st1, owed - 1, pos, cur, at);
    } else if st.pc == Wait555 {
      st' := QuietCall(c, pace, st, owed, pos, cur, at);
    } else {
      st' := st;
    }
  }

  function PutCall(i: nat): Call {
    Write(Var(i).name, 0, [], Env(false, true))
  }

  lemma PutIsCall(c: Config, st: State, i: nat)
    requires Ring(c, st)
    ensures Ring(c, st.(log := [])) && Exec(c, st, PutCall(i)).0 == Put(c, st.(log := []), i).0
    ensures Step(c, On(st), Do(PutCall(i)), On(Exec(c, st, PutCall(i)).0))
  {
    hide FsWrite, Var, Dims;
  }

  lemma PutAllowed(c: Config, st: State, pos: seq<nat>, cur: nat, at: seq<nat>, i: nat)
    requires Sketch(c, st, pos, cur, at) && i <= |at| && i < 4 && i < c.fdMax
    ensures Allowed(c, On(st), Do(PutCall(i)), 0)
  {
    hide Inv, Ring, Find, TruncateExt;
    SketchFind(c, st, pos, cur, at, i);
  }

  /** A user write whose `updateSector` leaves `ready`. */
  lemma PutReached(c: Config, pace: nat, st: State, at0: seq<nat>, ready: State, pos: seq<nat>, cur: nat, i: nat)
    returns (st': State)
    requires ValidConfig(c) && Reached(c, pace, On(st), 0)
    requires Sketch(c, st, st.pos, st.cur, at0) && Ring(c, st.(log := []))
    requires UpdateSector(c, st.(log := []), Env(false, true)).1 >= 0
    requires ready == UpdateSector(c, st.(log := []), Env(false, true)).0
    requires Sketch(c, ready, pos, cur, at0) && i <= |at0| && i < 4 && i < c.fdMax && cur < |pos| && pos[cur] < c.slots
    ensures Reached(c, pace, On(st'), pace)
    ensures Sketch(c, st', pos[cur := pos[cur] + 1], cur, if i < |at0| then at0[i := cur] else at0 + [cur])
    ensures st'.pc == ready.pc && st'.reloc == ready.reloc
  {
    hide Inv, Ring, UpdateSector, Put, Reached, Allowed, Step, PutCall, Exec;
    PutSketch(c, st.(log := []), ready, pos, cur, at0, i);
    PutAllowed(c, st, st.pos, st.cur, at0, i);
    PutIsCall(c, st, i);
    hide Sketch;
    st' := Exec(c, st, PutCall(i)).0;
    ReachedNext(c, pace, On(st), 0, Do(PutCall(i)), On(st'));
    PutOwes(c, pace, i);
  }

  lemma PutOwes(c: Config, pace: nat, i: nat)
    requires ValidConfig(c)
    ensures OwedAfter(c, pace, 0, Do(PutCall(i))) == pace
  {
    hide Var, MaxLive;
  }

  /** After the write, the collector calls that are owed. */
  lemma Settled(c: Config, pace: nat, st: State, pos: seq<nat>, cur: nat, at: seq<nat>, blank: nat) returns (st': State)
    requires ValidConfig(c) && Reached(c, pace, On(st), pace) && Sketch(c, st, pos, cur, at) && Resting(st.pc)
    requires c.minBlank == 1 && blank < c.sectors && blank != cur && blank < |pos| && pos[blank] == 0
    ensures Reached(c, pace, On(st'), 0) && Sketch(c, st', pos, cur, at) && st'.pc == Yield556
  {
    hide Inv, Dims, Reached, BlankCount;
    HasBlank(c, st, blank);
    st' := Quiet(c, pace, st, pace, pos, cur, at);
  }

  /** One more write into the current sector, while another sector is blank. */
  lemma NextPut(c: Config, pace: nat, st: State, pos: seq<nat>, cur: nat, at: seq<nat>, i: nat, blank: nat)
      returns (st': State)
    requires ValidConfig(c) && Reached(c, pace, On(st), 0) && Sketch(c, st, pos, cur, at) && st.pc == Yield556
    requires i <= |at| && i < 4 && i < c.fdMax && cur < |pos| && pos[cur] < c.slots
    requires c.minBlank == 1 && blank < c.sectors && blank != cur && blank < |pos| && pos[blank] == 0
    ensures Reached(c, pace, On(st'), 0) && st'.pc == Yield556
    ensures Sketch(c, st', pos[cur := pos[cur] + 1], cur, if i < |at| then at[i := cur] else at + [cur])
  {
    hide Indexed, Collecting, Dims, Reached, UpdateSector;
    FreshLog(c, st);
    var start := st.(log := []);
    RoomyReady(c, start, Env(false, true));
    st' := PutReached(c, pace, st, at, start, pos, cur, i);
    st' := Settled(c, pace, st', pos[cur := pos[cur] + 1], cur, if i < |at| then at[i := cur] else at + [cur], blank);
  }

  /** The same when the current sector is full and a third one stays blank. */
  lemma NextSector(c: Config, pace: nat, st: State, pos: seq<nat>, cur: nat, at: seq<nat>, i: nat, next: nat,
      blank: nat)
    returns (st': State)
    requires ValidConfig(c) && Reached(c, pace, On(st), 0) && Sketch(c, st, pos, cur, at) && st.pc == Yield556
    requires i <= |at| && i < 4 && i < c.fdMax && cur < |pos| == c.sectors && pos[cur] == c.slots
    requires NextFree(c, pos, cur, cur) == Some(next) && pos[next] < c.slots
    requires c.minBlank == 1 && blank < c.sectors && blank != next && pos[blank] == 0
    ensures Reached(c, pace, On(st'), 0) && st'.pc == Yield556
    ensures Sketch(c, st', pos[next := pos[next] + 1], next, if i < |at| then at[i := next] else at + [next])
  {
    hide Indexed, Collecting, Dims, Reached, UpdateSector, NextFree;
    FreshLog(c, st);
    var start := st.(log := []);
    RestedRollover(c, start, pos, cur, at, next, blank);
    var ready := UpdateSector(c, start, Env(false, true)).0;
    st' := PutReached(c, pace, st, at, ready, pos, next, i);
    var at' := if i < |at| then at[i := next] else at + [next];
    st' := Settled(c, pace, st', pos[next := pos[next] + 1], next, at', blank);
  }

  lemma {:induction false} RestedRollover(c: Config, st: State, pos: seq<nat>, cur: nat, at: seq<nat>, next: nat,
      blank: nat)
    requires Sketch(c, st, pos, cur, at) && st.pc == Yield556 && cur < |pos| == c.sectors && pos[cur] == c.slots
    requires NextFree(c, pos, cur, cur) == Some(next) && pos[next] < c.slots
    requires c.minBlank == 1 && blank < c.sectors && blank != next && pos[blank] == 0
    ensures var (ready, code) := UpdateSector(c, st, Env(false, true));
            code >= 0 && Sketch(c, ready, pos, next, at) && ready.pc == Wait555
  {
    hide Indexed, Collecting, Dims, Contents, NextFree, BlankCount;
    UpdateSectorKeeps(c, st, Env(false, true));
    HasBlank(c, Activate(c, st, next), blank);
  }

  /** Six writes: sector 3 holds variables 0 and 1, sector 0 only 2, sector 1 only 3. */
  lemma FirstSix(c: Config, pace: nat) returns (st: State)
    requires ValidConfig(c) && c.sectors == 4 && c.slots == 2 && c.minBlank == 1 && c.fdMax == 4
    ensures Reached(c, pace, On(st), 0) && Sketch(c, st, [2, 2, 0, 2], 1, [3, 3, 0, 1]) && st.pc == Yield556
  {
    hide Reached, Inv, Ring, Var;
    st := SmallStart(c, pace);
    st := NextPut(c, pace, st, [0, 0, 0, 0], 3, [], 0, 2);
    st := NextPut(c, pace, st, [0, 0, 0, 1], 3, [3], 1, 2);
    assert NextFree(c, [0, 0, 0, 2], 3, 3) == Some(0);
    st := NextSector(c, pace, st, [0, 0, 0, 2], 3, [3, 3], 2, 0, 2);
    st := NextPut(c, pace, st, [1, 0, 0, 2], 0, [3, 3, 0], 2, 2);
    assert NextFree(c, [2, 0, 0, 2], 0, 0) == Some(1);
    st := NextSector(c, pace, st, [2, 0, 0, 2], 0, [3, 3, 0], 3, 1, 2);
    st := NextPut(c, pace, st, [2, 1, 0, 2], 1, [3, 3, 0, 1], 3, 2);
  }

  /** The first boot, and the collector calls that follow it. */
  lemma SmallStart(c: Config, pace: nat) returns (st: State)
    requires ValidConfig(c) && c.sectors == 4 && c.slots == 2 && c.minBlank == 1 && c.fdMax == 4
    ensures Reached(c, pace, On(st), 0) && Sketch(c, st, [0, 0, 0, 0], 3, []) && st.pc == Yield556
  {
    hide Indexed, Collecting, Ring, Boot, Factory, Contents, Reached, MaxLive, BlankCount;
    FirstBoot(c);
    st := Boot(c, Factory(c));
    FitsByVars(c, st, Var(0));
    assert st.fd == [] && st.pos == [0, 0, 0, 0];
    assert st.pos[3] == 0 && st.cur >= 3;
    NothingYet(c, pace);
    ReachedNext(c, pace, Off(Factory(c)), 0, PowerOn, On(st));
    HasBlank(c, st, 0);
    st := Quiet(c, pace, st, Settle(c), [0, 0, 0, 0], 3, []);
  }

  lemma NothingYet(c: Config, pace: nat)
    requires ValidConfig(c)
    ensures Reached(c, pace, Off(Factory(c)), 0)
  {
    hide Factory;
    assert Reaches(c, pace, Off(Factory(c)), 0, [Off(Factory(c))], []);
  }

  // ---------------------------------------------------------------- the last write, the move and the cut

  lemma {:induction false} CountFour(fd: seq<Fd>, s: nat)
    requires |fd| == 4
    ensures CountIn(fd, s) == (if fd[0].sector == s then 1 else 0) + (if fd[1].sector == s then 1 else 0)
                            + (if fd[2].sector == s then 1 else 0) + (if fd[3].sector == s then 1 else 0)
  {
    assert fd[..3][..2] == fd[..2] && fd[..2][..1] == fd[..1] && fd[..1][..0] == [];
    assert CountIn(fd[..1], s) == if fd[0].sector == s then 1 else 0;
    assert CountIn(fd[..2], s) == CountIn(fd[..1], s) + if fd[1].sector == s then 1 else 0;
  }

  /** The collector chooses sector 0, not sector 3, which holds two variables. */
  lemma ChoosesZero(c: Config, st: State)
    requires c.sectors == 4 && c.slots == 2 && c.minBlank == 1 && Sketch(c, st, [2, 2, 0, 2], 2, [3, 3, 0, 1])
    ensures FindRelocSector(c, st.fd, st.pos, st.cur) == Some(0)
  {
    hide Indexed, Collecting, Ring, Best, CountIn;
    CountFour(st.fd, 0);
    CountFour(st.fd, 1);
    CountFour(st.fd, 3);
    NoBlankHere(c);
    Victim.VictimChoice(c, st, FindRelocSector(c, st.fd, st.pos, st.cur).value);
  }

  lemma {:induction false} NoBlankHere(c: Config)
    requires c.sectors == 4
    ensures BlankCount(c, [2, 2, 0, 2], 2, 4) == 0
  {
    assert BlankCount(c, [2, 2, 0, 2], 2, 1) == 0 && BlankCount(c, [2, 2, 0, 2], 2, 2) == 0;
    assert BlankCount(c, [2, 2, 0, 2], 2, 3) == 0;
  }

  /** The write that starts sector 2, the last blank one: the nested call chooses
      sector 0 and reads its variable. */
  lemma {:induction false} ChoosingRollover(c: Config, st: State)
    requires c.sectors == 4 && c.slots == 2 && c.minBlank == 1
    requires Sketch(c, st, [2, 2, 0, 2], 1, [3, 3, 0, 1]) && st.pc == Yield556
    ensures var (ready, code) := UpdateSector(c, st, Env(false, true));
            && code >= 0 && Sketch(c, ready, [2, 2, 0, 2], 2, [3, 3, 0, 1])
            && ready.pc == Yield596 && ready.reloc.sector == 0 && ready.reloc.fdIndex == 2
  {
    hide Indexed, Collecting, Dims, Contents, Successor, FindRelocSector, CountIn;
    assert NextFree(c, [2, 2, 0, 2], 1, 1) == Some(2);
    UpdateSectorKeeps(c, st, Env(false, true));
    ActivateKeeps(c, st, 2);
    ChoosesZero(c, Activate(c, st, 2));
    assert st.fd[0].sector == 3 && st.fd[1].sector == 3 && st.fd[2].sector == 0;
    assert NextIn(st.fd, 0, 0) == 2;
  }

  lemma LastPut(c: Config, pace: nat, st: State) returns (st': State)
    requires ValidConfig(c) && c.sectors == 4 && c.slots == 2 && c.minBlank == 1 && c.fdMax == 4
    requires Reached(c, pace, On(st), 0) && Sketch(c, st, [2, 2, 0, 2], 1, [3, 3, 0, 1]) && st.pc == Yield556
    ensures Reached(c, pace, On(st'), pace) && Sketch(c, st', [2, 2, 1, 2], 2, [2, 3, 0, 1])
    ensures st'.pc == Yield596 && st'.reloc.sector == 0 && st'.reloc.fdIndex == 2
  {
    hide Indexed, Collecting, Dims, Reached, UpdateSector;
    FreshLog(c, st);
    var start := st.(log := []);
    ChoosingRollover(c, start);
    st' := PutReached(c, pace, st, [3, 3, 0, 1], UpdateSector(c, start, Env(false, true)).0, [2, 2, 0, 2], 2, 0);
  }

  /** The move fills sector 2 and leaves sector 0 without variables, not yet erased. */
  lemma {:induction false} MoveFills(c: Config, st: State)
    requires c.sectors == 4 && c.slots == 2 && Sketch(c, st, [2, 2, 1, 2], 2, [2, 3, 0, 1])
    requires st.pc == Yield596 && st.reloc.sector == 0 && st.reloc.fdIndex == 2
    ensures var st' := FsThread(c, st, true, Env(true, true));
            && Inv(c, st') && Ring(c, st') && AllFull(c, st'.pos)
            && |st'.fd| == 4 && st'.fd[0].sector == 2 && st'.fd[1].sector == 3 && st'.fd[3].sector == 1
  {
    hide Indexed, Dims, Move, Contents;
    MovingEntry(c, st);
    RoomyMove(c, st, Env(true, true));
    ThreadKeeps(c, st, true, Env(true, true));
  }

  /** After a power cycle sector 0 is current, and every other sector holds a variable. */
  lemma FullIsStranded(c: Config, st: State)
    requires c.sectors == 4 && Inv(c, st) && AllFull(c, st.pos)
    requires |st.fd| == 4 && st.fd[0].sector == 2 && st.fd[1].sector == 3 && st.fd[3].sector == 1
    ensures ValidConfig(c) && Dims(c, st.flash) && Stranded(c, On(Boot(c, st.flash)))
  {
    hide Indexed, Collecting, Where, Boot, ReadsAs, Dims, Contents;
    StateReads(c, st);
    FullBoot(c, st.flash, ReadingOf(st), Vars(c, st));
    IndexedEntries(c, st);
    forall s | 0 < s < 4
      ensures !NoneLive(Where(st.fd), s)
    {
      OutsideIsNoneLive(st.flash, st.fd, s);
    }
  }

  /** With the move the power fails. */
  lemma MoveAndCut(c: Config, pace: nat, st: State) returns (im: Image, owed: nat)
    requires ValidConfig(c) && c.sectors == 4 && c.slots == 2 && Reached(c, pace, On(st), pace)
    requires Sketch(c, st, [2, 2, 1, 2], 2, [2, 3, 0, 1])
    requires st.pc == Yield596 && st.reloc.sector == 0 && st.reloc.fdIndex == 2
    ensures Dims(c, im) && Stranded(c, On(Boot(c, im))) && Reached(c, pace, Off(im), owed)
  {
    hide Indexed, Collecting, Ring, Reached, FsThread, Boot, Dims, Stranded;
    FreshLog(c, st);
    MoveFills(c, st.(log := []));
    var st' := Exec(c, st, FORCED).0;
    FullIsStranded(c, st');
    BootAfterCut(c, st');
    im := st'.flash;
    owed := OwedAfter(c, pace, pace, Do(FORCED));
    ReachedNext(c, pace, On(st), pace, Do(FORCED), On(st'));
    ReachedNext(c, pace, On(st'), owed, Cut(FORCED, 0), Off(im));
  }

  /** One reserved blank sector does not survive power cuts at any pace: a disciplined
      run whose last boot finds the store stranded. */
  lemma OneBlankFounders(crc: Crc, pace: nat) returns (ss: seq<System>, es: seq<Event>)
    ensures var c := Small(crc);
            && ValidConfig(c) && c.minBlank == 1 && (pace >= 3 ==> FastEnough(c, pace))
            && Path(c, ss, es) && ss[0] == Off(Factory(c)) && Disciplined(c, pace, ss, es) && Foundered(c, ss, es, |es|)
  {
    hide Reached, Sketch, Boot, Dims, Stranded, Factory, Disciplined, Owed;
    var c := Small(crc);
    SmallFits(crc);
    var st := FirstSix(c, pace);
    st := LastPut(c, pace, st);
    var im, owed := MoveAndCut(c, pace, st);
    ss, es := LastBoot(c, pace, im, owed);
  }

  lemma LastBoot(c: Config, pace: nat, im: Image, owed: nat) returns (ss: seq<System>, es: seq<Event>)
    requires ValidConfig(c) && Dims(c, im) && Reached(c, pace, Off(im), owed) && Stranded(c, On(Boot(c, im)))
    ensures Path(c, ss, es) && ss[0] == Off(Factory(c)) && Disciplined(c, pace, ss, es) && Foundered(c, ss, es, |es|)
  {
    hide Boot, Dims, Stranded, Factory, Disciplined, Owed, MaxLive;
    ss, es :| Reaches(c, pace, Off(im), owed, ss, es);
    var b := On(Boot(c, im));
    Extend(c, pace, Off(im), owed, ss, es, PowerOn, b);
    ss, es := ss + [b], es + [PowerOn];
    assert es[|es| - 1].PowerOn? && Stranded(c, ss[|es| - 1 + 1]);
  }
}
