/** Sustained service through power cuts: with at least two blank sectors reserved, a
    boot always finds the room that the collector had set aside, wherever the power
    was cut (wormvars.c:199-632). */
module Surviving {
  import opened Block
  import opened Store
  import opened Images
  import opened Invariant
  import opened Writing
  import opened Collector
  import opened Booting
  import opened Progress
  import opened Runs
  import opened Stuck
  import opened Rebooting
  import opened Pacing
  import Victim

  // ---------------------------------------------------------------- safe states

  /** The victim that would be chosen now has at most `room` live variables. */
  predicate ChoiceFits(c: Config, st: State, room: int)
    requires |st.pos| == c.sectors && 0 < c.sectors
  {
    FindRelocSector(c, st.fd, st.pos, st.cur).Some?
    && CountIn(st.fd, FindRelocSector(c, st.fd, st.pos, st.cur).value) <= room
  }

  /** One blank sector short, and the variables of the victim, chosen or to be chosen,
      fit into the current sector. */
  ghost predicate OneShort(c: Config, st: State)
    requires Ring(c, st)
  {
    && Blanks(c, st) + 1 >= c.minBlank
    && ((Resting(st.pc) && ChoiceFits(c, st, c.slots - st.pos[st.cur]))
        || (Passing(st.pc) && Left(st) <= c.slots - st.pos[st.cur]))
  }

  /** Two blank sectors short, but the current sector is erased, and so will be a
      victim without variables. */
  ghost predicate TwoShort(c: Config, st: State)
    requires Ring(c, st)
  {
    && Blanks(c, st) + 2 == c.minBlank && st.pos[st.cur] == 0
    && ((Resting(st.pc) && ChoiceFits(c, st, 0)) || st.pc == Wait622)
  }

  /** The collector will come to rest by itself. */
  ghost predicate Safe(c: Config, st: State)
    requires Ring(c, st)
  {
    Rested(c, st) || OneShort(c, st) || TwoShort(c, st)
  }

  /** Awake calls until then. */
  function ToRest(c: Config, st: State): nat
    requires ValidConfig(c) && |st.pos| == c.sectors
  {
    var more := if Blanks(c, st) + 2 == c.minBlank then 2 else 0;
    match st.pc
    case Wait555 => 2 * MaxLive(c) + 2 + more
    case Yield556 => 2 * MaxLive(c) + 1 + more
    case _ => if Blanks(c, st) + 2 == c.minBlank then 2 * MaxLive(c) + 3 else Calls(st)
  }

  lemma ChoiceBound(c: Config, st: State)
    requires Inv(c, st) && Ring(c, st) && Blanks(c, st) < c.minBlank
    ensures ChoiceFits(c, st, MaxLive(c))
  {
    hide Indexed, Collecting, Dims, CountIn, MaxLive, BlankCount, Best;
    VictimBound(c, st, FindRelocSector(c, st.fd, st.pos, st.cur).value);
  }

  lemma OnTrackSafe(c: Config, st: State, room: nat, work: int)
    requires Inv(c, st) && Ring(c, st) && OnTrack(c, st, room, work)
    ensures Safe(c, st)
  {
    hide Indexed, Collecting, Dims, CountIn, MaxLive, BlankCount, FindRelocSector;
    if !Rested(c, st) && Resting(st.pc) { ChoiceBound(c, st); }
  }

  /** A collector call in a pass whose victim's variables fit. */
  lemma {:induction false} SafePass(c: Config, st: State, flag: bool, env: Env)
    requires Inv(c, st) && Ring(c, st) && OneShort(c, st) && Passing(st.pc)
    ensures var st' := FsThread(c, st, flag, env);
            || Rested(c, st')
            || (&& OneShort(c, st') && Passing(st'.pc) && Blanks(c, st') == Blanks(c, st)
                && Calls(st') <= Calls(st) && (env.ready ==> Calls(st') + 1 == Calls(st)))
  {
    hide Indexed, Collecting, Dims, FsThread, CountIn, FreeUpTo, BlankCount, FindRelocSector;
    RoomIsSlack(c, st);
    ThreadStep(c, st, flag, env);
    PassRoom(c, st, flag, env);
  }

  lemma {:induction false} SelectShape(c: Config, st: State, v: nat, flag: bool, env: Env)
    requires Inv(c, st) && Ring(c, st) && st.pc == Yield556 && FindRelocSector(c, st.fd, st.pos, st.cur) == Some(v)
    ensures var st' := FsThread(c, st, flag, env);
            && st'.cur == st.cur && st'.fd == st.fd && st'.pos[st.cur] == st.pos[st.cur]
            && if CountIn(st.fd, v) == 0 && env.ready then
                 st'.pc == Wait555 && Blanks(c, st') == Blanks(c, st) + 1
               else
                 && Passing(st'.pc) && Left(st') == CountIn(st.fd, v) && Blanks(c, st') == Blanks(c, st)
                 && (CountIn(st.fd, v) == 0 ==> st'.pc == Wait622)
                 && Calls(st') <= 2 * CountIn(st.fd, v) + 1 && (env.ready ==> Calls(st') == 2 * CountIn(st.fd, v))
  {
    hide Indexed, Collecting, Dims, RelocLoop, FsThread, CountIn, FreeUpTo, BlankCount, FindRelocSector, Calls, NextIn;
    Victim.VictimChoice(c, st, v);
    var st1 := st.(reloc := st.reloc.(sector := v));
    SelectIs(c, st, v, flag, env);
    RelocLoopStep(c, st1, 0, env);
    LoopShape(c, st1, 0, env);
    if CountIn(st.fd, v) == 0 { EmptyLoop(c, st1, env); }
  }

  lemma {:induction false} SelectIs(c: Config, st: State, v: nat, flag: bool, env: Env)
    requires Ring(c, st) && st.pc == Yield556 && FindRelocSector(c, st.fd, st.pos, st.cur) == Some(v)
    ensures FsThread(c, st, flag, env) == RelocLoop(c, st.(reloc := st.reloc.(sector := v)), 0, env)
  {
    hide Dims, RelocLoop, FindRelocSector;
  }

  lemma EmptyLoop(c: Config, st: State, env: Env)
    requires Ring(c, st) && CountIn(st.fd, st.reloc.sector) == 0
    ensures RelocLoop(c, st, 0, env).pc == if env.ready then Wait555 else Wait622
  {
    hide Dims, CountIn, EraseVictim;
    NoneCounted(st.fd, st.reloc.sector);
    ErasePc(c, st.(reloc := st.reloc.(fdIndex := |st.fd|), pc := Wait622));
  }

  lemma ErasePc(c: Config, st: State)
    requires Ring(c, st)
    ensures EraseVictim(c, st).pc == Wait555
  {
    hide Dims;
  }

  /** The call that chooses the victim. */
  lemma {:induction false} SafeSelect(c: Config, st: State, flag: bool, env: Env)
    requires Inv(c, st) && Ring(c, st) && st.pc == Yield556 && (OneShort(c, st) || TwoShort(c, st)) && !Rested(c, st)
    ensures var st' := FsThread(c, st, flag, env);
            && Inv(c, st') && Safe(c, st')
            && (Rested(c, st') || (ToRest(c, st') <= ToRest(c, st) && (env.ready ==> ToRest(c, st') < ToRest(c, st))))
  {
    hide Indexed, Collecting, Dims, FsThread, CountIn, FreeUpTo, BlankCount, MaxLive, Best;
    var v := FindRelocSector(c, st.fd, st.pos, st.cur).value;
    var st' := FsThread(c, st, flag, env);
    Victim.VictimChoice(c, st, v);
    VictimBound(c, st, v);
    ThreadKeeps(c, st, flag, env);
    SelectShape(c, st, v, flag, env);
    hide FindRelocSector;
    if st'.pc == Wait555 && !Rested(c, st') { ChoiceBound(c, st'); MaxLiveFits(c); }
  }

  lemma SafeErase(c: Config, st: State)
    requires Inv(c, st) && Ring(c, st) && TwoShort(c, st) && st.pc == Wait622
    ensures var st' := EraseVictim(c, st);
            Inv(c, st') && OneShort(c, st') && st'.pc == Wait555 && Blanks(c, st') + 1 == c.minBlank
  {
    hide Indexed, Dims, CountIn, FreeUpTo, BlankCount, EraseVictim, FindRelocSector, MaxLive;
    EraseSlack(c, st);
    EraseShape(c, st);
    EraseIsSafe(c, st);
    MaxLiveFits(c);
    ChoiceBound(c, EraseVictim(c, st));
  }

  /** Every collector call keeps a store safe, and every awake one brings it nearer to
      rest. */
  lemma {:induction false} SafeThread(c: Config, st: State, flag: bool, env: Env)
    requires Inv(c, st) && Ring(c, st) && Safe(c, st)
    ensures var st' := FsThread(c, st, flag, env);
            && Inv(c, st') && Safe(c, st')
            && (Rested(c, st') || (!Rested(c, st) && ToRest(c, st') <= ToRest(c, st)
                                   && ((flag || env.expired) && env.ready ==> ToRest(c, st') < ToRest(c, st))))
  {
    hide Indexed, Collecting, Dims, CountIn, FreeUpTo, BlankCount, MaxLive, RelocLoop, Move, EraseVictim, Best;
    ThreadKeeps(c, st, flag, env);
    if Rested(c, st) || st.pc == Wait555 {
      hide Calls;
    } else if st.pc == Yield556 {
      SafeSelect(c, st, flag, env);
    } else if OneShort(c, st) {
      hide FsThread, FindRelocSector;
      SafePass(c, st, flag, env);
    } else {
      hide FindRelocSector, Calls;
      SafeErase(c, st);
    }
  }

  // ---------------------------------------------------------------- what a cut leaves

  /** The image has the write pointers and the live cells of `p`; RAM is forgotten, and
      an older copy of one variable may still be valid. */
  ghost predicate Shows(c: Config, im: Image, p: State) {
    exists stale :: Reads(c, im, Reading(p.pos, p.cur, Where(p.fd), stale))
  }

  lemma ShowsItself(c: Config, st: State)
    requires Indexed(c, st)
    ensures Shows(c, st.flash, st)
  {
    hide Reads, Find, Where, Distinct, Entries;
    assert Reads(c, st.flash, Reading(st.pos, st.cur, Where(st.fd), None));
  }

  ghost predicate AllShow(c: Config, before: seq<Image>, after: seq<Image>, p: State, q: State) {
    before <= after && forall i :: |before| <= i < |after| ==> Shows(c, after[i], p) || Shows(c, after[i], q)
  }

  /** The images of the four flash writes of `fs_write`: the first shows the state
      before it, the others the state after it. */
  lemma WriteShows(c: Config, st: State, key: Key, data: Data)
    requires Indexed(c, st) && Ring(c, st) && st.pos[st.cur] < c.slots && Fits(c, st, key)
    ensures WriteCell(c, st, key, data).1 == 0
    ensures AllShow(c, st.log, WriteCell(c, st, key, data).0.log, st, WriteCell(c, st, key, data).0)
  {
    hide Find, NewCell, ClearNewer, Retire, Enter, Program, WriteCell, Good, Where, Reads, Holds, Keys, Distinct,
      Entries, Contents, Dims, Shows;
    NewCellFacts(c, key, data);
    var s1, s2, s3, s4 := WriteSteps(c, st, key, data);
    ClearStep(c, st, key, s1);
    ShowsItself(c, s1);
    SameShows(c, s1.flash, s1, st);
    TailShows(c, s1, key, NewCell(c.crc, key, data), s2, s3, s4);
  }

  lemma SameShows(c: Config, im: Image, p: State, q: State)
    requires Shows(c, im, p) && p.pos == q.pos && p.cur == q.cur && Where(p.fd) == Where(q.fd)
    ensures Shows(c, im, q)
  {
    hide Reads, Where;
  }

  lemma TailShows(c: Config, st: State, key: Key, cell: Cell, s2: State, s3: State, s4: State)
    requires st.cur < |st.pos| && Indexed(c, st) && st.pos[st.cur] < c.slots && Fits(c, st, key) && !NeedsClear(st, key)
    requires Good(c.crc, cell) && cell.hdr.newer == NEWER && KeyOf(cell.hdr) == key
    requires Target(st) in st.flash
    requires s2 == Program(c, st, Target(st), cell)
    requires Shape(c, s2) && s3 == Retire(c, s2, Find(st.fd, key))
    requires Find(st.fd, key) < c.fdMax && s3.pos[s3.cur] < c.slots && s4 == Enter(c, s3, Find(st.fd, key), cell.hdr)
    ensures AllShow(c, st.log, s4.log, s4, s4)
  {
    hide Good, Find, Where, Reads, Holds, Keys, Distinct, Entries, Contents, AndCell, AndFlags, Dims;
    var m := Vars(c, st)[key := cell.data];
    ProgramStep(c, st, key, cell, s2.flash);
    HoldsOf(c, s2.flash, Programmed(ReadingOf(st), key), m);
    RetireOrNot(c, st, key, cell, m, s2, s3);
    EnterFinishes(c, st, key, cell, m, s3, s4);
    ShowsItself(c, s4);
    var w := Programmed(ReadingOf(st), key);
    assert Reads(c, s2.flash, Reading(s4.pos, s4.cur, Where(s4.fd), w.stale));
    assert Reads(c, s3.flash, Reading(s4.pos, s4.cur, Where(s4.fd), None));
  }

  lemma NoneShown(c: Config, l: seq<Image>, p: State, q: State)
    ensures AllShow(c, l, l, p, q)
  {
  }

  /** `Shows` looks at the write pointers, the current sector and the index alone. */
  lemma AllShowSame(c: Config, l0: seq<Image>, l1: seq<Image>, p: State, q: State, p': State, q': State)
    requires AllShow(c, l0, l1, p, q)
    requires p.pos == p'.pos && p.cur == p'.cur && p.fd == p'.fd && q.pos == q'.pos && q.cur == q'.cur && q.fd == q'.fd
    ensures AllShow(c, l0, l1, p', q')
  {
    hide Shows, Where;
    forall i | |l0| <= i < |l1|
      ensures Shows(c, l1[i], p') || Shows(c, l1[i], q')
    {
      if Shows(c, l1[i], p) { SameShows(c, l1[i], p, p'); } else { SameShows(c, l1[i], q, q'); }
    }
  }

  lemma LoopShows(c: Config, st: State, i: nat, env: Env)
    requires Indexed(c, st) && Ring(c, st) && i <= |st.fd|
    requires Indexed(c, RelocLoop(c, st, i, env))
    ensures AllShow(c, st.log, RelocLoop(c, st, i, env).log, st, RelocLoop(c, st, i, env))
  {
    hide Indexed, Dims, NextIn, Shows;
    ShowsItself(c, RelocLoop(c, st, i, env));
  }

  lemma {:induction false} MoveShows(c: Config, st: State, env: Env)
    requires AboutToMove(c, st) && st.pos[st.cur] < c.slots
    ensures AllShow(c, st.log, Move(c, st, env).log, st, Move(c, st, env))
  {
    hide Indexed, Collecting, Dims, Move, WriteCell, UpdateSector, Fits, AllShow;
    MovingEntry(c, st);
    RoomyReady(c, st, env);
    MoveWrites(c, st, st, env);
    var key := KeyOf(st.reloc.fd.header);
    WriteShows(c, st, key, st.reloc.buffer.data);
    AllShowSame(c, st.log, Move(c, st, env).log, st, WriteCell(c, st, key, st.reloc.buffer.data).0, st,
      Move(c, st, env));
  }

  /** Every image that a collector call of a safe store leaves shows the state before
      or after the call. */
  lemma {:induction false} ThreadShows(c: Config, st: State, flag: bool, env: Env)
    requires Inv(c, st) && Ring(c, st) && Safe(c, st)
    ensures AllShow(c, st.log, FsThread(c, st, flag, env).log, st, FsThread(c, st, flag, env))
  {
    hide Indexed, Collecting, Dims, CountIn, FreeUpTo, BlankCount, MaxLive, RelocLoop, Move, EraseVictim,
      FindRelocSector, AllShow, Shows;
    ThreadKeeps(c, st, flag, env);
    NoneShown(c, st.log, st, FsThread(c, st, flag, env));
    match st.pc
    case Wait555 =>
    case Yield556 =>
      if FindRelocSector(c, st.fd, st.pos, st.cur).Some? {
        var v := FindRelocSector(c, st.fd, st.pos, st.cur).value;
        SelectShows(c, st, v, flag, env);
      }
    case Wait576 =>
    case Yield596 =>
      if st.fd[st.reloc.fdIndex].address == st.reloc.fd.address {
        MovingEntry(c, st);
        MoveShows(c, st, env);
      }
    case Yield617 => LoopShows(c, st, st.reloc.fdIndex + 1, env);
    case Wait622 =>
      ErasedShows(c, st);
  }

  lemma {:induction false} SelectShows(c: Config, st: State, v: nat, flag: bool, env: Env)
    requires Inv(c, st) && Ring(c, st) && st.pc == Yield556 && FindRelocSector(c, st.fd, st.pos, st.cur) == Some(v)
    requires Inv(c, FsThread(c, st, flag, env))
    ensures AllShow(c, st.log, FsThread(c, st, flag, env).log, st, FsThread(c, st, flag, env))
  {
    hide Indexed, Collecting, Dims, RelocLoop, FindRelocSector, AllShow, FsThread;
    SelectIs(c, st, v, flag, env);
    var st1 := st.(reloc := st.reloc.(sector := v));
    SameIndexed(c, st, st1);
    LoopShows(c, st1, 0, env);
    AllShowSame(c, st.log, FsThread(c, st, flag, env).log, st1, FsThread(c, st, flag, env), st,
      FsThread(c, st, flag, env));
  }

  lemma ErasedShows(c: Config, st: State)
    requires Inv(c, st) && Ring(c, st) && st.pc == Wait622
    ensures AllShow(c, st.log, EraseVictim(c, st).log, st, EraseVictim(c, st))
  {
    hide Indexed, Dims, Shows, Holds, Contents, EraseVictim;
    EraseIsSafe(c, st);
    ShowsItself(c, EraseVictim(c, st));
  }

  // ---------------------------------------------------------------- cuts

  /** What a device without RAM must show for the store to be safe after the next boot. */
  ghost predicate SafeImage(c: Config, im: Image) {
    exists p: State :: Inv(c, p) && Ring(c, p) && Safe(c, p) && Shows(c, im, p)
  }

  lemma SafeImageOf(c: Config, im: Image, p: State)
    requires Inv(c, p) && Ring(c, p) && Safe(c, p) && Shows(c, im, p)
    ensures SafeImage(c, im)
  {
    hide Inv, Ring, Safe, Shows;
  }

  lemma LogSafe(c: Config, l0: seq<Image>, l1: seq<Image>, p: State, q: State, i: nat)
    requires AllShow(c, l0, l1, p, q) && |l0| <= i < |l1|
    requires Inv(c, p) && Ring(c, p) && Safe(c, p) && Inv(c, q) && Ring(c, q) && Safe(c, q)
    ensures SafeImage(c, l1[i])
  {
    hide Inv, Ring, Safe, Shows;
    if Shows(c, l1[i], p) { SafeImageOf(c, l1[i], p); } else { SafeImageOf(c, l1[i], q); }
  }

  lemma FreshSafe(c: Config, st: State)
    requires Inv(c, st) && Ring(c, st) && Safe(c, st)
    ensures var st' := st.(log := []);
            && Inv(c, st') && Ring(c, st') && Safe(c, st') && (Rested(c, st') <==> Rested(c, st))
            && ToRest(c, st') == ToRest(c, st) && SafeImage(c, st.flash)
  {
    hide Indexed, Collecting, CountIn, BlankCount, FindRelocSector, MaxLive, Shows;
    FreshLog(c, st);
    ShowsItself(c, st);
  }

  lemma {:induction false} ThreadCut(c: Config, st: State, flag: bool, env: Env, n: nat)
    requires Inv(c, st) && Ring(c, st) && Safe(c, st) && n <= |Exec(c, st, Thread(flag, env)).0.log|
    ensures SafeImage(c, ImageAfter(st.flash, Exec(c, st, Thread(flag, env)).0.log, n))
  {
    hide Indexed, Collecting, Ring, Safe, FsThread, SafeImage, AllShow, Rested, ToRest;
    FreshSafe(c, st);
    var start := st.(log := []);
    SafeThread(c, start, flag, env);
    ThreadShows(c, start, flag, env);
    if n > 0 { LogSafe(c, start.log, FsThread(c, start, flag, env).log, start, FsThread(c, start, flag, env), n - 1); }
  }

  lemma ActivateSafe(c: Config, st: State, next: nat)
    requires Inv(c, st) && Ring(c, st) && Rested(c, st) && st.pos[st.cur] == c.slots
    requires next < c.sectors && st.pos[next] < c.slots
    ensures var st' := Activate(c, st, next);
            Inv(c, st') && Ring(c, st') && Safe(c, st')
  {
    hide Indexed, Collecting, Dims, CountIn, BlankCount, FindRelocSector, MaxLive;
    ActivateKeeps(c, st, next);
    ActivateSlack(c, st, next);
    MaxLiveFits(c);
    var st' := Activate(c, st, next);
    if !Rested(c, st') { ChoiceBound(c, st'); }
  }

  /** The images of a user write: up to `ready`, where `updateSector` leaves the store,
      and from there on. */
  lemma {:induction false} UserShows(c: Config, st: State, env: Env, room: int, work: int)
    requires Inv(c, st) && Ring(c, st) && OnTrack(c, st, room, work) && (room >= 1 || Rested(c, st))
    requires MaxLive(c) < c.slots
    ensures var (ready, code) := UpdateSector(c, st, env);
            && code >= 0 && Inv(c, ready) && Safe(c, ready)
            && exists p :: Inv(c, p) && Ring(c, p) && Safe(c, p) && AllShow(c, st.log, ready.log, p, ready)
  {
    hide Indexed, Collecting, Dims, UpdateSector, CountIn, BlankCount, MaxLive, Safe, AllShow, FsThread;
    if st.pos[st.cur] < c.slots {
      RoomyReady(c, st, env);
      OnTrackSafe(c, st, if room >= 0 then room else 0, work);
      NoneShown(c, st.log, st, st);
    } else {
      NoRoom(c, st, room, work);
      RolloverOnTrack(c, st, env);
      UpdateSectorKeeps(c, st, env);
      var next := NextFree(c, st.pos, st.cur, st.cur);
      UpdateIs(c, st, env);
      ActivateSafe(c, st, next.value);
      var p := Activate(c, st, next.value);
      SafeThread(c, p, true, env);
      ThreadShows(c, p, true, env);
      assert AllShow(c, st.log, UpdateSector(c, st, env).0.log, p, UpdateSector(c, st, env).0);
    }
  }

  lemma {:induction false} UpdateIs(c: Config, st: State, env: Env)
    requires Ring(c, st) && st.pos[st.cur] == c.slots && UpdateSector(c, st, env).1 >= 0
    ensures var next := NextFree(c, st.pos, st.cur, st.cur);
            && next.Some? && st.pos[next.value] < c.slots
            && UpdateSector(c, st, env).0 == FsThread(c, Activate(c, st, next.value), true, env)
  {
    hide Dims, NextFree, FsThread;
  }

  lemma StartSafe(c: Config, st: State, room: int, work: int)
    requires Inv(c, st) && Ring(c, st) && OnTrack(c, st, room, work) && (room >= 1 || Rested(c, st))
    ensures Safe(c, st) && SafeImage(c, st.flash)
  {
    hide Indexed, Collecting, Dims, CountIn, BlankCount, MaxLive, FindRelocSector, Shows;
    OnTrackSafe(c, st, if room >= 0 then room else 0, work);
    ShowsItself(c, st);
  }

  /** The state after a user write is on track again. */
  lemma AfterSafe(c: Config, st: State, st': State, room: int, work: int)
    requires Inv(c, st) && Ring(c, st) && Inv(c, st') && Ring(c, st')
    requires (room >= 1 || Rested(c, st)) && MaxLive(c) < c.slots
    requires if Rested(c, st) then OnTrack(c, st', c.slots - 1 - MaxLive(c), 2 * MaxLive(c) + 1)
        else OnTrack(c, st', room - 1, work)
    ensures Safe(c, st')
  {
    hide Inv, Dims, BlankCount, OnTrack, MaxLive, Safe;
    if Rested(c, st) {
      OnTrackSafe(c, st', c.slots - 1 - MaxLive(c), 2 * MaxLive(c) + 1);
    } else {
      OnTrackSafe(c, st', room - 1, work);
    }
  }

  ghost predicate AllSafe(c: Config, before: seq<Image>, after: seq<Image>) {
    before <= after && forall i :: |before| <= i < |after| ==> SafeImage(c, after[i])
  }

  lemma ShownSafe(c: Config, l0: seq<Image>, l1: seq<Image>, p: State, q: State)
    requires AllShow(c, l0, l1, p, q)
    requires Inv(c, p) && Ring(c, p) && Safe(c, p) && Inv(c, q) && Ring(c, q) && Safe(c, q)
    ensures AllSafe(c, l0, l1)
  {
    hide Inv, Ring, Safe, Shows, SafeImage;
    forall i | |l0| <= i < |l1|
      ensures SafeImage(c, l1[i])
    {
      LogSafe(c, l0, l1, p, q, i);
    }
  }

  lemma AllSafeAgain(c: Config, l0: seq<Image>, l1: seq<Image>, l2: seq<Image>)
    requires AllSafe(c, l0, l1) && AllSafe(c, l1, l2)
    ensures AllSafe(c, l0, l2)
  {
    hide SafeImage;
  }

  lemma {:induction false} ReadySafe(c: Config, st: State, env: Env, room: int, work: int)
    requires Inv(c, st) && Ring(c, st) && OnTrack(c, st, room, work) && (room >= 1 || Rested(c, st))
    requires MaxLive(c) < c.slots
    ensures var (ready, code) := UpdateSector(c, st, env);
            code >= 0 && Inv(c, ready) && Safe(c, ready) && AllSafe(c, st.log, ready.log)
  {
    hide Inv, Dims, Safe, UpdateSector, AllShow, AllSafe, Rested, OnTrack, MaxLive;
    UserShows(c, st, env, room, work);
    var ready := UpdateSector(c, st, env).0;
    var p :| Inv(c, p) && Ring(c, p) && Safe(c, p) && AllShow(c, st.log, ready.log, p, ready);
    ShownSafe(c, st.log, ready.log, p, ready);
  }

  lemma {:induction false} UserSafe(c: Config, st: State, name: bv16, ext: bv8, data: seq<bv8>, env: Env, room: int,
      work: int)
    requires Inv(c, st) && Ring(c, st) && OnTrack(c, st, room, work) && (room >= 1 || Rested(c, st))
    requires MaxLive(c) < c.slots
    requires |data| <= DATA_SIZE && Fits(c, st, Key(name, TruncateExt(ext)))
    ensures AllSafe(c, st.log, FsWrite(c, st, name, ext, data, env).0.log)
  {
    hide Indexed, Collecting, Dims, Safe, FsWrite, UpdateSector, WriteCell, AllShow, AllSafe, Rested, OnTrack,
      MaxLive, Fits, Pad, TruncateExt, Commits, CommitIndex, Contents;
    var key := Key(name, TruncateExt(ext));
    ReadySafe(c, st, env, room, work);
    var ready := UpdateSector(c, st, env).0;
    UpdateSectorKeeps(c, st, env);
    FitsByVars(c, st, key);
    FitsByVars(c, ready, key);
    WriteIsWriteCell(c, st, name, ext, data, env);
    WriteShows(c, ready, key, Pad(data));
    UserOnTrack(c, st, name, ext, data, env, room, work);
    WriteKeeps(c, st, name, ext, data, env);
    var st' := FsWrite(c, st, name, ext, data, env).0;
    AfterSafe(c, st, st', room, work);
    ShownSafe(c, ready.log, st'.log, ready, st');
    AllSafeAgain(c, st.log, ready.log, st'.log);
  }

  lemma {:induction false} UserCut(c: Config, st: State, call: Call, n: nat, room: int, work: int)
    requires Inv(c, st) && Ring(c, st) && OnTrack(c, st, room, work) && (room >= 1 || Rested(c, st))
    requires MaxLive(c) < c.slots
    requires call.Write? && |call.data| <= DATA_SIZE && Fits(c, st, Key(call.name, TruncateExt(call.ext)))
    requires n <= |Exec(c, st, call).0.log|
    ensures SafeImage(c, ImageAfter(st.flash, Exec(c, st, call).0.log, n))
  {
    hide Indexed, Collecting, Dims, Safe, FsWrite, SafeImage, Rested, OnTrack, MaxLive, Fits, TruncateExt;
    FreshOnTrack(c, st, room, work);
    FreshFits(c, st, Key(call.name, TruncateExt(call.ext)));
    UserSafe(c, st.(log := []), call.name, call.ext, call.data, call.env, room, work);
    StartSafe(c, st, room, work);
  }

  // ---------------------------------------------------------------- boots

  ghost function LiveIn(at: map<Key, Addr>, s: nat): set<Key> {
    set k | k in at && at[k].sector == s
  }

  lemma DistinctPrefix(fd: seq<Fd>)
    requires Distinct(fd) && fd != []
    ensures var n := |fd| - 1; Distinct(fd[..n]) && Find(fd[..n], KeyOf(fd[n].header)) == n
  {
    hide Find;
    var n := |fd| - 1;
    forall i | 0 <= i < n
      ensures Find(fd[..n], KeyOf(fd[i].header)) == i
    {
      assert Find(fd, KeyOf(fd[i].header)) == i;
      FindIs(fd[..n], KeyOf(fd[i].header), i);
    }
    assert Find(fd, KeyOf(fd[n].header)) == n;
    FindIs(fd[..n], KeyOf(fd[n].header), n);
  }

  lemma AddLive(at: map<Key, Addr>, k: Key, a: Addr, s: nat)
    requires k !in at
    ensures |LiveIn(at[k := a], s)| == |LiveIn(at, s)| + if a.sector == s then 1 else 0
  {
    assert LiveIn(at[k := a], s) == LiveIn(at, s) + if a.sector == s then {k} else {};
  }

  /** How many variables a sector holds depends on the live cells alone. */
  lemma {:induction false} CountIsLive(fd: seq<Fd>, s: nat)
    requires Distinct(fd) && forall i :: 0 <= i < |fd| ==> fd[i].sector == fd[i].address.sector
    ensures CountIn(fd, s) == |LiveIn(Where(fd), s)|
    decreases |fd|
  {
    hide Find, Where, Distinct;
    WhereKeys(fd);
    if fd == [] {
      assert LiveIn(Where(fd), s) == {};
    } else {
      var n := |fd| - 1;
      DistinctPrefix(fd);
      CountIsLive(fd[..n], s);
      WhereKeys(fd[..n]);
      AddEntry(fd[..n], fd[n], fd);
      AddLive(Where(fd[..n]), KeyOf(fd[n].header), fd[n].address, s);
    }
  }

  lemma {:induction false} SameCounts(c: Config, p: State, q: State, s: nat)
    requires Inv(c, p) && Inv(c, q) && Where(p.fd) == Where(q.fd)
    ensures CountIn(p.fd, s) == CountIn(q.fd, s)
  {
    hide Inv, Where, CountIn, Find, Distinct;
    IndexedEntries(c, p);
    IndexedEntries(c, q);
    CountIsLive(p.fd, s);
    CountIsLive(q.fd, s);
  }

  /** What a boot finds of `p`. */
  lemma BootOfShown(c: Config, im: Image, p: State)
    requires Inv(c, p) && Ring(c, p) && Shows(c, im, p)
    ensures ValidConfig(c) && Dims(c, im)
    ensures var b := Boot(c, im);
            && Inv(c, b) && Ring(c, b) && b.pos == p.pos && b.pc == Wait555 && Starts(c, p.pos, b.cur)
            && Where(b.fd) == Where(p.fd)
            && (b.log == [] || b.log == [b.flash])
  {
    hide Indexed, Collecting, Where, LiveAt, Layout, Boot, Contents, Starts;
    var stale :| Reads(c, im, Reading(p.pos, p.cur, Where(p.fd), stale));
    var w := Reading(p.pos, p.cur, Where(p.fd), stale);
    TableFits(c, p.fd);
    LiveInImage(c, im, w);
    BootKeeps(c, im, w, Contents(im, w.at));
    IndexedIsRing(c, Boot(c, im));
  }

  lemma LiveInImage(c: Config, im: Image, w: Reading)
    requires Reads(c, im, w)
    ensures Dims(c, im) && forall k :: k in w.at ==> w.at[k] in im
  {
    hide Good, Layout, Dims;
  }

  lemma {:induction false} BlanksAround(c: Config, pos: seq<nat>, cur: nat, cur': nat, n: nat)
    requires |pos| == c.sectors && cur < |pos| && cur' < |pos| && n <= |pos|
    ensures BlankCount(c, pos, cur, n) + (if cur < n && pos[cur] == 0 then 1 else 0)
         == BlankCount(c, pos, cur', n) + (if cur' < n && pos[cur'] == 0 then 1 else 0)
  {
    if n > 0 { BlanksAround(c, pos, cur, cur', n - 1); }
  }

  /** The sector where a boot starts: the partly written one, or else a blank one if
      there is any. */
  lemma StartsWhere(c: Config, p: State, cur: nat)
    requires Ring(c, p) && Starts(c, p.pos, cur)
    ensures 0 < p.pos[p.cur] < c.slots ==> cur == p.cur
    ensures p.pos[p.cur] == 0 ==> p.pos[cur] == 0
    ensures p.pos[p.cur] == c.slots ==> if Blanks(c, p) == 0 then AllFull(c, p.pos) else p.pos[cur] == 0
  {
    hide Dims, BlankCount;
    if p.pos[p.cur] == c.slots {
      if Blanks(c, p) == 0 {
        NoBlankIsFull(c, p.pos, p.cur, c.sectors);
      } else if p.pos[cur] != 0 {
        NoZero(c, p.pos, p.cur, c.sectors);
      }
    }
  }

  lemma {:induction false} NoZero(c: Config, pos: seq<nat>, cur: nat, n: nat)
    requires |pos| == c.sectors && n <= |pos| && forall s :: 0 <= s < n ==> pos[s] != 0
    ensures BlankCount(c, pos, cur, n) == 0
  {
    if n > 0 { NoZero(c, pos, cur, n - 1); }
  }

  /** A choice is at most as good as any full sector other than the current one. */
  lemma {:induction false} ChoiceAtMost(c: Config, b: State, s: nat, room: int)
    requires Inv(c, b) && Ring(c, b) && Blanks(c, b) < c.minBlank
    requires s < c.sectors && s != b.cur && b.pos[s] == c.slots && CountIn(b.fd, s) <= room
    ensures ChoiceFits(c, b, room)
  {
    hide Indexed, Collecting, Dims, CountIn, BlankCount, Best;
    Victim.VictimChoice(c, b, FindRelocSector(c, b.fd, b.pos, b.cur).value);
  }

  /** The sector whose variables fit, in a safe store that is not at rest. */
  lemma DueSector(c: Config, p: State) returns (s: nat)
    requires Inv(c, p) && Ring(c, p) && Safe(c, p) && !Rested(c, p)
    ensures s < c.sectors && s != p.cur && p.pos[s] == c.slots
    ensures CountIn(p.fd, s) <= if OneShort(c, p) then c.slots - p.pos[p.cur] else 0
  {
    hide Indexed, Dims, CountIn, BlankCount, FindRelocSector;
    if Resting(p.pc) {
      s := FindRelocSector(c, p.fd, p.pos, p.cur).value;
      Victim.VictimChoice(c, p, s);
    } else {
      s := p.reloc.sector;
      if p.pc == Wait622 { CountOutside(p.fd, s); }
    }
  }

  /** A boot of a safe store is safe again, unless a single blank sector is reserved,
      every sector is full and only sector 0 may be without variables. */
  lemma BootSettles(c: Config, p: State, b: State)
    requires Inv(c, p) && Ring(c, p) && Safe(c, p)
    requires Inv(c, b) && Ring(c, b) && b.pos == p.pos && b.pc == Wait555
    requires Starts(c, p.pos, b.cur) && Where(b.fd) == Where(p.fd)
    ensures Safe(c, b) || (c.minBlank == 1 && AllFull(c, b.pos) && !Rescuable(c, Where(b.fd)))
  {
    hide Indexed, Collecting, Dims, Where, CountIn, BlankCount, MaxLive, FindRelocSector, Rescuable;
    StartsWhere(c, p, b.cur);
    BlanksAround(c, p.pos, p.cur, b.cur, c.sectors);
    MaxLiveFits(c);
    if AllFull(c, b.pos) {
      if Rescuable(c, Where(b.fd)) { RescuedIsSafe(c, b); }
    } else if Blanks(c, b) < c.minBlank {
      ChoiceBound(c, b);
      if !Rested(c, p) {
        var s := DueSector(c, p);
        SameCounts(c, p, b, s);
        ChoiceAtMost(c, b, s, CountIn(b.fd, s));
      }
    }
  }

  lemma RescuedIsSafe(c: Config, b: State)
    requires Inv(c, b) && Ring(c, b) && b.pc == Wait555 && AllFull(c, b.pos) && Starts(c, b.pos, b.cur)
    requires c.minBlank == 1 && Rescuable(c, Where(b.fd))
    ensures Safe(c, b)
  {
    hide Inv, Dims, Where, CountIn, BlankCount, FindRelocSector;
    var s :| 0 < s < c.sectors && NoneLive(Where(b.fd), s);
    IndexedEntries(c, b);
    OutsideIsNoneLive(b.flash, b.fd, s);
    CountOutside(b.fd, s);
    NoBlanks(c, b.pos, b.cur, c.sectors);
    ChoiceAtMost(c, b, s, 0);
  }
}
