/** A pace at which the store never runs out of room: so many collector calls after
    each user write, for ever (wormvars.c:314-353, 496-632). */
module Pacing {
  import opened Arithmetic
  import opened Block
  import opened Store
  import opened Images
  import opened Invariant
  import opened Writing
  import opened Collector
  import opened Progress
  import opened Budget
  import opened Runs
  import opened Limits
  import opened Stuck
  import Victim

  /** No victim has more live variables than this. */
  function MaxLive(c: Config): nat
    requires ValidConfig(c)
  {
    c.fdMax / (c.sectors - c.minBlank)
  }

  lemma {:induction false} VictimBound(c: Config, st: State, v: nat)
    requires Indexed(c, st) && FindRelocSector(c, st.fd, st.pos, st.cur) == Some(v)
    ensures CountIn(st.fd, v) <= MaxLive(c)
  {
    hide Find, Good, Reads, Distinct, Where, Dims, Entries, CountIn, FindRelocSector;
    Victim.VictimChoice(c, st, v);
    DivAtLeast(CountIn(st.fd, v), c.sectors - c.minBlank, c.fdMax);
  }

  predicate Resting(pc: Pc) {
    pc == Wait555 || pc == Yield556
  }

  /** Between two passes, with nothing to collect. */
  predicate Rested(c: Config, st: State)
    requires |st.pos| == c.sectors
  {
    Resting(st.pc) && Blanks(c, st) >= c.minBlank
  }

  /** User writes that the current sector can take besides the moves of the pass. */
  function Room(c: Config, st: State): int
    requires ValidConfig(c) && st.cur < |st.pos|
  {
    c.slots - st.pos[st.cur] - if Resting(st.pc) then MaxLive(c) else Left(st)
  }

  /** Awake collector calls until the pass is over. */
  function Work(c: Config, st: State): nat
    requires ValidConfig(c)
  {
    match st.pc
    case Wait555 => 2 * MaxLive(c) + 2
    case Yield556 => 2 * MaxLive(c) + 1
    case _ => Calls(st)
  }

  /** A pass is due or under way, with room for `room` user writes and at most `work`
      awake calls to go. */
  ghost predicate OnTrack(c: Config, st: State, room: int, work: int)
    requires Ring(c, st)
  {
    || Rested(c, st)
    || (&& Blanks(c, st) + 1 >= c.minBlank && (Resting(st.pc) || Passing(st.pc))
        && 0 <= room <= Room(c, st) && Work(c, st) <= work)
  }

  // ---------------------------------------------------------------- collector calls

  lemma RoomIsSlack(c: Config, st: State)
    requires Inv(c, st) && Ring(c, st) && Passing(st.pc) && Room(c, st) >= 0
    ensures Slack(c, st) >= 0
  {
    hide Dims, Indexed, CountIn, FreeUpTo, BlankCount;
    FreeSplit(c, st.pos, st.cur, c.sectors);
  }

  /** During a pass the moves use exactly the slots kept for them. */
  lemma {:induction false} PassRoom(c: Config, st: State, flag: bool, env: Env)
    requires Inv(c, st) && Ring(c, st) && Passing(st.pc) && Room(c, st) >= 0
    ensures var st' := FsThread(c, st, flag, env);
            st'.pc != Wait555 ==> Room(c, st') == Room(c, st) && Blanks(c, st') == Blanks(c, st) && Passing(st'.pc)
  {
    hide Find, Good, Reads, Distinct, Where, Dims, Entries, RelocLoop, Move, EraseVictim, FindRelocSector, CountIn,
      FreeUpTo, BlankCount;
    match st.pc
    case Wait576 =>
    case Yield596 =>
      if st.fd[st.reloc.fdIndex].address == st.reloc.fd.address {
        MovingEntry(c, st);
        RoomyMove(c, st, env);
      }
    case Yield617 => RelocLoopStep(c, st, st.reloc.fdIndex + 1, env);
    case Wait622 => EraseSlack(c, st);
  }

  lemma {:induction false} PassThread(c: Config, st: State, flag: bool, env: Env, room: int, work: int)
    requires Inv(c, st) && Ring(c, st) && Passing(st.pc) && OnTrack(c, st, room, work)
    ensures OnTrack(c, FsThread(c, st, flag, env), room, work - if env.ready then 1 else 0)
  {
    hide Indexed, Collecting, Dims, FsThread, CountIn, FreeUpTo, BlankCount;
    RoomIsSlack(c, st);
    ThreadStep(c, st, flag, env);
    PassRoom(c, st, flag, env);
  }

  /** The call that chooses a victim, or finds enough blank sectors. */
  lemma {:induction false} SelectOnTrack(c: Config, st: State, flag: bool, env: Env, room: int)
    requires Inv(c, st) && Ring(c, st) && st.pc == Yield556
    requires Blanks(c, st) + 1 >= c.minBlank && 0 <= room <= Room(c, st)
    ensures OnTrack(c, FsThread(c, st, flag, env), room, if env.ready then 2 * MaxLive(c) else 2 * MaxLive(c) + 1)
    ensures FsThread(c, st, flag, env).cur == st.cur
  {
    hide Find, Good, Reads, Distinct, Where, Dims, Entries, RelocLoop, CountIn, FreeUpTo, MaxLive, Best;
    if FindRelocSector(c, st.fd, st.pos, st.cur).Some? {
      var v := FindRelocSector(c, st.fd, st.pos, st.cur).value;
      Victim.VictimChoice(c, st, v);
      VictimBound(c, st, v);
      hide FindRelocSector, BlankCount;
      RelocLoopStep(c, st.(reloc := st.reloc.(sector := v)), 0, env);
    }
  }

  /** Every collector call keeps the store on track, and every awake one brings it
      one call nearer to rest. */
  lemma {:induction false} ThreadOnTrack(c: Config, st: State, flag: bool, env: Env, room: int, work: int)
    requires Inv(c, st) && Ring(c, st) && OnTrack(c, st, room, work)
    ensures OnTrack(c, FsThread(c, st, flag, env), room, work - if (flag || env.expired) && env.ready then 1 else 0)
  {
    hide Inv, Dims, CountIn, FreeUpTo, BlankCount, MaxLive, RelocLoop;
    if Passing(st.pc) {
      hide FsThread;
      PassThread(c, st, flag, env, room, work);
    } else if st.pc == Yield556 && !Rested(c, st) {
      SelectOnTrack(c, st, flag, env, room);
    }
  }

  // ---------------------------------------------------------------- user writes

  lemma WriteOnTrack(c: Config, st: State, key: Key, data: Data, room: int, work: int)
    requires Inv(c, st) && Ring(c, st) && st.pos[st.cur] < c.slots && Fits(c, st, key)
    requires OnTrack(c, st, room, work) && (room >= 1 || Rested(c, st))
    ensures WriteCell(c, st, key, data).1 == 0 && OnTrack(c, WriteCell(c, st, key, data).0, room - 1, work)
  {
    hide Find, Indexed, Dims, Collecting, WriteCell, CountIn, BlankCount, Fits;
    RoomyWrite(c, st, key, data);
  }

  /** A rested store has a blank sector to change to, and after the change the new
      sector has room for any pass that becomes due. */
  lemma {:induction false} RolloverOnTrack(c: Config, st: State, env: Env)
    requires Inv(c, st) && Ring(c, st) && Rested(c, st) && st.pos[st.cur] == c.slots && MaxLive(c) < c.slots
    ensures var (st', code) := UpdateSector(c, st, env);
            code >= 0 && OnTrack(c, st', c.slots - MaxLive(c), 2 * MaxLive(c) + 1)
  {
    hide Find, Good, Reads, Distinct, Where, Dims, Entries, CountIn, BlankCount, FreeUpTo, NextFree, MaxLive,
      FindRelocSector;
    if AllFull(c, st.pos) {
      NoBlanks(c, st.pos, st.cur, c.sectors);
    }
    SomeFree(c, st, env);
    var next := NextFree(c, st.pos, st.cur, st.cur).value;
    ActivateKeeps(c, st, next);
    ActivateSlack(c, st, next);
    var st1 := Activate(c, st, next);
    if st.pc == Yield556 {
      SelectOnTrack(c, st1, true, env, c.slots - MaxLive(c));
    }
  }

  /** A user write on a store that is on track is never refused. */
  lemma {:induction false} UserOnTrack(c: Config, st: State, name: bv16, ext: bv8, data: seq<bv8>, env: Env,
      room: int, work: int)
    requires Inv(c, st) && Ring(c, st) && |data| <= DATA_SIZE && Fits(c, st, Key(name, TruncateExt(ext)))
    requires OnTrack(c, st, room, work) && (room >= 1 || Rested(c, st)) && MaxLive(c) < c.slots
    ensures var (st', code) := FsWrite(c, st, name, ext, data, env);
            && code == 0
            && if Rested(c, st) then OnTrack(c, st', c.slots - 1 - MaxLive(c), 2 * MaxLive(c) + 1)
               else OnTrack(c, st', room - 1, work)
  {
    hide Indexed, Collecting, Dims, CountIn, BlankCount, WriteCell, FsWrite, UpdateSector, Fits, MaxLive, Rested;
    var key := Key(name, TruncateExt(ext));
    if st.pos[st.cur] < c.slots {
      RoomyReady(c, st, env);
      WriteIsWriteCell(c, st, name, ext, data, env);
      if Rested(c, st) {
        RestedOnTrack(c, st, c.slots - MaxLive(c), 2 * MaxLive(c) + 1);
        WriteOnTrack(c, st, key, Pad(data), c.slots - MaxLive(c), 2 * MaxLive(c) + 1);
      } else {
        WriteOnTrack(c, st, key, Pad(data), room, work);
      }
    } else {
      NoRoom(c, st, room, work);
      RolloverOnTrack(c, st, env);
      UpdateSectorKeeps(c, st, env);
      WriteIsWriteCell(c, st, name, ext, data, env);
      var ready := UpdateSector(c, st, env).0;
      FitsByVars(c, st, key);
      FitsByVars(c, ready, key);
      WriteOnTrack(c, ready, key, Pad(data), c.slots - MaxLive(c), 2 * MaxLive(c) + 1);
    }
  }

  lemma RestedOnTrack(c: Config, st: State, room: int, work: int)
    requires Ring(c, st) && Rested(c, st)
    ensures OnTrack(c, st, room, work)
  {
    hide Dims;
  }

  lemma NoRoom(c: Config, st: State, room: int, work: int)
    requires Ring(c, st) && OnTrack(c, st, room, work) && st.pos[st.cur] == c.slots && (room >= 1 || Rested(c, st))
    ensures Rested(c, st)
  {
    hide Dims, BlankCount, CountIn, MaxLive;
  }

  // ---------------------------------------------------------------- whole runs

  /** One user write and the collector calls before the next one. */
  datatype Round = Round(write: Call, collect: seq<Call>)

  /** At least `pace` of those calls find the timer expired, or force a pass, and find
      the device ready. */
  predicate Steady(round: Round, pace: nat) {
    && round.write.Write? && |round.write.data| <= DATA_SIZE
    && (forall i :: 0 <= i < |round.collect| ==> round.collect[i].Thread?)
    && Awakes(round.collect) >= pace
  }

  function Serve(c: Config, st: State, round: Round): (r: State)
    requires Ring(c, st)
    ensures Ring(c, r)
  {
    ExecAll(c, Exec(c, st, round.write).0, round.collect)
  }

  /** Every write fits the table when its turn comes, and the collector keeps pace. */
  ghost predicate SteadyRun(c: Config, st: State, pace: nat, rounds: seq<Round>)
    requires Ring(c, st)
    decreases |rounds|
  {
    rounds == [] ||
    (&& Steady(rounds[0], pace)
     && Fits(c, st, Key(rounds[0].write.name, TruncateExt(rounds[0].write.ext)))
     && SteadyRun(c, Serve(c, st, rounds[0]), pace, rounds[1..]))
  }

  /** No `fs_write` of the run is refused. */
  ghost predicate NeverRefused(c: Config, st: State, rounds: seq<Round>)
    requires Ring(c, st)
    decreases |rounds|
  {
    rounds == [] || (Exec(c, st, rounds[0].write).1 == 0 && NeverRefused(c, Serve(c, st, rounds[0]), rounds[1..]))
  }

  /** At rest, or with enough room to get there at this pace. */
  ghost predicate Paced(c: Config, st: State, pace: nat) {
    Inv(c, st) && Ring(c, st) && OnTrack(c, st, Room(c, st), pace * Room(c, st))
  }

  lemma PacedAt(c: Config, st: State, pace: nat, room: nat)
    requires Inv(c, st) && Ring(c, st) && OnTrack(c, st, room, pace * room)
    ensures Paced(c, st, pace)
  {
    hide Inv, Dims, BlankCount, CountIn, MaxLive;
    if !Rested(c, st) { MulMonotone(room, Room(c, st), pace); }
  }

  /** The collector calls made while `slots - MaxLive` writes arrive finish any pass. */
  predicate FastEnough(c: Config, pace: nat) {
    ValidConfig(c) && 2 * MaxLive(c) + 1 <= pace * (c.slots - MaxLive(c))
  }

  /** The limit on FD_MAX leaves every victim at least one dead slot. */
  lemma MaxLiveFits(c: Config)
    requires ValidConfig(c)
    ensures MaxLive(c) < c.slots
  {
    hide Capacity;
    CapacityIsProduct(c.sectors - c.minBlank - 1, c.slots);
    DivBelow(c.fdMax, c.sectors - c.minBlank, c.slots);
  }

  lemma FreshOnTrack(c: Config, st: State, room: int, work: int)
    requires Inv(c, st) && Ring(c, st) && OnTrack(c, st, room, work)
    ensures var st' := st.(log := []);
            Inv(c, st') && Ring(c, st') && OnTrack(c, st', room, work) && (Rested(c, st') <==> Rested(c, st))
  {
    hide CountIn, BlankCount, MaxLive, Inv;
    FreshLog(c, st);
  }

  lemma {:induction false} CollectOnTrack(c: Config, st: State, calls: seq<Call>, room: int, work: int)
    requires Inv(c, st) && Ring(c, st) && OnTrack(c, st, room, work)
    requires forall i :: 0 <= i < |calls| ==> calls[i].Thread?
    ensures Inv(c, ExecAll(c, st, calls)) && OnTrack(c, ExecAll(c, st, calls), room, work - Awakes(calls))
    decreases |calls|
  {
    hide Inv, Ring, OnTrack, FsThread;
    if calls != [] {
      FreshOnTrack(c, st, room, work);
      var start := st.(log := []);
      ThreadOnTrack(c, start, calls[0].flag, calls[0].env, room, work);
      ThreadKeeps(c, start, calls[0].flag, calls[0].env);
      CollectOnTrack(c, Exec(c, st, calls[0]).0, calls[1..], room, work - if Awake(calls[0]) then 1 else 0);
    }
  }

  lemma LessWork(c: Config, st: State, room: int, work: int, less: int)
    requires Ring(c, st) && OnTrack(c, st, room, less) && less <= work
    ensures OnTrack(c, st, room, work)
  {
    hide CountIn, BlankCount, MaxLive, Ring;
  }

  /** A store that is not at rest still has room for one write. */
  lemma WorkNeedsRoom(c: Config, st: State, pace: nat, room: int)
    requires Inv(c, st) && Ring(c, st) && OnTrack(c, st, room, pace * room)
    ensures Rested(c, st) || room >= 1
  {
    hide BlankCount, CountIn, MaxLive, Inv, Calls, Dims;
    if !Rested(c, st) && room == 0 && Passing(st.pc) {
      CallsPositive(c, st);
    }
  }

  /** After the write of a round there is room for `room` more, and what is left to do
      fits into the collector calls of `room + 1` rounds. */
  lemma AfterWrite(c: Config, st: State, pace: nat, round: Round) returns (room: nat, work: int)
    requires Paced(c, st, pace) && FastEnough(c, pace) && Steady(round, pace)
    requires Fits(c, st, Key(round.write.name, TruncateExt(round.write.ext)))
    ensures var (st', code) := Exec(c, st, round.write);
            code == 0 && Inv(c, st') && OnTrack(c, st', room, work) && work <= pace * (room + 1)
  {
    hide Inv, Dims, OnTrack, FsWrite, Fits, MaxLive, TruncateExt, Commits, BlankCount, CountIn;
    var before := Room(c, st);
    hide Room;
    MaxLiveFits(c);
    var Write(name, ext, data, env) := round.write;
    WorkNeedsRoom(c, st, pace, before);
    FreshOnTrack(c, st, before, pace * before);
    var start := st.(log := []);
    FreshFits(c, st, Key(name, TruncateExt(ext)));
    UserOnTrack(c, start, name, ext, data, env, before, pace * before);
    hide OnTrack;
    WriteKeeps(c, start, name, ext, data, env);
    if Rested(c, start) {
      room, work := c.slots - 1 - MaxLive(c), 2 * MaxLive(c) + 1;
    } else {
      room, work := before - 1, pace * before;
    }
  }

  lemma RoundOnTrack(c: Config, st: State, pace: nat, round: Round)
    requires Paced(c, st, pace) && FastEnough(c, pace) && Steady(round, pace)
    requires Fits(c, st, Key(round.write.name, TruncateExt(round.write.ext)))
    ensures Exec(c, st, round.write).1 == 0 && Paced(c, Serve(c, st, round), pace)
  {
    hide Inv, Ring, OnTrack, Exec, Fits, FastEnough;
    var room, work := AfterWrite(c, st, pace, round);
    var st1 := Exec(c, st, round.write).0;
    MulSuccessor(pace, room);
    CollectOnTrack(c, st1, round.collect, room, work);
    LessWork(c, Serve(c, st, round), room, pace * room, work - Awakes(round.collect));
    PacedAt(c, Serve(c, st, round), pace, room);
  }

  /** Sustained service: with `pace` awake collector calls after each user write, fast
      enough for the geometry, no write of any run is ever refused. */
  lemma {:induction false} SteadyService(c: Config, st: State, pace: nat, rounds: seq<Round>)
    requires Paced(c, st, pace) && FastEnough(c, pace) && SteadyRun(c, st, pace, rounds)
    ensures NeverRefused(c, st, rounds)
    decreases |rounds|
  {
    hide Inv, Ring, OnTrack, Exec, ExecAll, Fits, Paced, FastEnough;
    if rounds != [] {
      PacedRing(c, st, pace);
      RoundOnTrack(c, st, pace, rounds[0]);
      SteadyService(c, Serve(c, st, rounds[0]), pace, rounds[1..]);
    }
  }

  lemma PacedRing(c: Config, st: State, pace: nat)
    requires Paced(c, st, pace)
    ensures Ring(c, st)
  {
    hide Inv, Ring;
  }

  /** An erased device starts at rest. */
  lemma ErasedIsPaced(c: Config, pace: nat)
    requires ValidConfig(c)
    ensures Paced(c, Boot(c, Factory(c)), pace)
  {
    hide Inv, Boot, Factory, Contents, MaxLive;
    FirstBoot(c);
    var st := Boot(c, Factory(c));
    AllBlank(c, st.pos, st.cur, c.sectors);
    RestedOnTrack(c, st, Room(c, st), pace * Room(c, st));
  }

  lemma {:induction false} AllBlank(c: Config, pos: seq<nat>, cur: nat, n: nat)
    requires |pos| == c.sectors && n <= |pos| && forall s :: 0 <= s < |pos| ==> pos[s] == 0
    ensures BlankCount(c, pos, cur, n) == n - if cur < n then 1 else 0
  {
    if n > 0 { AllBlank(c, pos, cur, n - 1); }
  }

  /** Over any run from an erased device. */
  lemma {:induction false} ErasedService(c: Config, pace: nat, rounds: seq<Round>)
    requires FastEnough(c, pace) && Ring(c, Boot(c, Factory(c)))
    requires SteadyRun(c, Boot(c, Factory(c)), pace, rounds)
    ensures NeverRefused(c, Boot(c, Factory(c)), rounds)
  {
    hide Ring, Boot, Factory, FastEnough, SteadyRun, NeverRefused, Paced;
    ErasedIsPaced(c, pace);
    SteadyService(c, Boot(c, Factory(c)), pace, rounds);
  }

  /** As shipped two awake collector calls after each write are enough. */
  lemma ShippedPace(c: Config)
    requires ValidConfig(c) && Shipped(c)
    ensures FastEnough(c, 2)
  {
  }

  /** And every geometry has a pace: two sectors' worth of calls always is. */
  lemma SomePace(c: Config)
    requires ValidConfig(c)
    ensures FastEnough(c, 2 * c.slots)
  {
    MaxLiveFits(c);
    hide MaxLive;
    MulMonotone(1, c.slots - MaxLive(c), 2 * c.slots);
  }
}
