/** Whole runs with power cuts at any flash operation: which writes a paced caller sees
    refused, for one and for several reserved blank sectors (wormvars.c:199-632). */
module Outages {
  import opened Arithmetic
  import opened Block
  import opened Store
  import opened Images
  import opened Invariant
  import opened Writing
  import opened Collector
  import opened Booting
  import opened Progress
  import opened Budget
  import opened Runs
  import opened Limits
  import opened Stuck
  import opened Rebooting
  import opened Pacing
  import opened Surviving

  /** Awake collector calls after a boot that bring every safe store to rest. */
  function Settle(c: Config): nat
    requires ValidConfig(c)
  {
    2 * MaxLive(c) + 4
  }

  /** Awake collector calls to make before the next user write, after one more event. */
  function OwedAfter(c: Config, pace: nat, owed: nat, e: Event): nat
    requires ValidConfig(c)
  {
    match e
    case Do(call) => if call.Write? then pace else if Awake(call) && owed > 0 then owed - 1 else owed
    case PowerOn => Settle(c)
    case _ => owed
  }

  function Owed(c: Config, pace: nat, es: seq<Event>, n: nat): nat
    requires ValidConfig(c) && n <= |es|
  {
    if n == 0 then 0 else OwedAfter(c, pace, Owed(c, pace, es, n - 1), es[n - 1])
  }

  predicate IsWrite(e: Event) {
    (e.Do? || e.Cut?) && e.call.Write?
  }

  /** The caller writes only when no collector calls are owed, and only what the table
      has room for. Everything else may happen at any time. */
  ghost predicate Allowed(c: Config, s: System, e: Event, owed: nat) {
    IsWrite(e) && s.On? ==>
      && owed == 0 && |e.call.data| <= DATA_SIZE
      && Fits(c, s.st, Key(e.call.name, TruncateExt(e.call.ext)))
  }

  ghost predicate Disciplined(c: Config, pace: nat, ss: seq<System>, es: seq<Event>)
    requires ValidConfig(c) && |ss| == |es| + 1
  {
    forall i :: 0 <= i < |es| ==> Allowed(c, ss[i], es[i], Owed(c, pace, es, i))
  }

  /** Every sector is full, and only sector 0, the current one after a boot, may be
      without variables. */
  ghost predicate Stranded(c: Config, s: System) {
    s.On? && AllFull(c, s.st.pos) && !Rescuable(c, Where(s.st.fd))
  }

  /** On track with room for `room` writes at this pace. */
  ghost predicate InTime(c: Config, st: State, pace: nat, room: nat, owed: nat)
    requires Ring(c, st)
  {
    OnTrack(c, st, room, pace * room + owed)
  }

  /** What every event of a disciplined run keeps. */
  ghost predicate Working(c: Config, s: System, pace: nat, owed: nat) {
    match s
    case On(st) =>
      && Inv(c, st) && Ring(c, st)
      && ((exists room: nat :: InTime(c, st, pace, room, owed)) || (Safe(c, st) && ToRest(c, st) <= owed))
    case Off(im) => SafeImage(c, im)
  }

  lemma WorkingIsSafe(c: Config, st: State, pace: nat, owed: nat)
    requires Working(c, On(st), pace, owed)
    ensures Inv(c, st) && Ring(c, st) && Safe(c, st)
  {
    hide Inv, Ring, Safe, ToRest, OnTrack;
    if room: nat :| InTime(c, st, pace, room, owed) {
      OnTrackSafe(c, st, room, pace * room + owed);
    }
  }

  /** `ToRest` is never 0, so a store with nothing owed is on track. */
  lemma ToRestPositive(c: Config, st: State)
    requires Inv(c, st) && Ring(c, st) && Safe(c, st)
    ensures ToRest(c, st) > 0
  {
    hide Indexed, Dims, CountIn, BlankCount, MaxLive, Calls, FindRelocSector, Collecting;
    if OneShort(c, st) && Passing(st.pc) { CallsPositive(c, st); }
  }

  /** With nothing owed there is room for a write. */
  lemma ReadyToWrite(c: Config, st: State, pace: nat) returns (room: nat)
    requires Working(c, On(st), pace, 0)
    ensures Inv(c, st) && Ring(c, st) && OnTrack(c, st, room, pace * room) && (room >= 1 || Rested(c, st))
  {
    hide Inv, Ring, Safe, ToRest, OnTrack, Rested;
    WorkingIsSafe(c, st, pace, 0);
    ToRestPositive(c, st);
    room :| InTime(c, st, pace, room, 0);
    WorkNeedsRoom(c, st, pace, room);
  }

  lemma InTimeWorks(c: Config, st: State, pace: nat, room: nat, owed: nat)
    requires Inv(c, st) && Ring(c, st) && InTime(c, st, pace, room, owed)
    ensures Working(c, On(st), pace, owed)
  {
    hide Inv, Ring, InTime, Safe, ToRest;
  }

  lemma WriteWorks(c: Config, st: State, pace: nat, call: Call)
    requires Working(c, On(st), pace, 0) && FastEnough(c, pace) && call.Write?
    requires |call.data| <= DATA_SIZE && Fits(c, st, Key(call.name, TruncateExt(call.ext)))
    ensures Ring(c, st) && Exec(c, st, call).1 == 0 && Working(c, On(Exec(c, st, call).0), pace, pace)
  {
    hide Inv, Dims, OnTrack, FsWrite, Fits, MaxLive, TruncateExt, Commits, BlankCount, CountIn, Working, Rested;
    MaxLiveFits(c);
    var Write(name, ext, data, env) := call;
    var room := ReadyToWrite(c, st, pace);
    FreshOnTrack(c, st, room, pace * room);
    var start := st.(log := []);
    FreshFits(c, st, Key(name, TruncateExt(ext)));
    UserOnTrack(c, start, name, ext, data, env, room, pace * room);
    WriteKeeps(c, start, name, ext, data, env);
    var st' := Exec(c, st, call).0;
    if Rested(c, start) {
      var left := c.slots - 1 - MaxLive(c);
      MulSuccessor(pace, left);
      LessWork(c, st', left, pace * left + pace, 2 * MaxLive(c) + 1);
      InTimeWorks(c, st', pace, left, pace);
    } else {
      MulSuccessor(pace, room - 1);
      InTimeWorks(c, st', pace, room - 1, pace);
    }
  }

  lemma ThreadInTime(c: Config, st: State, room: nat, work: int, less: int, call: Call)
    requires Inv(c, st) && Ring(c, st) && OnTrack(c, st, room, work) && call.Thread?
    requires work - (if Awake(call) then 1 else 0) <= less
    ensures var st' := Exec(c, st, call).0; Inv(c, st') && OnTrack(c, st', room, less)
  {
    hide Inv, Dims, OnTrack, FsThread, Rested;
    var Thread(flag, env) := call;
    FreshOnTrack(c, st, room, work);
    var start := st.(log := []);
    ThreadKeeps(c, start, flag, env);
    ThreadOnTrack(c, start, flag, env, room, work);
    LessWork(c, Exec(c, st, call).0, room, less, work - if Awake(call) then 1 else 0);
  }

  lemma ThreadSafe(c: Config, st: State, call: Call)
    requires Inv(c, st) && Ring(c, st) && Safe(c, st) && call.Thread?
    ensures var st' := Exec(c, st, call).0;
            && Inv(c, st') && Safe(c, st')
            && (Rested(c, st') || ToRest(c, st') <= ToRest(c, st) - if Awake(call) then 1 else 0)
  {
    hide Inv, Dims, FsThread, Safe, ToRest, Rested;
    FreshSafe(c, st);
    SafeThread(c, st.(log := []), call.flag, call.env);
  }

  lemma ThreadWorks(c: Config, st: State, pace: nat, owed: nat, call: Call)
    requires ValidConfig(c) && Working(c, On(st), pace, owed) && call.Thread?
    ensures Ring(c, st) && Working(c, On(Exec(c, st, call).0), pace, OwedAfter(c, pace, owed, Do(call)))
  {
    hide Inv, Dims, OnTrack, Exec, Safe, ToRest, Rested, MaxLive;
    var st' := Exec(c, st, call).0;
    var less := OwedAfter(c, pace, owed, Do(call));
    if room: nat :| InTime(c, st, pace, room, owed) {
      ThreadInTime(c, st, room, pace * room + owed, pace * room + less, call);
      InTimeWorks(c, st', pace, room, less);
    } else {
      ThreadSafe(c, st, call);
      if Rested(c, st') {
        RestedOnTrack(c, st', 0, pace * 0 + less);
        InTimeWorks(c, st', pace, 0, less);
      }
    }
  }

  lemma CutWorks(c: Config, st: State, pace: nat, owed: nat, call: Call, n: nat)
    requires ValidConfig(c) && Working(c, On(st), pace, owed) && Allowed(c, On(st), Cut(call, n), owed)
    requires Ring(c, st) && n <= |Exec(c, st, call).0.log|
    ensures SafeImage(c, ImageAfter(st.flash, Exec(c, st, call).0.log, n))
  {
    hide Inv, Ring, OnTrack, Safe, ToRest, Exec, Rested, SafeImage, ImageAfter, Working, Fits, TruncateExt;
    if call.Write? {
      MaxLiveFits(c);
      var room := ReadyToWrite(c, st, pace);
      UserCut(c, st, call, n, room, pace * room);
    } else {
      WorkingIsSafe(c, st, pace, owed);
      ThreadCut(c, st, call.flag, call.env, n);
    }
  }

  /** A boot after a cut is safe, or stranded; and so is the next one if it is cut. */
  lemma BootWorks(c: Config, im: Image, pace: nat)
    requires SafeImage(c, im)
    ensures ValidConfig(c) && Dims(c, im)
    ensures var b := Boot(c, im);
            Working(c, On(b), pace, Settle(c)) || (c.minBlank == 1 && Stranded(c, On(b)))
    ensures forall n :: 0 <= n <= |Boot(c, im).log| ==> SafeImage(c, ImageAfter(im, Boot(c, im).log, n))
  {
    hide Inv, Ring, Safe, Boot, Dims, Shows, Starts, Where, Rescuable, AllFull, MaxLive, BlankCount;
    var p: State :| Inv(c, p) && Ring(c, p) && Safe(c, p) && Shows(c, im, p);
    BootOfShown(c, im, p);
    var b := Boot(c, im);
    BootSettles(c, p, b);
    CleanedShows(c, p, b);
  }

  /** The image that a boot leaves shows the same state again. */
  lemma CleanedShows(c: Config, p: State, b: State)
    requires Inv(c, p) && Ring(c, p) && Inv(c, b) && b.pos == p.pos && Where(b.fd) == Where(p.fd)
    requires Starts(c, p.pos, b.cur)
    ensures Shows(c, b.flash, p)
  {
    hide Collecting, Dims, LiveAt, Where, Distinct, Entries, Good, Find;
    assert Reads(c, b.flash, Reading(p.pos, p.cur, Where(p.fd), None));
  }

  // ---------------------------------------------------------------- whole runs

  lemma StepWorks(c: Config, pace: nat, s: System, e: Event, s': System, owed: nat)
    requires FastEnough(c, pace) && Working(c, s, pace, owed) && Allowed(c, s, e, owed) && Step(c, s, e, s')
    requires e.PowerOn? && c.minBlank == 1 ==> !Stranded(c, s')
    ensures Working(c, s', pace, OwedAfter(c, pace, owed, e))
  {
    hide Inv, Dims, OnTrack, Exec, Fits, MaxLive, TruncateExt, Working, Boot, Stranded, SafeImage, Ring;
    match (s, e)
    case (On(st), Do(call)) =>
      if call.Write? { WriteWorks(c, st, pace, call); } else { ThreadWorks(c, st, pace, owed, call); }
    case (On(st), Cut(call, n)) =>
      CutWorks(c, st, pace, owed, call, n);
      OffWorks(c, s'.im, pace, owed);
    case (Off(im), PowerOn) =>
      OffWorks(c, im, pace, owed);
      BootWorks(c, im, pace);
    case (Off(im), CutPowerOn(n)) =>
      OffWorks(c, im, pace, owed);
      BootWorks(c, im, pace);
      OffWorks(c, s'.im, pace, owed);
  }

  lemma OffWorks(c: Config, im: Image, pace: nat, owed: nat)
    ensures Working(c, Off(im), pace, owed) <==> SafeImage(c, im)
  {
    hide SafeImage;
  }

  lemma FactorySafe(c: Config)
    requires ValidConfig(c)
    ensures SafeImage(c, Factory(c))
  {
    hide Inv, Boot, Factory, Contents, MaxLive, Shows, Starts, ReadsAs, OneShort, TwoShort;
    var w := Reading(seq(c.sectors, i => 0), 0, map[], None);
    FactoryReads(c, w);
    BootKeeps(c, Factory(c), w, map[]);
    FirstBoot(c);
    var p := Boot(c, Factory(c));
    AllBlank(c, p.pos, p.cur, c.sectors);
    InvIndexed(c, p);
    ShowsItself(c, p);
    SafeImageOf(c, Factory(c), p);
  }

  lemma InvIndexed(c: Config, st: State)
    requires Inv(c, st)
    ensures Indexed(c, st)
  {
    hide Indexed, Collecting;
  }

  /** A full store that no event will free. */
  ghost predicate Adrift(c: Config, s: System, w: Reading, m: map<Key, Data>, im: Image) {
    && ValidConfig(c) && Dims(c, im) && ReadsAs(c, im, w, m) && AllFull(c, w.pos) && w.stale == None
    && !Rescuable(c, w.at) && Lost(c, s, im)
  }

  ghost predicate Sunk(c: Config, s: System) {
    exists w, m, im :: Adrift(c, s, w, m, im)
  }

  lemma SunkStays(c: Config, s: System, e: Event, s': System)
    requires Sunk(c, s) && Step(c, s, e, s')
    ensures Sunk(c, s')
  {
    hide ReadsAs, Step, Lost, Dims, AllFull, Rescuable;
    var w, m, im :| Adrift(c, s, w, m, im);
    LostStep(c, im, w, m, s, e, s');
    assert Adrift(c, s', w, m, im);
  }

  lemma BootSunk(c: Config, im: Image)
    requires SafeImage(c, im) && ValidConfig(c) && Dims(c, im) && Stranded(c, On(Boot(c, im)))
    ensures Sunk(c, On(Boot(c, im)))
  {
    hide Inv, Safe, Boot, Shows, Where, Trapped, NoneLive, Sunk;
    var p: State :| Inv(c, p) && Ring(c, p) && Safe(c, p) && Shows(c, im, p);
    BootOfShown(c, im, p);
    var b := Boot(c, im);
    RestingTrapped(c, b);
    IndexedEntries(c, b);
    forall s | 0 <= s < c.sectors
      ensures Outside(b.fd, s, |b.fd|) <==> NoneLive(Where(b.fd), s)
    {
      OutsideIsNoneLive(b.flash, b.fd, s);
    }
    TrappedIsSunk(c, b);
  }

  lemma TrappedIsSunk(c: Config, st: State)
    requires Inv(c, st) && Ring(c, st) && AllFull(c, st.pos) && Trapped(c, st) > 0 && !Rescuable(c, Where(st.fd))
    ensures Sunk(c, On(st))
  {
    hide Find, Good, Where, Distinct, Entries, Dims, Contents, ReadsAs, Trapped, Rescuable, Collecting;
    StateReads(c, st);
    TableFits(c, st.fd);
    assert Adrift(c, On(st), ReadingOf(st), Vars(c, st), st.flash);
  }

  lemma SunkRefuses(c: Config, st: State, call: Call)
    requires Sunk(c, On(st)) && call.Write?
    ensures Ring(c, st) && Exec(c, st, call).1 != 0
  {
    hide ReadsAs, Inv, Rescuable, Dims, FsWrite, Trapped;
    FreshLog(c, st);
    RefusedWrite(c, st.(log := []), call.name, call.ext, call.data, call.env);
  }

  /** Some boot before event `n` found the store stranded. */
  ghost predicate Foundered(c: Config, ss: seq<System>, es: seq<Event>, n: nat)
    requires n <= |es| < |ss|
  {
    exists i :: 0 <= i < n && es[i].PowerOn? && Stranded(c, ss[i + 1])
  }

  lemma FullIsNotSafe(c: Config, st: State)
    requires Inv(c, st) && Ring(c, st) && Safe(c, st) && c.minBlank >= 2
    ensures !AllFull(c, st.pos)
  {
    hide Inv, Dims, CountIn, FindRelocSector;
    if AllFull(c, st.pos) { NoBlanks(c, st.pos, st.cur, c.sectors); }
  }

  lemma {:induction false} RunOutcome(c: Config, pace: nat, ss: seq<System>, es: seq<Event>, n: nat)
    requires FastEnough(c, pace) && Path(c, ss, es) && ss[0] == Off(Factory(c)) && Disciplined(c, pace, ss, es)
    requires n <= |es|
    ensures if Foundered(c, ss, es, n) then c.minBlank == 1 && Sunk(c, ss[n])
            else Working(c, ss[n], pace, Owed(c, pace, es, n))
  {
    hide Step, Allowed, Working, Sunk, Stranded, Factory, MaxLive, OwedAfter;
    if n == 0 {
      FactorySafe(c);
      OffWorks(c, Factory(c), pace, 0);
    } else {
      RunOutcome(c, pace, ss, es, n - 1);
      var s, e, s', owed := ss[n - 1], es[n - 1], ss[n], Owed(c, pace, es, n - 1);
      assert Step(c, s, e, s');
      if Foundered(c, ss, es, n - 1) {
        SunkStays(c, s, e, s');
      } else if e.PowerOn? && Stranded(c, s') {
        BootOutcome(c, s, s', pace, owed);
      } else {
        StepWorks(c, pace, s, e, s', owed);
      }
    }
  }

  lemma BootOutcome(c: Config, s: System, s': System, pace: nat, owed: nat)
    requires Working(c, s, pace, owed) && Step(c, s, PowerOn, s') && Stranded(c, s')
    ensures c.minBlank == 1 && Sunk(c, s')
  {
    hide Inv, Dims, Boot, Stranded, SafeImage, Ring, Sunk, Working;
    OffWorks(c, s.im, pace, owed);
    BootWorks(c, s.im, pace);
    BootSunk(c, s.im);
    if c.minBlank != 1 { NotStranded(c, s'.st, pace); }
  }

  lemma NotStranded(c: Config, st: State, pace: nat)
    requires ValidConfig(c) && c.minBlank != 1 && Working(c, On(st), pace, Settle(c))
    ensures !Stranded(c, On(st))
  {
    hide Inv, Ring, Safe, Working, Where, Rescuable;
    WorkingIsSafe(c, st, pace, Settle(c));
    FullIsNotSafe(c, st);
  }

  /** Service over every run with power cuts, of a caller who makes `pace` awake collector
      calls after each write and `Settle` of them after each boot: a write is accepted if
      and only if no boot so far found all sectors full with variables in all of them but
      sector 0. With two or more reserved blank sectors no boot does. */
  lemma ServiceOutcome(c: Config, pace: nat, ss: seq<System>, es: seq<Event>, n: nat)
    requires FastEnough(c, pace) && Path(c, ss, es) && ss[0] == Off(Factory(c)) && Disciplined(c, pace, ss, es)
    requires n < |es| && es[n].Do? && es[n].call.Write?
    ensures ss[n].On? && Ring(c, ss[n].st)
    ensures Exec(c, ss[n].st, es[n].call).1 == 0 <==> !Foundered(c, ss, es, n)
    ensures c.minBlank >= 2 ==> !Foundered(c, ss, es, n)
  {
    hide Ring, Exec, Working, Sunk, Factory, MaxLive, Foundered, Fits, TruncateExt;
    RunOutcome(c, pace, ss, es, n);
    assert Step(c, ss[n], es[n], ss[n + 1]) && Allowed(c, ss[n], es[n], Owed(c, pace, es, n));
    if Foundered(c, ss, es, n) {
      SunkRefuses(c, ss[n].st, es[n].call);
    } else {
      WriteWorks(c, ss[n].st, pace, es[n].call);
    }
  }

  /** As shipped: with two awake collector calls after each write and 104 after each
      boot no write is ever refused, wherever the power is cut. */
  lemma ShippedService(c: Config, ss: seq<System>, es: seq<Event>, n: nat)
    requires ValidConfig(c) && Shipped(c) && Path(c, ss, es) && ss[0] == Off(Factory(c)) && Disciplined(c, 2, ss, es)
    requires n < |es| && es[n].Do? && es[n].call.Write?
    ensures Settle(c) == 104
    ensures ss[n].On? && Ring(c, ss[n].st) && Exec(c, ss[n].st, es[n].call).1 == 0
  {
    hide Ring, Exec, Factory, Foundered, Path, Disciplined;
    ShippedPace(c);
    ServiceOutcome(c, 2, ss, es, n);
  }
}
