/** A full store and power cycles: `fs_init` makes sector 0 current when every sector
    is full (wormvars.c:466-487), and the current sector is never a victim. That can
    trap a store that would have recovered, and rescue one that was stuck. */
module Rebooting {
  import opened Block
  import opened Store
  import opened Images
  import opened Invariant
  import opened Writing
  import opened Booting
  import opened Runs
  import opened Stuck
  import Progress
  import Victim

  /** No variable lives in sector `s`. */
  ghost predicate NoneLive(at: map<Key, Addr>, s: nat) {
    forall k :: k in at ==> at[k].sector != s
  }

  lemma OutsideIsNoneLive(im: Image, fd: seq<Fd>, s: nat)
    requires Entries(im, fd) && Distinct(fd)
    ensures Outside(fd, s, |fd|) <==> NoneLive(Where(fd), s)
  {
    hide Find, Where;
    WhereKeys(fd);
    if NoneLive(Where(fd), s) {
      forall i | 0 <= i < |fd|
        ensures fd[i].sector != s
      {
        assert Find(fd, KeyOf(fd[i].header)) == i;
      }
    }
  }

  /** Booting a full image: nothing is found at another place, and sector 0 is current. */
  lemma FullBoot(c: Config, im: Image, w: Reading, m: map<Key, Data>)
    requires ValidConfig(c) && Dims(c, im) && ReadsAs(c, im, w, m) && AllFull(c, w.pos)
    ensures var b := Boot(c, im);
            && Inv(c, b) && Ring(c, b) && Vars(c, b) == m && AllFull(c, b.pos)
            && b.cur == 0 && b.pc == Wait555 && Where(b.fd) == w.at
    ensures w.stale == None ==> Boot(c, im).log == [] && Boot(c, im).flash == im
  {
    hide Reads, Indexed, Collecting, Boot, Contents, Where;
    BootKeeps(c, im, w, m);
    IndexedIsRing(c, Boot(c, im));
  }

  /** Between two passes the collector can free a full store exactly if some sector
      other than the current one holds no variable. */
  lemma RestingTrapped(c: Config, st: State)
    requires Inv(c, st) && Ring(c, st) && AllFull(c, st.pos) && (st.pc == Wait555 || st.pc == Yield556)
    ensures Trapped(c, st) == 0 <==> exists s :: 0 <= s < c.sectors && s != st.cur && Outside(st.fd, s, |st.fd|)
  {
    hide Reads, Find, Distinct, Entries, Dims, CountIn, FindRelocSector, Outside, Collecting;
    FullSelect(c, st);
    var v := NextVictim(c, st);
    Victim.VictimChoice(c, st, v);
    if Trapped(c, st) == 0 {
      NoneCounted(st.fd, v);
    }
    forall s | 0 <= s < c.sectors && s != st.cur && Outside(st.fd, s, |st.fd|)
      ensures Trapped(c, st) == 0
    {
      CountOutside(st.fd, s);
    }
  }

  lemma {:induction false} NoneCounted(fd: seq<Fd>, v: nat)
    requires CountIn(fd, v) == 0
    ensures Outside(fd, v, |fd|)
  {
    hide CountIn;
    forall i | 0 <= i < |fd|
      ensures fd[i].sector != v
    {
      if fd[i].sector == v { CountInside(fd, v, i); }
    }
  }

  /** Some sector other than sector 0 holds no variable. */
  ghost predicate Rescuable(c: Config, at: map<Key, Addr>) {
    exists s :: 0 < s < c.sectors && NoneLive(at, s)
  }

  /** What a power cycle makes of a full store: it can be freed afterwards if and only
      if a sector other than sector 0 holds no variable. */
  lemma FullBootTrapped(c: Config, im: Image, w: Reading, m: map<Key, Data>)
    requires ValidConfig(c) && Dims(c, im) && ReadsAs(c, im, w, m) && AllFull(c, w.pos)
    ensures var b := Boot(c, im);
            |b.pos| == c.sectors && (Trapped(c, b) == 0 <==> Rescuable(c, w.at))
  {
    hide ReadsAs, Boot, Where, Trapped, NoneLive, Outside, Contents, AllFull;
    FullBoot(c, im, w, m);
    var b := Boot(c, im);
    RestingTrapped(c, b);
    IndexedEntries(c, b);
    forall s | 0 <= s < c.sectors
      ensures Outside(b.fd, s, |b.fd|) <==> NoneLive(w.at, s)
    {
      OutsideIsNoneLive(b.flash, b.fd, s);
    }
  }

  lemma IndexedEntries(c: Config, st: State)
    requires Inv(c, st)
    ensures Entries(st.flash, st.fd) && Distinct(st.fd) && Shape(c, st)
  {
    hide Reads, Distinct, Entries, Shape, Collecting;
  }

  /** The same over any calls after the boot. */
  lemma {:induction false} FullBootOutcome(c: Config, im: Image, w: Reading, m: map<Key, Data>, calls: seq<Call>)
    requires ValidConfig(c) && Dims(c, im) && ReadsAs(c, im, w, m) && AllFull(c, w.pos)
    ensures var b := Boot(c, im);
            && Ring(c, b) && (Frees(c, b, calls) ==> Rescuable(c, w.at))
            && (Awakes(calls) >= 3 && Rescuable(c, w.at) ==> Frees(c, b, calls))
  {
    hide ReadsAs, Boot, Where, Trapped, NoneLive, Contents, AllFull, Frees, ExecAll, Rescuable, Inv, Ring;
    FullBoot(c, im, w, m);
    FullBootTrapped(c, im, w, m);
    FullStoreOutcome(c, Boot(c, im), calls);
  }

  // ---------------------------------------------------------------- every run, power cuts included

  /** A full store that neither the collector nor a power cycle can free. */
  ghost predicate Lost(c: Config, s: System, im: Image) {
    match s
    case On(st) => Inv(c, st) && AllFull(c, st.pos) && st.flash == im && |st.pos| == c.sectors && 0 < c.sectors
      && Trapped(c, st) > 0
    case Off(x) => x == im
  }

  lemma LostStep(c: Config, im: Image, w: Reading, m: map<Key, Data>, s: System, e: Event, s': System)
    requires ValidConfig(c) && Dims(c, im) && ReadsAs(c, im, w, m) && AllFull(c, w.pos) && w.stale == None
    requires !Rescuable(c, w.at) && Lost(c, s, im) && Step(c, s, e, s')
    ensures Lost(c, s', im)
  {
    hide ReadsAs, Boot, Exec, Indexed, Collecting, Dims, Trapped, AllFull, Rescuable;
    match (s, e)
    case (On(st), Do(call)) => FullCall(c, st, call);
    case (On(st), Cut(call, n)) => FullCall(c, st, call);
    case (Off(x), PowerOn) =>
      FullBoot(c, im, w, m);
      FullBootTrapped(c, im, w, m);
    case (Off(x), CutPowerOn(n)) => FullBoot(c, im, w, m);
  }

  lemma {:induction false} LostForever(c: Config, im: Image, w: Reading, m: map<Key, Data>, ss: seq<System>,
      es: seq<Event>, n: nat)
    requires ValidConfig(c) && Dims(c, im) && ReadsAs(c, im, w, m) && AllFull(c, w.pos) && w.stale == None
    requires !Rescuable(c, w.at) && Path(c, ss, es) && Lost(c, ss[0], im) && n <= |es|
    ensures Lost(c, ss[n], im)
  {
    hide ReadsAs, Step, Lost, Dims, AllFull, Rescuable;
    if n > 0 {
      LostForever(c, im, w, m, ss, es, n - 1);
      LostStep(c, im, w, m, ss[n - 1], es[n - 1], ss[n]);
    }
  }

  /** A run that ends in a state with room. */
  ghost predicate LeadsToRoom(c: Config, s: System, ss: seq<System>, es: seq<Event>) {
    Path(c, ss, es) && ss[0] == s && ss[|es|].On? && !AllFull(c, ss[|es|].st.pos)
  }

  /** Some run from `st` reaches a state with room again. */
  ghost predicate Freeable(c: Config, st: State) {
    exists ss: seq<System>, es: seq<Event> :: LeadsToRoom(c, On(st), ss, es)
  }

  lemma Prepend(c: Config, s0: System, e: Event, s1: System, ss: seq<System>, es: seq<Event>)
    requires LeadsToRoom(c, s1, ss, es) && Step(c, s0, e, s1)
    ensures LeadsToRoom(c, s0, [s0] + ss, [e] + es)
  {
    hide Step, AllFull;
    var ss', es' := [s0] + ss, [e] + es;
    forall i | 0 <= i < |es'|
      ensures Step(c, ss'[i], es'[i], ss'[i + 1])
    {
      if i > 0 { assert Step(c, ss[i - 1], es[i - 1], ss[i]); }
    }
    assert ss'[|es'|] == ss[|es|];
  }

  lemma {:induction false} CallsFree(c: Config, st: State, calls: seq<Call>) returns (ss: seq<System>, es: seq<Event>)
    requires Ring(c, st) && Frees(c, st, calls)
    ensures LeadsToRoom(c, On(st), ss, es)
    decreases |calls|
  {
    hide Ring, Exec, AllFull;
    if !AllFull(c, st.pos) {
      ss, es := [On(st)], [];
    } else {
      var st1 := Exec(c, st, calls[0]).0;
      ss, es := CallsFree(c, st1, calls[1..]);
      Prepend(c, On(st), Do(calls[0]), On(st1), ss, es);
      ss, es := [On(st)] + ss, [Do(calls[0])] + es;
    }
  }

  const FORCED := Thread(true, Env(true, true))

  lemma {:induction false} ThreeAwake()
    ensures Awakes([FORCED, FORCED, FORCED]) == 3
  {
    assert Awakes([]) == 0 && [FORCED][1..] == [];
    assert Awakes([FORCED]) == 1 && [FORCED, FORCED][1..] == [FORCED];
    assert Awakes([FORCED, FORCED]) == 2 && [FORCED, FORCED, FORCED][1..] == [FORCED, FORCED];
  }

  /** The exact condition, power cuts included: a full store can be freed by some run
      if and only if the collector's victim holds no variable, or a power cycle can
      help, because a sector other than sector 0 holds none. */
  lemma FullStoreFreeable(c: Config, st: State)
    requires Inv(c, st) && Ring(c, st) && AllFull(c, st.pos)
    ensures Freeable(c, st) <==> Trapped(c, st) == 0 || Rescuable(c, Where(st.fd))
  {
    hide ReadsAs, Boot, Where, Step, Indexed, Collecting, Dims, Trapped, AllFull, Rescuable, Frees, ExecAll, Contents;
    var calls := [FORCED, FORCED, FORCED];
    ThreeAwake();
    var w, m := ReadingOf(st), Vars(c, st);
    StateReads(c, st);
    if Trapped(c, st) == 0 {
      FullStoreOutcome(c, st, calls);
      var ss, es := CallsFree(c, st, calls);
    } else if Rescuable(c, w.at) {
      FullBootOutcome(c, st.flash, w, m, calls);
      var b := Boot(c, st.flash);
      var ss, es := CallsFree(c, b, calls);
      BootAfterCut(c, st);
      Prepend(c, Off(st.flash), PowerOn, On(b), ss, es);
      Prepend(c, On(st), Cut(FORCED, 0), Off(st.flash), [Off(st.flash)] + ss, [PowerOn] + es);
    } else if Freeable(c, st) {
      var ss: seq<System>, es: seq<Event> :| LeadsToRoom(c, On(st), ss, es);
      LostForever(c, st.flash, w, m, ss, es, |es|);
    }
  }

  lemma StateReads(c: Config, st: State)
    requires Inv(c, st)
    ensures ValidConfig(c) && Dims(c, st.flash) && ReadsAs(c, st.flash, ReadingOf(st), Vars(c, st))
  {
    hide Find, Good, Where, Distinct, Entries, Dims, Contents;
    TableFits(c, st.fd);
  }

  lemma BootAfterCut(c: Config, st: State)
    requires Ring(c, st)
    ensures Step(c, On(st), Cut(FORCED, 0), Off(st.flash)) && Step(c, Off(st.flash), PowerOn, On(Boot(c, st.flash)))
  {
    hide Dims, Exec, Boot;
  }

  // ---------------------------------------------------------------- an example

  /** Sector 0 is full and the collector finds sector 2 without variables: the write
      moves on to sector 1, and the nested call erases sector 2 at once. */
  lemma {:induction false} ErasingRollover(c: Config, st: State)
    requires c.sectors == 3 && c.slots == 2 && c.minBlank == 1
    requires Sketch(c, st, [2, 0, 2], 0, [0, 0]) && st.pc == Yield556
    ensures var (ready, code) := UpdateSector(c, st, Env(false, true));
            code >= 0 && Sketch(c, ready, [2, 0, 0], 1, [0, 0]) && ready.pc == Wait555
  {
    hide Indexed, Collecting, Dims, Contents, Successor, FsThread, FindRelocSector, CountIn;
    assert NextFree(c, [2, 0, 2], 0, 0) == Some(1);
    Collector.UpdateSectorKeeps(c, st, Env(false, true));
    Collector.ActivateKeeps(c, st, 1);
    var st1 := Activate(c, st, 1);
    ChoosesEmpty(c, st1);
    Progress.SelectStep(c, st1, 2, true, Env(false, true));
    SelectErases(c, st1);
  }

  lemma ChoosesEmpty(c: Config, st: State)
    requires c.sectors == 3 && c.slots == 2 && c.minBlank == 1 && Sketch(c, st, [2, 0, 2], 1, [0, 0])
    ensures FindRelocSector(c, st.fd, st.pos, st.cur) == Some(2) && CountIn(st.fd, 2) == 0
  {
    hide Indexed, Collecting, Ring, Best, CountIn;
    CountOutside(st.fd, 2);
    CountInside(st.fd, 0, 0);
    assert BlankCount(c, [2, 0, 2], 1, 1) == 0 && BlankCount(c, [2, 0, 2], 1, 2) == 0;
    Victim.VictimChoice(c, st, FindRelocSector(c, st.fd, st.pos, st.cur).value);
  }

  lemma {:induction false} SelectErases(c: Config, st: State)
    requires c.sectors == 3 && c.slots == 2 && Sketch(c, st, [2, 0, 2], 1, [0, 0]) && st.pc == Yield556
    requires FindRelocSector(c, st.fd, st.pos, st.cur) == Some(2)
    ensures var st' := FsThread(c, st, true, Env(false, true));
            st'.pos == [2, 0, 0] && st'.fd == st.fd && st'.cur == st.cur && st'.pc == Wait555
  {
    hide Indexed, Collecting, Dims, FindRelocSector, EraseVictim;
    var st1 := st.(reloc := st.reloc.(sector := 2));
    assert NextIn(st.fd, 2, 0) == |st.fd|;
    var st2 := st1.(reloc := st1.reloc.(fdIndex := |st.fd|), pc := Wait622);
    assert Ring(c, st2);
    Progress.EraseShape(c, st2);
    Progress.EraseSlack(c, st2);
    assert [2, 0, 2][2 := 0] == [2, 0, 0];
  }

  /** Five more writes after the first three: sector 0 is left without variables, and
      sectors 1 and 2 keep one each. */
  lemma {:induction false} LastFive(c: Config, st: State)
    requires c.sectors == 3 && c.slots == 2 && c.minBlank == 1 && c.fdMax == 2 && Ring(c, st)
    requires Accepted(c, st, [0, 1, 0])
    requires Sketch(c, Puts(c, st, [0, 1, 0]), [1, 0, 2], 0, [0, 2]) && Puts(c, st, [0, 1, 0]).pc == Yield556
    ensures Accepted(c, st, [0, 1, 0, 1, 0, 1, 0, 0])
    ensures var st' := Puts(c, st, [0, 1, 0, 1, 0, 1, 0, 0]);
            Sketch(c, st', [2, 2, 2], 2, [2, 1]) && st'.pc == Yield556
  {
    hide Inv, Ring, Put, Var, UpdateSector, TruncateExt, Puts, Accepted;
    PutNext(c, st, [0, 1, 0], [1, 0, 2], 0, [0, 2], 1, [0, 1, 0, 1]);
    var st4 := Puts(c, st, [0, 1, 0, 1]);
    ErasingRollover(c, st4);
    PutAfter(c, st, [0, 1, 0, 1], UpdateSector(c, st4, Env(false, true)).0, [2, 0, 0], 1, [0, 0], 0, [0, 1, 0, 1, 0]);
    PutNext(c, st, [0, 1, 0, 1, 0], [2, 1, 0], 1, [1, 0], 1, [0, 1, 0, 1, 0, 1]);
    var st6 := Puts(c, st, [0, 1, 0, 1, 0, 1]);
    assert NextFree(c, [2, 2, 0], 1, 1) == Some(2);
    StartRollover(c, st6, [2, 2, 0], 1, [1, 1], 2);
    PutAfter(c, st, [0, 1, 0, 1, 0, 1], UpdateSector(c, st6, Env(false, true)).0, [2, 2, 0], 2, [1, 1], 0,
      [0, 1, 0, 1, 0, 1, 0]);
    PutNext(c, st, [0, 1, 0, 1, 0, 1, 0], [2, 2, 1], 2, [2, 1], 0, [0, 1, 0, 1, 0, 1, 0, 0]);
  }

  /** A power cycle can trap a store: eight accepted writes leave every sector full and
      sector 0 without variables, so that the collector would erase it. After a power
      cycle sector 0 is current, and nothing can ever be written again. */
  lemma BootTrapExample(crc: Crc)
    ensures var c := Tiny(crc);
            && Ring(c, Boot(c, Factory(c)))
            && Accepted(c, Boot(c, Factory(c)), [0, 1, 0, 1, 0, 1, 0, 0])
            && var st := Puts(c, Boot(c, Factory(c)), [0, 1, 0, 1, 0, 1, 0, 0]);
               && Inv(c, st) && AllFull(c, st.pos) && Trapped(c, st) == 0 && Freeable(c, st)
               && Dims(c, st.flash) && !Freeable(c, Boot(c, st.flash))
  {
    hide Indexed, Collecting, Ring, Puts, Accepted, Boot, Factory, CountIn, Sketch, Freeable, Trapped, Rescuable,
      ReadsAs, Dims;
    var c := Tiny(crc);
    TinyStart(crc);
    FirstThree(c, Boot(c, Factory(c)));
    LastFive(c, Boot(c, Factory(c)));
    var st := Puts(c, Boot(c, Factory(c)), [0, 1, 0, 1, 0, 1, 0, 0]);
    TwoLive(c, st);
    FullStoreFreeable(c, st);
    StateReads(c, st);
    FullBoot(c, st.flash, ReadingOf(st), Vars(c, st));
    FullBootTrapped(c, st.flash, ReadingOf(st), Vars(c, st));
    FullStoreFreeable(c, Boot(c, st.flash));
  }

  lemma TwoLive(c: Config, st: State)
    requires c.sectors == 3 && c.slots == 2 && Sketch(c, st, [2, 2, 2], 2, [2, 1]) && st.pc == Yield556
    ensures Inv(c, st) && Ring(c, st) && AllFull(c, st.pos) && Trapped(c, st) == 0
    ensures !Rescuable(c, Where(st.fd))
  {
    hide Inv, Ring, Trapped, Where;
    RestingTrapped(c, st);
    IndexedEntries(c, st);
    OutsideIsNoneLive(st.flash, st.fd, 1);
    OutsideIsNoneLive(st.flash, st.fd, 2);
    assert Outside(st.fd, 0, |st.fd|);
    assert st.fd[1].sector == 1 && st.fd[0].sector == 2;
  }
}
