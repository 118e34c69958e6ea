/** Whole runs: user calls, collector calls, power cuts after any single flash
    operation, and boots that can themselves be cut. The store refines an atomic map. */
module Runs {
  import opened Block
  import opened Store
  import opened Images
  import opened Invariant
  import opened Writing
  import opened Collector
  import opened Booting

  datatype Call =
    | Write(name: bv16, ext: bv8, data: seq<bv8>, env: Env)
    | Thread(flag: bool, env: Env)

  /** `Cut(call, n)`: the power fails during `call`, after its first `n` flash operations. */
  datatype Event =
    | Do(call: Call)
    | Cut(call: Call, n: nat)
    | PowerOn
    | CutPowerOn(n: nat)

  datatype System = On(st: State) | Off(im: Image)

  /** One call, with the log of its own flash operations. */
  function Exec(c: Config, st: State, call: Call): (r: (State, int))
    requires Ring(c, st)
    ensures Ring(c, r.0)
  {
    var start := st.(log := []);
    match call
    case Write(name, ext, data, env) => FsWrite(c, start, name, ext, data, env)
    case Thread(flag, env) => (FsThread(c, start, flag, env), 0)
  }

  /** The flash content once `n` of the logged operations have happened. */
  function ImageAfter(im: Image, log: seq<Image>, n: nat): Image
    requires n <= |log|
  {
    if n == 0 then im else log[n - 1]
  }

  /** The transitions of the store, with no reference to what it should mean. */
  ghost predicate Step(c: Config, s: System, e: Event, s': System) {
    match (s, e)
    case (On(st), Do(call)) => Ring(c, st) && s' == On(Exec(c, st, call).0)
    case (On(st), Cut(call, n)) =>
      Ring(c, st) && n <= |Exec(c, st, call).0.log| && s' == Off(ImageAfter(st.flash, Exec(c, st, call).0.log, n))
    case (Off(im), PowerOn) => ValidConfig(c) && Dims(c, im) && s' == On(Boot(c, im))
    case (Off(im), CutPowerOn(n)) =>
      ValidConfig(c) && Dims(c, im) && n <= |Boot(c, im).log| && s' == Off(ImageAfter(im, Boot(c, im).log, n))
    case _ => false
  }

  /** The caller's duty: a new variable is written only while fewer than FD_MAX exist. */
  predicate Legal(c: Config, m: map<Key, Data>, call: Call) {
    call.Write? && |call.data| <= DATA_SIZE ==> Key(call.name, TruncateExt(call.ext)) in m || |m| < c.fdMax
  }

  predicate LegalEvent(c: Config, m: map<Key, Data>, e: Event) {
    (e.Do? || e.Cut?) ==> Legal(c, m, e.call)
  }

  predicate Succeeds(c: Config, st: State, call: Call)
    requires Ring(c, st)
  {
    call.Write? && |call.data| <= DATA_SIZE && Exec(c, st, call).1 == 0
  }

  /** The number of flash operations after which an interrupted write is durable:
      those before line 385, and that one. */
  ghost function CommitPoint(c: Config, st: State, call: Call): nat
    requires Ring(c, st) && call.Write?
  {
    CommitIndex(c, st.(log := []), Key(call.name, TruncateExt(call.ext)), call.env) + 1
  }

  function Updated(m: map<Key, Data>, call: Call): map<Key, Data>
    requires call.Write? && |call.data| <= DATA_SIZE
  {
    m[Key(call.name, TruncateExt(call.ext)) := Pad(call.data)]
  }

  /** The atomic map: it changes only at a successful write, and a cut write counts
      exactly when its cell write happened. */
  ghost predicate Abstract(c: Config, s: System, e: Event, m: map<Key, Data>, m': map<Key, Data>) {
    match (s, e)
    case (On(st), Do(call)) =>
      Ring(c, st) && m' == if Succeeds(c, st, call) then Updated(m, call) else m
    case (On(st), Cut(call, n)) =>
      Ring(c, st) && m' == if Succeeds(c, st, call) && n >= CommitPoint(c, st, call) then Updated(m, call) else m
    case _ => m' == m
  }

  /** The system, on or off, stores `m`. */
  ghost predicate Stores(c: Config, s: System, m: map<Key, Data>) {
    ValidConfig(c) &&
    match s
    case On(st) => Inv(c, st) && Vars(c, st) == m
    case Off(im) => Dims(c, im) && Holds(c, im, m)
  }

  lemma FreshLog(c: Config, st: State)
    requires Inv(c, st)
    ensures Inv(c, st.(log := [])) && Ring(c, st) && Ring(c, st.(log := [])) && Vars(c, st.(log := [])) == Vars(c, st)
  {
    hide Find, Good, Reads, Distinct, Where, Dims, Entries;
    IndexedIsRing(c, st);
  }

  lemma HoldsDims(c: Config, im: Image, m: map<Key, Data>)
    requires Holds(c, im, m)
    ensures Dims(c, im)
  {
    hide Layout, LiveAt;
  }

  lemma InvHolds(c: Config, st: State)
    requires Inv(c, st)
    ensures Dims(c, st.flash) && Holds(c, st.flash, Vars(c, st)) && ValidConfig(c)
  {
    hide Find, Good, Reads, Distinct, Where, Dims, Entries, Collecting;
    TableFits(c, st.fd);
    HoldsOf(c, st.flash, ReadingOf(st), Vars(c, st));
  }

  lemma ExecWriteKeeps(c: Config, st: State, call: Call)
    requires Inv(c, st) && Ring(c, st) && call.Write? && Legal(c, Vars(c, st), call)
    ensures var (st', code) := Exec(c, st, call);
            && Inv(c, st')
            && (Succeeds(c, st, call) <==> |call.data| <= DATA_SIZE && !AllFull(c, st.pos))
            && (if Succeeds(c, st, call)
                then Vars(c, st') == Updated(Vars(c, st), call)
                     && Commits(c, [], CommitPoint(c, st, call) - 1, st'.log, Vars(c, st), Vars(c, st'))
                     && CommitPoint(c, st, call) <= |st'.log|
                else st' == st.(log := []))
  {
    hide Find, Good, Shape, Distinct, Where, Dims, Entries, Collecting, Indexed, Contents, Holds, Commits, Fits,
      CommitIndex, FsWrite, NeedsClear;
    FreshLog(c, st);
    var start := st.(log := []);
    FitsByVars(c, start, Key(call.name, TruncateExt(call.ext)));
    WriteKeeps(c, start, call.name, call.ext, call.data, call.env);
  }

  lemma ExecThreadKeeps(c: Config, st: State, call: Call)
    requires Inv(c, st) && Ring(c, st) && call.Thread?
    ensures var st' := Exec(c, st, call).0;
            Inv(c, st') && Vars(c, st') == Vars(c, st) && Logged(c, [], st'.log, Vars(c, st))
  {
    hide Find, Good, Reads, Distinct, Where, Dims, Entries, Collecting, Holds, Logged, FsThread;
    FreshLog(c, st);
    ThreadKeeps(c, st.(log := []), call.flag, call.env);
  }

  /** A completed call: result code, new state and the images it went through. */
  lemma ExecKeeps(c: Config, st: State, call: Call)
    requires Inv(c, st) && Ring(c, st) && Legal(c, Vars(c, st), call)
    ensures var (st', code) := Exec(c, st, call);
            && Inv(c, st')
            && (if Succeeds(c, st, call)
                then Vars(c, st') == Updated(Vars(c, st), call)
                     && Commits(c, [], CommitPoint(c, st, call) - 1, st'.log, Vars(c, st), Vars(c, st'))
                     && CommitPoint(c, st, call) <= |st'.log|
                else Vars(c, st') == Vars(c, st) && Logged(c, [], st'.log, Vars(c, st)))
  {
    hide Shape, Indexed, Collecting, Contents, Holds, Commits, CommitIndex, Exec;
    if call.Write? {
      ExecWriteKeeps(c, st, call);
      FreshLog(c, st);
      SameLog(c, [], Vars(c, st));
    } else {
      ExecThreadKeeps(c, st, call);
    }
  }

  lemma BootOf(c: Config, im: Image, m: map<Key, Data>)
    requires ValidConfig(c) && Dims(c, im) && Holds(c, im, m)
    ensures Inv(c, Boot(c, im)) && Vars(c, Boot(c, im)) == m && Logged(c, [], Boot(c, im).log, m)
  {
    hide Inv, Dims, ReadsAs, Boot, Contents, Logged;
    var w :| ReadsAs(c, im, w, m);
    BootKeeps(c, im, w, m);
  }

  /** Every legal step of the store, power cuts included, is a step of the atomic map. */
  lemma StepRefines(c: Config, s: System, e: Event, s': System, m: map<Key, Data>, m': map<Key, Data>)
    requires Stores(c, s, m) && Step(c, s, e, s') && LegalEvent(c, m, e) && Abstract(c, s, e, m, m')
    ensures Stores(c, s', m')
  {
    hide Inv, Dims, Holds, Exec, Ring, Boot, Contents, CommitPoint, Succeeds;
    match (s, e)
    case (On(st), Do(call)) => ExecKeeps(c, st, call);
    case (On(st), Cut(call, n)) =>
      CutHolds(c, s, e, s', m, m');
    case (Off(im), PowerOn) => BootOf(c, im, m);
    case (Off(im), CutPowerOn(n)) =>
      BootOf(c, im, m);
      if n > 0 { HoldsDims(c, s'.im, m'); }
  }

  lemma CutHolds(c: Config, s: System, e: Event, s': System, m: map<Key, Data>, m': map<Key, Data>)
    requires Stores(c, s, m) && Step(c, s, e, s') && LegalEvent(c, m, e) && Abstract(c, s, e, m, m')
    requires s.On? && e.Cut?
    ensures Dims(c, s'.im) && Holds(c, s'.im, m')
  {
    hide Inv, Dims, Holds, Exec, Ring, Contents, CommitPoint, Succeeds;
    ExecKeeps(c, s.st, e.call);
    InvHolds(c, s.st);
    HoldsDims(c, s'.im, m');
  }

  // ---------------------------------------------------------------- sequences of calls

  function ExecAll(c: Config, st: State, calls: seq<Call>): (r: State)
    requires Ring(c, st)
    ensures Ring(c, r)
    decreases |calls|
  {
    if calls == [] then st else ExecAll(c, Exec(c, st, calls[0]).0, calls[1..])
  }

  /** Every write of a new variable finds a free descriptor when its turn comes. */
  ghost predicate LegalSession(c: Config, st: State, calls: seq<Call>)
    requires Ring(c, st)
    decreases |calls|
  {
    calls == [] ||
    (&& (calls[0].Write? && |calls[0].data| <= DATA_SIZE ==> Fits(c, st, Key(calls[0].name, TruncateExt(calls[0].ext))))
     && LegalSession(c, Exec(c, st, calls[0]).0, calls[1..]))
  }

  // ---------------------------------------------------------------- whole runs

  /** A run: calls, cuts, boots and cut boots. */
  ghost predicate Path(c: Config, ss: seq<System>, es: seq<Event>) {
    |ss| == |es| + 1 && forall i :: 0 <= i < |es| ==> Step(c, ss[i], es[i], ss[i + 1])
  }

  /** A run of the store beside the run of the atomic map that it is claimed to refine. */
  ghost predicate Run(c: Config, ss: seq<System>, es: seq<Event>, ms: seq<map<Key, Data>>) {
    && |ss| == |ms| == |es| + 1
    && forall i :: 0 <= i < |es| ==>
         Step(c, ss[i], es[i], ss[i + 1]) && LegalEvent(c, ms[i], es[i]) && Abstract(c, ss[i], es[i], ms[i], ms[i + 1])
  }

  /** A fully erased device. */
  ghost function Factory(c: Config): (im: Image)
    ensures Dims(c, im)
  {
    map a | a in Rows(c, c.sectors) :: BLANK_CELL
  }

  lemma FactoryReads(c: Config, w: Reading)
    requires ValidConfig(c) && w == Reading(seq(c.sectors, i => 0), 0, map[], None)
    ensures ReadsAs(c, Factory(c), w, map[])
  {
    GoodIsProgrammed(c.crc, BLANK_CELL);
    hide Good;
    assert Contents(Factory(c), w.at) == map[];
  }

  lemma FactoryIsEmpty(c: Config)
    requires ValidConfig(c)
    ensures Stores(c, Off(Factory(c)), map[])
  {
    hide Good, Layout, LiveAt, Factory;
    var w := Reading(seq(c.sectors, i => 0), 0, map[], None);
    FactoryReads(c, w);
  }

  /** Crash refinement over whole runs: however calls, collector steps, power cuts
      and interrupted boots are interleaved, the store always holds the atomic map. */
  lemma {:induction false} RunRefines(c: Config, ss: seq<System>, es: seq<Event>, ms: seq<map<Key, Data>>, n: nat)
    requires ValidConfig(c) && Run(c, ss, es, ms) && n <= |es|
    requires ss[0] == Off(Factory(c)) && ms[0] == map[]
    ensures Stores(c, ss[n], ms[n])
  {
    hide Stores, Step, Abstract, LegalEvent, Factory;
    if n == 0 {
      FactoryIsEmpty(c);
    } else {
      RunRefines(c, ss, es, ms, n - 1);
      StepRefines(c, ss[n - 1], es[n - 1], ss[n], ms[n - 1], ms[n]);
    }
  }

  /** The invariant never blocks: every call can be made, and cut after any number
      `n` of its flash operations. */
  lemma CallsNeverBlock(c: Config, st: State, call: Call, n: nat, m: map<Key, Data>)
    requires Stores(c, On(st), m)
    ensures Ring(c, st)
    ensures exists s', m' :: Step(c, On(st), Do(call), s') && Abstract(c, On(st), Do(call), m, m')
    ensures n <= |Exec(c, st, call).0.log| ==>
              exists s', m' :: Step(c, On(st), Cut(call, n), s') && Abstract(c, On(st), Cut(call, n), m, m')
  {
    hide Dims, Exec, Contents, CommitPoint, Ring, Collecting, Indexed;
    IndexedIsRing(c, st);
    var m1 := if Succeeds(c, st, call) then Updated(m, call) else m;
    assert Step(c, On(st), Do(call), On(Exec(c, st, call).0)) && Abstract(c, On(st), Do(call), m, m1);
    if n <= |Exec(c, st, call).0.log| {
      var s' := Off(ImageAfter(st.flash, Exec(c, st, call).0.log, n));
      var m' := if Succeeds(c, st, call) && n >= CommitPoint(c, st, call) then Updated(m, call) else m;
      assert Step(c, On(st), Cut(call, n), s') && Abstract(c, On(st), Cut(call, n), m, m');
    }
  }

  // ---------------------------------------------------------------- reading

  lemma {:induction false} FindForReadIs(fd: seq<Fd>, name: bv16, ext: bv8)
    ensures FindForRead(fd, name, ext) == if ext < 8 then Find(fd, Key(name, TruncateExt(ext))) else |fd|
  {
    hide Find, FindForRead;
    var i, j := FindForRead(fd, name, ext), Find(fd, Key(name, TruncateExt(ext)));
    ExtFits(ext);
    if i < |fd| { ExtMatches(fd[i].header.ext, ext); }
    if j < |fd| { ExtMatches(fd[j].header.ext, ext); }
    hide TruncateExt;
  }

  lemma ExtFits(ext: bv8)
    ensures ext < 8 ==> TruncateExt(ext) as bv8 == ext
  {
  }

  lemma ExtMatches(e: bv3, ext: bv8)
    ensures e as bv8 == ext ==> ext < 8 && e == TruncateExt(ext)
    ensures ext < 8 && e == TruncateExt(ext) ==> e as bv8 == ext
  {
  }

  /** `fs_read` returns the stored value exactly when the variable exists and the
      extension fits its three bits; larger extensions are never found. */
  lemma ReadReturns(c: Config, st: State, name: bv16, ext: bv8, len: nat)
    requires Inv(c, st) && len <= DATA_SIZE
    ensures var key := Key(name, TruncateExt(ext));
            FsRead(c, st, name, ext, len) ==
            if ext < 8 && key in Vars(c, st) then (0, Vars(c, st)[key][..len]) else (-1, [])
  {
    hide Find, FindForRead, Good, Reads, Distinct, Dims, Entries, Collecting;
    FindForReadIs(st.fd, name, ext);
    FitsByVars(c, st, Key(name, TruncateExt(ext)));
    WhereKeys(st.fd);
    hide Where, TruncateExt;
  }

  /** Whether the event at `s` changes the value of `key`. */
  ghost predicate Touches(c: Config, s: System, e: Event, key: Key) {
    && s.On? && (e.Do? || e.Cut?) && Ring(c, s.st)
    && Succeeds(c, s.st, e.call) && Key(e.call.name, TruncateExt(e.call.ext)) == key
    && (e.Cut? ==> e.n >= CommitPoint(c, s.st, e.call))
  }

  lemma {:induction false} Untouched(c: Config, ss: seq<System>, es: seq<Event>, ms: seq<map<Key, Data>>, i: nat,
      n: nat, key: Key)
    requires Run(c, ss, es, ms) && i <= n <= |es|
    requires forall j :: i <= j < n ==> !Touches(c, ss[j], es[j], key)
    ensures key in ms[i] <==> key in ms[n]
    ensures key in ms[i] ==> ms[n][key] == ms[i][key]
    decreases n - i
  {
    hide CommitPoint, Succeeds, Ring, Step, LegalEvent, Exec;
    if i < n {
      Untouched(c, ss, es, ms, i, n - 1, key);
      assert Abstract(c, ss[n - 1], es[n - 1], ms[n - 1], ms[n]);
    }
  }

  lemma TouchUpdates(c: Config, s: System, e: Event, m: map<Key, Data>, m': map<Key, Data>)
    requires (e.Do? || e.Cut?) && e.call.Write?
    requires Touches(c, s, e, Key(e.call.name, TruncateExt(e.call.ext))) && Abstract(c, s, e, m, m')
    ensures |e.call.data| <= DATA_SIZE && m' == Updated(m, e.call)
  {
    hide Ring, CommitPoint, Exec;
  }

  /** Read your writes, over any run: after an `fs_write` that succeeded, or that a
      power cut interrupted after its commit point, and whatever the collector, other
      writes, power cuts and boots do in between, `fs_read` of the same variable
      returns the written bytes, zero-padded. */
  lemma LastWriteWins(c: Config, ss: seq<System>, es: seq<Event>, ms: seq<map<Key, Data>>, i: nat, n: nat, len: nat)
    requires ValidConfig(c) && Run(c, ss, es, ms) && i < n <= |es| && len <= DATA_SIZE
    requires ss[0] == Off(Factory(c)) && ms[0] == map[]
    requires (es[i].Do? || es[i].Cut?) && es[i].call.Write? && es[i].call.ext < 8
    requires Touches(c, ss[i], es[i], Key(es[i].call.name, TruncateExt(es[i].call.ext)))
    requires forall j :: i < j < n ==> !Touches(c, ss[j], es[j], Key(es[i].call.name, TruncateExt(es[i].call.ext)))
    requires ss[n].On?
    ensures var call := es[i].call;
            Shape(c, ss[n].st) && FsRead(c, ss[n].st, call.name, call.ext, len) == (0, Pad(call.data)[..len])
  {
    hide Touches, Ring, Step, Holds, Factory, FsRead, Succeeds, CommitPoint, Collecting, Contents;
    var call := es[i].call;
    RunRefines(c, ss, es, ms, n);
    Untouched(c, ss, es, ms, i + 1, n, Key(call.name, TruncateExt(call.ext)));
    TouchUpdates(c, ss[i], es[i], ms[i], ms[i + 1]);
    ReadReturns(c, ss[n].st, call.name, call.ext, len);
  }

  /** In every image that a cut can leave, at most one variable has two valid cells,
      never three, and of the two exactly one is flagged `newer`. */
  lemma DuplicateDiscipline(c: Config, im: Image, m: map<Key, Data>, x: Addr, y: Addr, z: Addr)
    requires Holds(c, im, m)
    requires ValidAt(c, im, x) && ValidAt(c, im, y) && x != y && KeyAt(im, x) == KeyAt(im, y)
    ensures NewerAt(im, x) != NewerAt(im, y)
    ensures z != x && z != y && ValidAt(c, im, z) ==>
              KeyAt(im, z) != KeyAt(im, x)
              && forall u :: ValidAt(c, im, u) && KeyAt(im, u) == KeyAt(im, z) ==> u == z
  {
    hide Good, Layout, Dims, Contents;
    var w :| ReadsAs(c, im, w, m);
    AtMostTwo(c, im, w, x, y, z);
    forall u | ValidAt(c, im, u) && ValidAt(c, im, z) && z != x && z != y && KeyAt(im, u) == KeyAt(im, z)
      ensures u == z
    {
      AtMostTwo(c, im, w, x, y, u);
    }
  }
}
