/** The write budget of a relocation pass: how many user writes can be interleaved
    with the collector before one is refused (wormvars.c:314-353, 567-628). */
module Budget {
  import opened Arithmetic
  import opened Block
  import opened Store
  import opened Images
  import opened Invariant
  import opened Writing
  import opened Collector
  import opened Progress
  import opened Runs
  import Victim

  /** A user write during a pass costs at most one unit of slack, wherever it lands
      and even if it changes sector and re-enters the collector. */
  lemma {:induction false} UserWrite(c: Config, st: State, name: bv16, ext: bv8, data: seq<bv8>, env: Env)
    requires Inv(c, st) && Ring(c, st) && Passing(st.pc) && Slack(c, st) >= 1
    requires |data| <= DATA_SIZE && Fits(c, st, Key(name, TruncateExt(ext)))
    ensures var (st', code) := FsWrite(c, st, name, ext, data, env);
            && code == 0
            && (st'.pc == Wait555 || (Passing(st'.pc) && Slack(c, st') >= Slack(c, st) - 1))
  {
    hide Find, Good, Reads, Distinct, Where, Dims, Entries, FsThread, Contents, CountIn, FreeUpTo, Collecting,
      BlankCount, WriteCell, FsWrite, UpdateSector, Commits, Fits, NextFree;
    var key := Key(name, TruncateExt(ext));
    FreeIsRoom(c, st);
    UpdateSectorKeeps(c, st, env);
    WriteIsWriteCell(c, st, name, ext, data, env);
    var ready := UpdateSector(c, st, env).0;
    ReadySlack(c, st, env);
    FitsByVars(c, st, key);
    FitsByVars(c, ready, key);
    WriteCellCommits(c, ready, key, Pad(data));
    if ready.pc != Wait555 {
      PassingVictim(c, ready);
      WriteSlack(c, ready, key, WriteCell(c, ready, key, Pad(data)).0);
    }
  }

  lemma PassingVictim(c: Config, st: State)
    requires Inv(c, st) && Passing(st.pc)
    ensures st.reloc.sector != st.cur
  {
    hide Find, Good, Reads, Distinct, Where, Dims, Entries;
  }

  /** A write that needs no sector change. */
  lemma RoomyWrite(c: Config, st: State, key: Key, data: Data)
    requires Inv(c, st) && Ring(c, st) && st.pos[st.cur] < c.slots && Fits(c, st, key)
    ensures var (st', code) := WriteCell(c, st, key, data);
            && code == 0 && st'.pc == st.pc && WriteFrame(c, st, key, st') && Blanks(c, st') == Blanks(c, st)
            && (Passing(st.pc) ==> Left(st') <= Left(st) && Calls(st') <= Calls(st))
  {
    hide Find, Good, Reads, Distinct, Where, Dims, Entries, Collecting, WriteCell, Commits, Contents, CountIn,
      FreeUpTo, BlankCount, Fits;
    WriteCellCommits(c, st, key, data);
    var st' := WriteCell(c, st, key, data).0;
    BlanksSet(c, st.pos, st.cur, st.cur, st.pos[st.cur] + 1, c.sectors);
    if Passing(st.pc) {
      PassingVictim(c, st);
      WriteSlack(c, st, key, st');
      if st.pc == Wait576 || st.pc == Yield596 {
        WriteCalls(c, st, key, st');
      }
    }
  }

  /** If the write takes the very variable that is about to be moved, the pass needs
      no more calls than before. */
  lemma WriteCalls(c: Config, st: State, key: Key, st': State)
    requires Inv(c, st) && Shape(c, st') && WriteFrame(c, st, key, st') && st'.pc == st.pc
    requires st.pc == Wait576 || st.pc == Yield596
    ensures Calls(st') <= Calls(st)
  {
    hide Find, Good, Reads, Distinct, Where, Dims, CountIn;
    WriteSlack(c, st, key, st');
    EntryHeader(c, st, st.reloc.fdIndex);
  }

  /** After `updateSector`: a sector change uses up one possible sector change. */
  lemma {:induction false} ReadySlack(c: Config, st: State, env: Env)
    requires Inv(c, st) && Ring(c, st) && Passing(st.pc) && Slack(c, st) >= 1
    ensures var ready := UpdateSector(c, st, env).0;
            ready.pc == Wait555 || (Passing(ready.pc) && Slack(c, ready) >= Slack(c, st))
  {
    hide Find, Good, Reads, Distinct, Where, Dims, Entries, FsThread, Contents, CountIn, FreeUpTo, Collecting,
      BlankCount, NextFree;
    if st.pos[st.cur] >= c.slots {
      FreeIsRoom(c, st);
      SomeFree(c, st, env);
      var next := NextFree(c, st.pos, st.cur, st.cur).value;
      ActivateKeeps(c, st, next);
      ActivateSlack(c, st, next);
      ThreadStep(c, Activate(c, st, next), true, env);
    }
  }

  /** The number of user writes among `calls`. */
  function Writes(calls: seq<Call>): nat {
    if calls == [] then 0 else Writes(calls[1..]) + if calls[0].Write? then 1 else 0
  }

  /** Every write fits a cell. */
  predicate Sized(calls: seq<Call>) {
    forall i :: 0 <= i < |calls| && calls[i].Write? ==> |calls[i].data| <= DATA_SIZE
  }

  /** Until the pass ends with the erase, no write is refused. */
  ghost predicate AllSucceed(c: Config, st: State, calls: seq<Call>)
    requires Ring(c, st)
    decreases |calls|
  {
    calls == [] ||
    ((calls[0].Write? ==> Exec(c, st, calls[0]).1 == 0)
     && (Exec(c, st, calls[0]).0.pc == Wait555 || AllSucceed(c, Exec(c, st, calls[0]).0, calls[1..])))
  }

  lemma FreshSlack(c: Config, st: State)
    requires Inv(c, st) && Ring(c, st)
    ensures var st' := st.(log := []);
            Inv(c, st') && Ring(c, st') && Slack(c, st') == Slack(c, st) && st'.pc == st.pc && st'.fd == st.fd
  {
    hide CountIn, FreeUpTo, BlankCount;
    FreshLog(c, st);
  }

  lemma CallStep(c: Config, st: State, call: Call)
    requires Inv(c, st) && Ring(c, st) && Passing(st.pc) && Slack(c, st) >= if call.Write? then 1 else 0
    requires call.Write? ==> |call.data| <= DATA_SIZE && Fits(c, st, Key(call.name, TruncateExt(call.ext)))
    ensures var (st', code) := Exec(c, st, call);
            && Inv(c, st') && (call.Write? ==> code == 0)
            && (st'.pc == Wait555 || (Passing(st'.pc) && Slack(c, st') >= Slack(c, st) - if call.Write? then 1 else 0))
  {
    hide Find, Good, Reads, Distinct, Where, Dims, Entries, FsThread, Contents, CountIn, FreeUpTo, Collecting,
      BlankCount, FsWrite, Commits, Slack, Inv, Ring, Passing;
    FreshSlack(c, st);
    match call
    case Write(name, ext, data, env) =>
      UserWrite(c, st.(log := []), name, ext, data, env);
      WriteKeeps(c, st.(log := []), name, ext, data, env);
    case Thread(flag, env) =>
      ThreadStep(c, st.(log := []), flag, env);
      ThreadKeeps(c, st.(log := []), flag, env);
  }

  /** With enough slack for the user writes, none of them is refused, in any
      interleaving with the collector, until the victim has been erased. */
  lemma {:induction false} WriteBudget(c: Config, st: State, calls: seq<Call>)
    requires Inv(c, st) && Ring(c, st) && Passing(st.pc) && Slack(c, st) >= Writes(calls)
    requires LegalSession(c, st, calls) && Sized(calls)
    ensures AllSucceed(c, st, calls)
    decreases |calls|
  {
    hide Inv, Ring, Exec, Slack, Passing, Fits;
    if calls != [] {
      CallStep(c, st, calls[0]);
      if Exec(c, st, calls[0]).0.pc != Wait555 {
        WriteBudget(c, Exec(c, st, calls[0]).0, calls[1..]);
      }
    }
  }

  /** If the collector picks a victim with `live` variables while a blank sector is
      left, any interleaving with at most `slots - live - 1` user writes gets
      through the whole pass without one refusal. */
  lemma {:induction false} PassBudget(c: Config, st: State, v: nat, flag: bool, env: Env, calls: seq<Call>)
    requires Inv(c, st) && Ring(c, st) && st.pc == Yield556
    requires FindRelocSector(c, st.fd, st.pos, st.cur) == Some(v) && env.ready
    requires Blanks(c, st) >= 1 && Writes(calls) <= c.slots - CountIn(st.fd, v) - 1
    requires LegalSession(c, FsThread(c, st, flag, env), calls) && Sized(calls)
    ensures var st' := FsThread(c, st, flag, env);
            st'.pc == Wait555 || AllSucceed(c, st', calls)
  {
    hide Find, Good, Reads, Distinct, Where, Dims, Entries, FsThread, Contents, CountIn, FreeUpTo, Collecting,
      FindRelocSector, LegalSession, AllSucceed, BlankCount;
    SelectStep(c, st, v, flag, env);
    ThreadKeeps(c, st, flag, env);
    BlankIsFree(c, st);
    var st1 := FsThread(c, st, flag, env);
    if st1.pc != Wait555 {
      WriteBudget(c, st1, calls);
    }
  }

  lemma {:induction false} FreeAtLeast(c: Config, pos: seq<nat>, cur: nat, n: nat)
    requires |pos| == c.sectors && n <= |pos| && forall s :: 0 <= s < |pos| ==> pos[s] <= c.slots
    ensures FreeUpTo(c, pos, n) >= BlankCount(c, pos, cur, n) * c.slots
  {
    if n > 0 {
      FreeAtLeast(c, pos, cur, n - 1);
      MulSuccessor(c.slots, BlankCount(c, pos, cur, n - 1));
    }
  }

  lemma {:induction false} FreeSplit(c: Config, pos: seq<nat>, cur: nat, n: nat)
    requires |pos| == c.sectors && cur < |pos| && n <= |pos|
    requires forall s :: 0 <= s < |pos| && s != cur ==> pos[s] == 0 || pos[s] == c.slots
    requires 0 < c.slots && pos[cur] <= c.slots
    ensures FreeUpTo(c, pos, n) >= BlankCount(c, pos, cur, n) + if cur < n then c.slots - pos[cur] else 0
  {
    if n > 0 { FreeSplit(c, pos, cur, n - 1); }
  }

  lemma BlankIsFree(c: Config, st: State)
    requires Ring(c, st) && Blanks(c, st) >= 1
    ensures Free(c, st.pos) - Blanks(c, st) >= c.slots - 1
  {
    hide Dims, FreeUpTo, BlankCount;
    FreeAtLeast(c, st.pos, st.cur, c.sectors);
    MulMonotone(1, Blanks(c, st), c.slots - 1);
  }

  /** The shipped constants: 8 sectors of 128 slots, 2 blank ones, 300 descriptors. */
  predicate Shipped(c: Config) {
    c.sectors == 8 && c.slots == 128 && c.minBlank == 2 && c.fdMax == 300
  }

  /** As shipped a victim has at most 50 live variables, so at least 77 user writes
      always fit into a pass. */
  lemma {:induction false} ShippedBudget(c: Config, st: State, v: nat)
    requires Indexed(c, st) && Shipped(c) && FindRelocSector(c, st.fd, st.pos, st.cur) == Some(v)
    ensures var live := CountIn(st.fd, v);
            live <= 50 && c.slots - live - 1 >= 77
  {
    hide Find, Good, Reads, Distinct, Where, Dims, Entries, CountIn, FindRelocSector;
    Victim.VictimChoice(c, st, v);
  }
}
