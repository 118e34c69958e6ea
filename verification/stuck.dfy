/** Where the collector can get stuck, and exactly when: a store with every sector
    full, and a pass that was begun too late (wormvars.c:552-632). */
module Stuck {
  import opened Block
  import opened Store
  import opened Images
  import opened Invariant
  import opened Writing
  import opened Collector
  import opened Runs
  import opened Limits
  import Budget
  import Progress
  import Victim

  // ---------------------------------------------------------------- a full store

  lemma {:induction false} RefusedWrite(c: Config, st: State, name: bv16, ext: bv8, data: seq<bv8>, env: Env)
    requires Inv(c, st) && Ring(c, st) && AllFull(c, st.pos)
    ensures FsWrite(c, st, name, ext, data, env) == (st, if |data| > DATA_SIZE then -1 else -2)
  {
    hide Inv, WriteCell, UpdateSector, NextFree, Ring;
    UpdateSectorKeeps(c, st, env);
  }

  lemma {:induction false} RefusedMove(c: Config, st: State, flag: bool, env: Env)
    requires Inv(c, st) && Ring(c, st) && st.pc == Yield610
    ensures FsThread(c, st, flag, env) == st && AllFull(c, st.pos)
  {
    hide Find, Good, Reads, Distinct, Where, Dims, Entries, FsWrite, Indexed, Shape;
    var h := st.reloc.fd.header;
    RefusedWrite(c, st, h.name, h.ext as bv8, st.reloc.buffer.data, env);
  }

  lemma WedgedCall(c: Config, st: State, call: Call)
    requires Inv(c, st) && Ring(c, st) && st.pc == Yield610
    ensures var (st', code) := Exec(c, st, call);
            st' == st.(log := []) && Inv(c, st')
            && (call.Write? ==> code == if |call.data| > DATA_SIZE then -1 else -2)
  {
    hide Inv, Ring, FsWrite, FsThread;
    FreshLog(c, st);
    var start := st.(log := []);
    RefusedMove(c, start, true, Env(true, true));
    match call
    case Write(name, ext, data, env) => RefusedWrite(c, start, name, ext, data, env);
    case Thread(flag, env) => RefusedMove(c, start, flag, env);
  }

  /** The retry of lines 607-611 never ends: it is entered only when every sector is
      full, and from there no sequence of calls changes anything or writes anything. */
  lemma {:induction false} WedgedForever(c: Config, st: State, calls: seq<Call>)
    requires Inv(c, st) && Ring(c, st) && st.pc == Yield610
    ensures AllFull(c, st.pos) && ExecAll(c, st, calls).(log := []) == st.(log := [])
    decreases |calls|
  {
    hide Find, Good, Reads, Distinct, Where, Dims, Entries, Exec, Contents, Ring;
    if calls != [] {
      WedgedCall(c, st, calls[0]);
      WedgedForever(c, Exec(c, st, calls[0]).0, calls[1..]);
    }
  }

  lemma {:induction false} NoBlanks(c: Config, pos: seq<nat>, cur: nat, n: nat)
    requires |pos| == c.sectors && n <= |pos| && AllFull(c, pos) && c.slots > 0
    ensures BlankCount(c, pos, cur, n) == 0
  {
    if n > 0 { NoBlanks(c, pos, cur, n - 1); }
  }

  /** The sector that the collector is emptying, or else the one it will pick. */
  function NextVictim(c: Config, st: State): nat
    requires |st.pos| == c.sectors && 0 < c.sectors
  {
    if st.pc == Wait555 || st.pc == Yield556 then
      match FindRelocSector(c, st.fd, st.pos, st.cur)
      case Some(v) => v
      case None => 0
    else st.reloc.sector
  }

  /** The variables that must be moved before that sector can be erased. */
  function Trapped(c: Config, st: State): nat
    requires |st.pos| == c.sectors && 0 < c.sectors
  {
    CountIn(st.fd, NextVictim(c, st))
  }

  /** A collector call for which the timer has expired, or that forces a pass, and
      that finds the device ready. */
  predicate Awake(call: Call) {
    call.Thread? && (call.flag || call.env.expired) && call.env.ready
  }

  function Awakes(calls: seq<Call>): nat {
    if calls == [] then 0 else Awakes(calls[1..]) + if Awake(calls[0]) then 1 else 0
  }

  /** Awake calls until a full store is freed, or until the collector is stuck. */
  function Turns(c: Config, st: State): nat
    requires |st.pos| == c.sectors && 0 < c.sectors
  {
    var move := if Trapped(c, st) > 0 then 1 else 0;
    var same := st.reloc.fdIndex < |st.fd| && st.fd[st.reloc.fdIndex].address == st.reloc.fd.address;
    match st.pc
    case Wait555 => 2 + move
    case Yield556 => 1 + move
    case Wait576 => if same then 2 else 3 + move
    case Yield596 => if same then 1 else 2 + move
    case Yield610 => 0
    case Yield617 => 1 + move
    case Wait622 => 1
  }

  /** At some point during `calls` there is a sector with room again. */
  ghost predicate Frees(c: Config, st: State, calls: seq<Call>)
    requires Ring(c, st)
    decreases |calls|
  {
    !AllFull(c, st.pos) || (calls != [] && Frees(c, Exec(c, st, calls[0]).0, calls[1..]))
  }

  /** One step of a full store: it is freed, or only the resume point moves on. */
  ghost predicate FullStep(c: Config, st: State, st': State, awake: bool)
    requires |st.pos| == c.sectors && 0 < c.sectors
  {
    || (Trapped(c, st) == 0 && !AllFull(c, st'.pos))
    || (&& st'.pos == st.pos && st'.fd == st.fd && st'.flash == st.flash
        && Trapped(c, st') == Trapped(c, st)
        && Turns(c, st') <= Turns(c, st) && (awake && Turns(c, st) > 0 ==> Turns(c, st') < Turns(c, st)))
  }

  /** The relocation loop over a full store stops at the first variable of the
      victim, or erases the victim if there is none. */
  lemma FullLoop(c: Config, st: State, i: nat, env: Env)
    requires Ring(c, st) && i <= |st.fd| && AllFull(c, st.pos) && Outside(st.fd, st.reloc.sector, i)
    ensures var st' := RelocLoop(c, st, i, env);
            if CountIn(st.fd, st.reloc.sector) > 0 then
              && st'.pos == st.pos && st'.fd == st.fd && st'.flash == st.flash && st'.reloc.sector == st.reloc.sector
              && st'.log == st.log && st'.reloc.fdIndex < |st.fd|
              && st.fd[st'.reloc.fdIndex].address == st'.reloc.fd.address
              && st'.pc == (if env.ready then Yield596 else Wait576)
            else if env.ready then
              !AllFull(c, st'.pos)
            else
              && st'.pos == st.pos && st'.fd == st.fd && st'.flash == st.flash && st'.reloc.sector == st.reloc.sector
              && st'.pc == Wait622
  {
    hide Dims, CountIn, EraseVictim;
    var v := st.reloc.sector;
    var next := NextIn(st.fd, v, i);
    if next < |st.fd| {
      CountInside(st.fd, v, next);
    } else {
      assert Outside(st.fd, v, |st.fd|);
      CountOutside(st.fd, v);
      var st1 := st.(reloc := st.reloc.(fdIndex := next), pc := Wait622);
      assert Ring(c, st1);
      Progress.EraseShape(c, st1);
      assert st1.pos[v := 0][v] == 0;
    }
  }

  lemma FullSelect(c: Config, st: State)
    requires Inv(c, st) && Ring(c, st) && AllFull(c, st.pos)
    ensures FindRelocSector(c, st.fd, st.pos, st.cur).Some?
    ensures NextVictim(c, st) < c.sectors
    ensures st.pc == Yield556 ==> NextVictim(c, st) != st.cur
  {
    hide Find, Good, Reads, Distinct, Where, Dims, Entries, Best, Collecting, CountIn;
    NoBlanks(c, st.pos, st.cur, c.sectors);
    Victim.VictimChoice(c, st, FindRelocSector(c, st.fd, st.pos, st.cur).value);
  }

  lemma {:induction false} FullMoves(c: Config, st: State, env: Env)
    requires Inv(c, st) && Ring(c, st) && AllFull(c, st.pos) && Moving(st.pc)
    ensures Move(c, st, env) == st.(pc := Yield610)
  {
    hide Inv, FsWrite, Ring;
    RefusedWrite(c, st, st.reloc.fd.header.name, st.reloc.fd.header.ext as bv8, st.reloc.buffer.data, env);
  }

  lemma {:induction false} FullChoice(c: Config, st: State, flag: bool, env: Env)
    requires Inv(c, st) && Ring(c, st) && AllFull(c, st.pos) && (st.pc == Wait555 || st.pc == Yield556)
    ensures FullStep(c, st, FsThread(c, st, flag, env), (flag || env.expired) && env.ready)
    ensures Trapped(c, st) > 0 ==> FsThread(c, st, flag, env).log == st.log
  {
    hide Indexed, Dims, CountIn, RelocLoop, FindRelocSector, Collecting;
    FullSelect(c, st);
    if st.pc == Yield556 {
      FullLoop(c, st.(reloc := st.reloc.(sector := NextVictim(c, st))), 0, env);
    }
  }

  lemma {:induction false} FullNext(c: Config, st: State, env: Env)
    requires Inv(c, st) && Ring(c, st) && AllFull(c, st.pos) && st.pc == Yield617
    ensures FullStep(c, st, RelocLoop(c, st, st.reloc.fdIndex + 1, env), env.ready)
    ensures Trapped(c, st) > 0 ==> RelocLoop(c, st, st.reloc.fdIndex + 1, env).log == st.log
  {
    hide Indexed, Dims, CountIn, RelocLoop, FindRelocSector;
    FullLoop(c, st, st.reloc.fdIndex + 1, env);
  }

  lemma {:induction false} FullErase(c: Config, st: State)
    requires Inv(c, st) && Ring(c, st) && AllFull(c, st.pos) && st.pc == Wait622
    ensures Trapped(c, st) == 0 && !AllFull(c, EraseVictim(c, st).pos)
  {
    hide Indexed, Dims, CountIn, FindRelocSector;
    CountOutside(st.fd, st.reloc.sector);
    Progress.EraseShape(c, st);
    assert st.pos[st.reloc.sector := 0][st.reloc.sector] == 0;
  }

  /** A collector call on a full store, from each resume point. */
  lemma {:induction false} FullThread(c: Config, st: State, flag: bool, env: Env)
    requires Inv(c, st) && Ring(c, st) && AllFull(c, st.pos)
    ensures FullStep(c, st, FsThread(c, st, flag, env), (flag || env.expired) && env.ready)
    ensures Trapped(c, st) > 0 ==> FsThread(c, st, flag, env).log == st.log
  {
    hide Indexed, Dims, CountIn, RelocLoop, Move, FindRelocSector, EraseVictim, AllFull;
    match st.pc
    case Wait555 => FullChoice(c, st, flag, env);
    case Yield556 => FullChoice(c, st, flag, env);
    case Wait576 =>
    case Yield596 =>
      if st.fd[st.reloc.fdIndex].address == st.reloc.fd.address {
        FullMoves(c, st, env);
      }
    case Yield610 => FullMoves(c, st, env);
    case Yield617 => FullNext(c, st, env);
    case Wait622 => FullErase(c, st);
  }

  /** A user write is refused, and every collector call makes its step. */
  lemma FullCall(c: Config, st: State, call: Call)
    requires Inv(c, st) && Ring(c, st) && AllFull(c, st.pos)
    ensures Inv(c, Exec(c, st, call).0) && FullStep(c, st, Exec(c, st, call).0, Awake(call))
    ensures Vars(c, Exec(c, st, call).0) == Vars(c, st)
    ensures Trapped(c, st) > 0 ==> Exec(c, st, call).0.log == []
  {
    hide Indexed, Collecting, Ring, FsWrite, FsThread, FindRelocSector, CountIn, Contents;
    FreshLog(c, st);
    var start := st.(log := []);
    match call
    case Write(name, ext, data, env) => RefusedWrite(c, start, name, ext, data, env);
    case Thread(flag, env) =>
      FullThread(c, start, flag, env);
      ThreadKeeps(c, start, flag, env);
  }

  /** A full store at any resume point, under any further calls: there is room again
      if and only if the collector's victim holds no variable, and then within three
      awake calls. Otherwise nothing changes any more, and within four awake calls
      the collector is in the endless retry. */
  lemma {:induction false} FullStoreOutcome(c: Config, st: State, calls: seq<Call>)
    requires Inv(c, st) && Ring(c, st) && AllFull(c, st.pos)
    ensures Awakes(calls) >= 3 ==> (Frees(c, st, calls) <==> Trapped(c, st) == 0)
    ensures Trapped(c, st) > 0 ==>
              && !Frees(c, st, calls)
              && ExecAll(c, st, calls).flash == st.flash && ExecAll(c, st, calls).fd == st.fd
              && (Awakes(calls) >= 4 ==> ExecAll(c, st, calls).pc == Yield610)
  {
    hide Indexed, Dims, Exec, Frees, FindRelocSector, CountIn, Collecting, Turns, Trapped;
    TurnsAtMost(c, st);
    FullStoreInTurns(c, st, calls);
  }

  lemma TurnsAtMost(c: Config, st: State)
    requires |st.pos| == c.sectors && 0 < c.sectors
    ensures Turns(c, st) <= if Trapped(c, st) > 0 then 4 else 3
  {
    hide Trapped;
  }

  lemma {:induction false} FullStoreInTurns(c: Config, st: State, calls: seq<Call>)
    requires Inv(c, st) && Ring(c, st) && AllFull(c, st.pos)
    ensures Trapped(c, st) == 0 && Awakes(calls) >= Turns(c, st) ==> Frees(c, st, calls)
    ensures Trapped(c, st) > 0 ==>
              && !Frees(c, st, calls)
              && ExecAll(c, st, calls).flash == st.flash && ExecAll(c, st, calls).fd == st.fd
              && (Awakes(calls) >= Turns(c, st) ==> ExecAll(c, st, calls).pc == Yield610)
    decreases |calls|
  {
    hide Indexed, Ring, Exec, FindRelocSector, CountIn, Collecting;
    if calls == [] {
      TurnsLeft(c, st);
    } else {
      FullCall(c, st, calls[0]);
      var st1 := Exec(c, st, calls[0]).0;
      if AllFull(c, st1.pos) {
        FullStoreInTurns(c, st1, calls[1..]);
      }
    }
  }

  lemma TurnsLeft(c: Config, st: State)
    requires Inv(c, st) && Ring(c, st)
    ensures Turns(c, st) == 0 <==> st.pc == Yield610
    ensures st.pc == Yield610 ==> Trapped(c, st) > 0
  {
    hide Find, Good, Reads, Distinct, Where, Dims, Entries, CountIn, FindRelocSector;
    if st.pc == Yield610 {
      EntryHeader(c, st, st.reloc.fdIndex);
      CountInside(st.fd, st.reloc.sector, st.reloc.fdIndex);
    }
  }

  // ---------------------------------------------------------------- a pass begun too late

  /** No blank sector is left and the victim's variables do not fit into the current one. */
  ghost predicate Doomed(c: Config, st: State)
    requires |st.pos| == c.sectors
  {
    && st.pc != Wait555 && st.pc != Yield556
    && Progress.Blanks(c, st) == 0 && st.cur < c.sectors && Progress.Left(st) > c.slots - st.pos[st.cur]
  }

  lemma {:induction false} NoBlankIsFull(c: Config, pos: seq<nat>, cur: nat, n: nat)
    requires |pos| == c.sectors && n <= |pos| && BlankCount(c, pos, cur, n) == 0
    ensures forall s :: 0 <= s < n && s != cur ==> pos[s] != 0
  {
    if n > 0 { NoBlankIsFull(c, pos, cur, n - 1); }
  }

  lemma DoomedIsFull(c: Config, st: State)
    requires Ring(c, st) && Doomed(c, st) && st.pos[st.cur] == c.slots
    ensures AllFull(c, st.pos)
  {
    hide Dims, CountIn;
    NoBlankIsFull(c, st.pos, st.cur, c.sectors);
  }

  lemma {:induction false} DoomedThread(c: Config, st: State, flag: bool, env: Env)
    requires Inv(c, st) && Ring(c, st) && Doomed(c, st)
    ensures var st' := FsThread(c, st, flag, env);
            Doomed(c, st') && st'.reloc.sector == st.reloc.sector && st'.pos[st.reloc.sector] == st.pos[st.reloc.sector]
  {
    hide Find, Good, Reads, Distinct, Where, Dims, Entries, RelocLoop, Move, EraseVictim, FindRelocSector, CountIn,
      BlankCount;
    match st.pc
    case Wait576 =>
    case Yield596 =>
      if st.fd[st.reloc.fdIndex].address == st.reloc.fd.address {
        DoomedMove(c, st, env);
      }
    case Yield610 => FullMoves(c, st, env);
    case Yield617 => Progress.RelocLoopStep(c, st, st.reloc.fdIndex + 1, env);
    case Wait622 => CountOutside(st.fd, st.reloc.sector);
  }

  lemma {:induction false} DoomedMove(c: Config, st: State, env: Env)
    requires Progress.AboutToMove(c, st) && Doomed(c, st)
    ensures var st' := Move(c, st, env);
            Doomed(c, st') && st'.reloc.sector == st.reloc.sector && st'.pos[st.reloc.sector] == st.pos[st.reloc.sector]
  {
    hide Find, Good, Reads, Distinct, Where, Dims, Entries, Move, CountIn, BlankCount;
    if st.pos[st.cur] < c.slots {
      Progress.MovingEntry(c, st);
      Progress.RoomyMove(c, st, env);
    } else {
      DoomedIsFull(c, st);
      FullMoves(c, st, env);
    }
  }

  lemma {:induction false} DoomedWrite(c: Config, st: State, name: bv16, ext: bv8, data: seq<bv8>, env: Env)
    requires Inv(c, st) && Ring(c, st) && Doomed(c, st)
    requires |data| <= DATA_SIZE ==> Fits(c, st, Key(name, TruncateExt(ext)))
    ensures var st' := FsWrite(c, st, name, ext, data, env).0;
            Doomed(c, st') && st'.reloc.sector == st.reloc.sector && st'.pos[st.reloc.sector] == st.pos[st.reloc.sector]
  {
    hide Find, Good, Reads, Distinct, Where, Dims, Entries, WriteCell, CountIn, BlankCount, Fits, FsWrite, UpdateSector;
    if st.pos[st.cur] == c.slots {
      DoomedIsFull(c, st);
      RefusedWrite(c, st, name, ext, data, env);
    } else if |data| <= DATA_SIZE {
      var key := Key(name, TruncateExt(ext));
      Progress.RoomyReady(c, st, env);
      Progress.WriteIsWriteCell(c, st, name, ext, data, env);
      WriteCellCommits(c, st, key, Pad(data));
      Progress.WriteSlack(c, st, key, WriteCell(c, st, key, Pad(data)).0);
    } else {
      LongWrite(c, st, name, ext, data, env);
    }
  }

  lemma {:induction false} LongWrite(c: Config, st: State, name: bv16, ext: bv8, data: seq<bv8>, env: Env)
    requires Ring(c, st) && |data| > DATA_SIZE
    ensures FsWrite(c, st, name, ext, data, env) == (st, -1)
  {
    hide Dims;
  }

  /** A pass that is doomed stays doomed: whatever calls follow, user writes or
      collector calls, the victim is never erased. */
  lemma {:induction false} DoomedForever(c: Config, st: State, calls: seq<Call>)
    requires Inv(c, st) && Ring(c, st) && Doomed(c, st) && LegalSession(c, st, calls)
    ensures var st' := ExecAll(c, st, calls);
            Doomed(c, st') && st'.reloc.sector == st.reloc.sector && st'.pos[st.reloc.sector] == c.slots
    decreases |calls|
  {
    hide Indexed, Ring, Exec, Fits, Doomed;
    DoomedVictim(c, st);
    if calls != [] {
      DoomedCall(c, st, calls[0]);
      DoomedForever(c, Exec(c, st, calls[0]).0, calls[1..]);
    }
  }

  lemma DoomedVictim(c: Config, st: State)
    requires Inv(c, st) && Ring(c, st) && Doomed(c, st)
    ensures st.pos[st.reloc.sector] == c.slots
  {
    hide Find, Good, Reads, Distinct, Where, Dims, Entries;
  }

  lemma {:induction false} DoomedCall(c: Config, st: State, call: Call)
    requires Inv(c, st) && Ring(c, st) && Doomed(c, st) && LegalSession(c, st, [call])
    ensures var st' := Exec(c, st, call).0;
            Inv(c, st') && Doomed(c, st') && st'.reloc.sector == st.reloc.sector
  {
    hide Indexed, Ring, FsWrite, FsThread, Fits, CountIn, BlankCount, Collecting, Contents;
    FreshLog(c, st);
    var start := st.(log := []);
    match call
    case Write(name, ext, data, env) =>
      FreshFits(c, st, Key(name, TruncateExt(ext)));
      DoomedWrite(c, start, name, ext, data, env);
      WriteKeeps(c, start, name, ext, data, env);
    case Thread(flag, env) =>
      DoomedThread(c, start, flag, env);
      ThreadKeeps(c, start, flag, env);
  }

  lemma FreshFits(c: Config, st: State, key: Key)
    ensures Fits(c, st.(log := []), key) <==> Fits(c, st, key)
  {
    hide Find;
  }

  lemma {:induction false} DoomedCollect(c: Config, st: State, calls: seq<(bool, Env)>)
    requires Inv(c, st) && Ring(c, st) && Doomed(c, st)
    ensures Doomed(c, Progress.Collect(c, st, calls))
    decreases |calls|
  {
    hide Indexed, Ring, FsThread, Doomed, Collecting, Contents;
    if calls != [] {
      DoomedThread(c, st, calls[0].0, calls[0].1);
      ThreadKeeps(c, st, calls[0].0, calls[0].1);
      DoomedCollect(c, FsThread(c, st, calls[0].0, calls[0].1), calls[1..]);
    }
  }

  /** From any resume point of a pass, and with no user writes, the predicted number
      of calls ends it with the erase if and only if it is not doomed: a blank sector
      is left, or the victim's variables fit into the current one. */
  lemma {:induction false} PassOutcome(c: Config, st: State, calls: seq<(bool, Env)>)
    requires Inv(c, st) && Ring(c, st) && Progress.Passing(st.pc)
    requires Progress.AllReady(calls) && |calls| == Progress.Calls(st)
    ensures Progress.Collect(c, st, calls).pc == Wait555 <==> !Doomed(c, st)
  {
    hide Indexed, AtPoint, Dims, CountIn, BlankCount, Contents, Progress.Collect, Progress.FreeUpTo, Progress.Calls;
    if Doomed(c, st) {
      DoomedCollect(c, st, calls);
    } else {
      if Progress.Blanks(c, st) >= 1 {
        Budget.BlankIsFree(c, st);
      } else {
        Budget.FreeSplit(c, st.pos, st.cur, c.sectors);
      }
      Progress.PassEnds(c, st, calls);
    }
  }

  // ---------------------------------------------------------------- examples

  /** The variables of the examples. */
  function Var(i: nat): Key {
    Key(if i == 0 then 1 else if i == 1 then 2 else if i == 2 then 3 else 4, TruncateExt(0))
  }

  function Put(c: Config, st: State, i: nat): (r: (State, int))
    requires Ring(c, st)
    ensures Ring(c, r.0)
  {
    FsWrite(c, st, Var(i).name, 0, [], Env(false, true))
  }

  /** What matters of a state: write pointers, current sector, resume point, and in
      which sector each variable lies. */
  ghost predicate Sketch(c: Config, st: State, pos: seq<nat>, cur: nat, at: seq<nat>) {
    && Inv(c, st) && Ring(c, st) && st.pos == pos && st.cur == cur && |st.fd| == |at| <= 4
    && forall i :: 0 <= i < |at| ==> st.fd[i].sector == at[i] && KeyOf(st.fd[i].header) == Var(i)
  }

  lemma SketchFind(c: Config, st: State, pos: seq<nat>, cur: nat, at: seq<nat>, i: nat)
    requires Sketch(c, st, pos, cur, at) && i <= |at| && i < 4
    ensures Find(st.fd, Var(i)) == i
  {
    hide Find, Inv, Ring;
    FindIs(st.fd, Var(i), i);
  }

  /** Writing variable `i` from `st`, where `updateSector` leaves `ready`. */
  lemma {:induction false} PutSketch(c: Config, st: State, ready: State, pos: seq<nat>, cur: nat, at: seq<nat>, i: nat)
    requires Ring(c, st) && UpdateSector(c, st, Env(false, true)).1 >= 0
    requires ready == UpdateSector(c, st, Env(false, true)).0
    requires Sketch(c, ready, pos, cur, at) && i <= |at| && i < 4 && i < c.fdMax && cur < |pos| && pos[cur] < c.slots
    ensures var st' := Put(c, st, i).0;
            Sketch(c, st', pos[cur := pos[cur] + 1], cur, if i < |at| then at[i := cur] else at + [cur])
            && st'.pc == ready.pc && st'.reloc == ready.reloc && Put(c, st, i).1 == 0
  {
    hide Find, Indexed, Ring, Collecting, WriteCell, UpdateSector, Commits, FsWrite, TruncateExt, Contents;
    SketchFind(c, ready, pos, cur, at, i);
    Progress.WriteIsWriteCell(c, st, Var(i).name, 0, [], Env(false, true));
    WriteCellCommits(c, ready, Var(i), Pad([]));
    WriteKeepsCollecting(c, ready, Var(i), WriteCell(c, ready, Var(i), Pad([])).0);
    IndexedIsRing(c, WriteCell(c, ready, Var(i), Pad([])).0);
  }

  lemma PutRoomy(c: Config, st: State, pos: seq<nat>, cur: nat, at: seq<nat>, i: nat)
    requires Sketch(c, st, pos, cur, at) && i <= |at| && i < 4 && i < c.fdMax && cur < |pos| && pos[cur] < c.slots
    ensures var st' := Put(c, st, i).0;
            Sketch(c, st', pos[cur := pos[cur] + 1], cur, if i < |at| then at[i := cur] else at + [cur])
            && st'.pc == st.pc && st'.reloc == st.reloc && Put(c, st, i).1 == 0
  {
    hide Inv, Ring, UpdateSector, Put, TruncateExt;
    Progress.RoomyReady(c, st, Env(false, true));
    PutSketch(c, st, st, pos, cur, at, i);
  }

  function Tiny(crc: Crc): Config {
    Config(3, 2, 1, 2, crc)
  }

  lemma TinyStart(crc: Crc)
    ensures var c := Tiny(crc);
            ValidConfig(c) && Sketch(c, Boot(c, Factory(c)), [0, 0, 0], 2, []) && Boot(c, Factory(c)).pc == Wait555
  {
    hide Indexed, Collecting, Ring, Boot, Factory, Contents;
    var c := Tiny(crc);
    FirstBoot(c);
    var st := Boot(c, Factory(c));
    FitsByVars(c, st, Var(0));
    assert st.fd == [] && st.pos == [0, 0, 0];
    assert st.pos[2] == 0 && st.cur >= 2;
  }

  /** The current sector is full and the collector at rest: the write moves on to the
      next sector, and the nested call only starts the collector. */
  lemma {:induction false} StartRollover(c: Config, st: State, pos: seq<nat>, cur: nat, at: seq<nat>, next: nat)
    requires Sketch(c, st, pos, cur, at) && st.pc == Wait555 && pos[cur] == c.slots
    requires NextFree(c, pos, cur, cur) == Some(next)
    ensures var (ready, code) := UpdateSector(c, st, Env(false, true));
            code >= 0 && Sketch(c, ready, pos, next, at) && ready.pc == Yield556
  {
    hide Indexed, Collecting, Dims, Contents, NextFree;
    UpdateSectorKeeps(c, st, Env(false, true));
  }

  /** Sector 0 is full as well: the write moves on to sector 1, the last blank one,
      and the nested call chooses sector 2, where the other variable lies. */
  lemma {:induction false} SecondRollover(c: Config, st: State)
    requires c.sectors == 3 && c.slots == 2 && c.minBlank == 1
    requires Sketch(c, st, [2, 0, 2], 0, [0, 2]) && st.pc == Yield556
    ensures var ready := UpdateSector(c, st, Env(false, true)).0;
            && UpdateSector(c, st, Env(false, true)).1 >= 0
            && Sketch(c, ready, [2, 0, 2], 1, [0, 2]) && Progress.Passing(ready.pc) && ready.reloc.sector == 2
  {
    hide Indexed, Collecting, Dims, Contents, Successor, FsThread, FindRelocSector, CountIn;
    assert NextFree(c, [2, 0, 2], 0, 0) == Some(1);
    UpdateSectorKeeps(c, st, Env(false, true));
    ActivateKeeps(c, st, 1);
    var st1 := Activate(c, st, 1);
    ChoosesTwo(c, st1);
    Progress.SelectStep(c, st1, 2, true, Env(false, true));
  }

  lemma ChoosesTwo(c: Config, st: State)
    requires c.sectors == 3 && c.slots == 2 && c.minBlank == 1 && Sketch(c, st, [2, 0, 2], 1, [0, 2])
    ensures FindRelocSector(c, st.fd, st.pos, st.cur) == Some(2) && CountIn(st.fd, 2) == 1
  {
    hide Indexed, Collecting, Ring, Best;
    TwoEntries(st.fd);
    assert BlankCount(c, [2, 0, 2], 1, 1) == 0 && BlankCount(c, [2, 0, 2], 1, 2) == 0;
    Victim.VictimChoice(c, st, FindRelocSector(c, st.fd, st.pos, st.cur).value);
  }

  lemma {:induction false} TwoEntries(fd: seq<Fd>)
    requires |fd| == 2 && fd[0].sector == 0 && fd[1].sector == 2
    ensures CountIn(fd, 0) == 1 && CountIn(fd, 2) == 1
  {
    assert fd[..1][..0] == [];
    assert fd[..1] == [fd[0]];
  }

  /** Writing the listed variables in turn. */
  function Puts(c: Config, st: State, vars: seq<nat>): (r: State)
    requires Ring(c, st)
    ensures Ring(c, r)
  {
    if vars == [] then st else Put(c, Puts(c, st, vars[..|vars| - 1]), vars[|vars| - 1]).0
  }

  /** Every one of those writes returns 0. */
  ghost predicate Accepted(c: Config, st: State, vars: seq<nat>)
    requires Ring(c, st)
  {
    vars == [] ||
    (Accepted(c, st, vars[..|vars| - 1]) && Put(c, Puts(c, st, vars[..|vars| - 1]), vars[|vars| - 1]).1 == 0)
  }

  lemma {:induction false} OnePut(c: Config, st: State, vars: seq<nat>, i: nat)
    requires Ring(c, st)
    ensures Puts(c, st, vars + [i]) == Put(c, Puts(c, st, vars), i).0
    ensures Accepted(c, st, vars + [i]) <==> Accepted(c, st, vars) && Put(c, Puts(c, st, vars), i).1 == 0
  {
    hide Ring, Put;
    assert (vars + [i])[..|vars|] == vars;
  }

  /** One more write into the current sector. */
  lemma {:induction false} PutNext(c: Config, st0: State, vars: seq<nat>, pos: seq<nat>, cur: nat, at: seq<nat>,
      i: nat, more: seq<nat>)
    requires Ring(c, st0) && Accepted(c, st0, vars) && more == vars + [i]
    requires Sketch(c, Puts(c, st0, vars), pos, cur, at) && i <= |at| && i < 4 && i < c.fdMax
    requires cur < |pos| && pos[cur] < c.slots
    ensures Accepted(c, st0, more)
    ensures var st, st' := Puts(c, st0, vars), Puts(c, st0, more);
            Sketch(c, st', pos[cur := pos[cur] + 1], cur, if i < |at| then at[i := cur] else at + [cur])
            && st'.pc == st.pc && st'.reloc == st.reloc
  {
    hide Ring, Put, Sketch, Puts, Accepted;
    OnePut(c, st0, vars, i);
    PutRoomy(c, Puts(c, st0, vars), pos, cur, at, i);
  }

  /** One more write, after `updateSector` has left `ready`. */
  lemma {:induction false} PutAfter(c: Config, st0: State, vars: seq<nat>, ready: State, pos: seq<nat>, cur: nat,
      at: seq<nat>, i: nat, more: seq<nat>)
    requires Ring(c, st0) && Accepted(c, st0, vars) && more == vars + [i]
    requires UpdateSector(c, Puts(c, st0, vars), Env(false, true)).1 >= 0
    requires ready == UpdateSector(c, Puts(c, st0, vars), Env(false, true)).0
    requires Sketch(c, ready, pos, cur, at) && i <= |at| && i < 4 && i < c.fdMax && cur < |pos| && pos[cur] < c.slots
    ensures Accepted(c, st0, more)
    ensures var st' := Puts(c, st0, more);
            Sketch(c, st', pos[cur := pos[cur] + 1], cur, if i < |at| then at[i := cur] else at + [cur])
            && st'.pc == ready.pc && st'.reloc == ready.reloc
  {
    hide Ring, Put, Sketch, Puts, Accepted, UpdateSector;
    OnePut(c, st0, vars, i);
    PutSketch(c, Puts(c, st0, vars), ready, pos, cur, at, i);
  }

  /** The first three writes fill sector 2 and move on to sector 0. */
  lemma {:induction false} FirstThree(c: Config, st: State)
    requires c.sectors == 3 && c.slots == 2 && c.fdMax == 2 && Sketch(c, st, [0, 0, 0], 2, []) && st.pc == Wait555
    ensures Ring(c, st) && Accepted(c, st, [0, 1, 0])
    ensures Sketch(c, Puts(c, st, [0, 1, 0]), [1, 0, 2], 0, [0, 2]) && Puts(c, st, [0, 1, 0]).pc == Yield556
  {
    hide Inv, Ring, Put, Var, UpdateSector, TruncateExt;
    assert Puts(c, st, []) == st && Accepted(c, st, []);
    hide Puts, Accepted;
    PutNext(c, st, [], [0, 0, 0], 2, [], 0, [0]);
    PutNext(c, st, [0], [0, 0, 1], 2, [2], 1, [0, 1]);
    var st2 := Puts(c, st, [0, 1]);
    assert NextFree(c, [0, 0, 2], 2, 2) == Some(0);
    StartRollover(c, st2, [0, 0, 2], 2, [2, 2], 0);
    PutAfter(c, st, [0, 1], UpdateSector(c, st2, Env(false, true)).0, [0, 0, 2], 0, [2, 2], 0, [0, 1, 0]);
  }

  /** The other three fill sectors 0 and 1, while the collector waits in sector 2. */
  lemma {:induction false} LastThree(c: Config, st: State)
    requires c.sectors == 3 && c.slots == 2 && c.minBlank == 1 && c.fdMax == 2 && Ring(c, st)
    requires Accepted(c, st, [0, 1, 0])
    requires Sketch(c, Puts(c, st, [0, 1, 0]), [1, 0, 2], 0, [0, 2]) && Puts(c, st, [0, 1, 0]).pc == Yield556
    ensures Accepted(c, st, [0, 1, 0, 0, 0, 0])
    ensures var st5 := Puts(c, st, [0, 1, 0, 0, 0]);
            Sketch(c, st5, [2, 1, 2], 1, [1, 2]) && st5.reloc.sector == 2
    ensures var st' := Puts(c, st, [0, 1, 0, 0, 0, 0]);
            Sketch(c, st', [2, 2, 2], 1, [1, 2]) && Progress.Passing(st'.pc) && st'.reloc.sector == 2
  {
    hide Inv, Ring, Put, Var, UpdateSector, TruncateExt, Puts, Accepted;
    PutNext(c, st, [0, 1, 0], [1, 0, 2], 0, [0, 2], 0, [0, 1, 0, 0]);
    var st4 := Puts(c, st, [0, 1, 0, 0]);
    SecondRollover(c, st4);
    PutAfter(c, st, [0, 1, 0, 0], UpdateSector(c, st4, Env(false, true)).0, [2, 0, 2], 1, [0, 2], 0, [0, 1, 0, 0, 0]);
    PutNext(c, st, [0, 1, 0, 0, 0], [2, 1, 2], 1, [1, 2], 0, [0, 1, 0, 0, 0, 0]);
  }

  /** A concrete run into the trap: three sectors of two slots, two variables, six
      accepted writes and no collector call by the user. The last write dooms the pass:
      every sector is full, the victim still holds a variable, and nothing can ever be
      written again. */
  lemma TrapExample(crc: Crc)
    ensures var c := Tiny(crc);
            && Ring(c, Boot(c, Factory(c)))
            && Accepted(c, Boot(c, Factory(c)), [0, 1, 0, 0, 0, 0])
            && (var st := Puts(c, Boot(c, Factory(c)), [0, 1, 0, 0, 0, 0]);
                Inv(c, st) && AllFull(c, st.pos) && Doomed(c, st) && Trapped(c, st) > 0)
            && var st5 := Puts(c, Boot(c, Factory(c)), [0, 1, 0, 0, 0]); |st5.pos| == 3 && !Doomed(c, st5)
  {
    hide Inv, Ring, Puts, Accepted, Boot, Factory, CountIn, Sketch;
    var c := Tiny(crc);
    TinyStart(crc);
    FirstThree(c, Boot(c, Factory(c)));
    LastThree(c, Boot(c, Factory(c)));
    FifthSketch(c, Puts(c, Boot(c, Factory(c)), [0, 1, 0, 0, 0]));
    LastSketch(c, Puts(c, Boot(c, Factory(c)), [0, 1, 0, 0, 0, 0]));
  }

  /** The variable of the victim still fits. */
  lemma {:induction false} FifthSketch(c: Config, st: State)
    requires c.sectors == 3 && c.slots == 2 && Sketch(c, st, [2, 1, 2], 1, [1, 2]) && st.reloc.sector == 2
    ensures |st.pos| == 3 && !Doomed(c, st)
  {
    hide Inv, Ring;
    assert st.fd[..1][..0] == [] && st.fd[..1] == [st.fd[0]];
    assert CountIn(st.fd[..1], 2) == 0;
  }

  lemma LastSketch(c: Config, st: State)
    requires c.sectors == 3 && c.slots == 2 && Sketch(c, st, [2, 2, 2], 1, [1, 2])
    requires Progress.Passing(st.pc) && st.reloc.sector == 2
    ensures Inv(c, st) && AllFull(c, st.pos) && Doomed(c, st) && Trapped(c, st) > 0
  {
    hide Inv, Ring, CountIn;
    NoBlanks(c, st.pos, st.cur, c.sectors);
    CountInside(st.fd, 2, 1);
  }
}
