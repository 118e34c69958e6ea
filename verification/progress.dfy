/** How many free slots a relocation pass needs, how many calls it takes and what
    it gains (wormvars.c:314-353, 496-549, 567-628). */
module Progress {
  import opened Block
  import opened Store
  import opened Images
  import opened Invariant
  import opened Writing
  import opened Collector
  import Victim

  /** Unprogrammed slots in the first `n` sectors. */
  function FreeUpTo(c: Config, pos: seq<nat>, n: nat): int
    requires n <= |pos|
  {
    if n == 0 then 0 else FreeUpTo(c, pos, n - 1) + c.slots - pos[n - 1]
  }

  function Free(c: Config, pos: seq<nat>): int {
    FreeUpTo(c, pos, |pos|)
  }

  function Blanks(c: Config, st: State): nat
    requires |st.pos| == c.sectors
  {
    BlankCount(c, st.pos, st.cur, c.sectors)
  }

  /** Live variables still to be moved out of the victim. */
  function Left(st: State): nat {
    CountIn(st.fd, st.reloc.sector)
  }

  /** Free slots beyond what the rest of the pass can consume: one per variable left
      in the victim, and one more for every sector change still possible, because a
      relocation whose own write changes sector writes the cell twice. */
  function Slack(c: Config, st: State): int
    requires |st.pos| == c.sectors
  {
    Free(c, st.pos) - Left(st) - Blanks(c, st)
  }

  /** A victim has been chosen and not yet erased, and the collector is not stuck. */
  predicate Passing(pc: Pc) {
    pc != Wait555 && pc != Yield556 && pc != Yield610
  }

  // ---------------------------------------------------------------- counting

  lemma {:induction false} FreeSet(c: Config, pos: seq<nat>, i: nat, x: nat, n: nat)
    requires i < |pos| && n <= |pos|
    ensures FreeUpTo(c, pos[i := x], n) == FreeUpTo(c, pos, n) + if i < n then pos[i] - x else 0
  {
    if n > 0 { FreeSet(c, pos, i, x, n - 1); }
  }

  lemma {:induction false} FreeNone(c: Config, pos: seq<nat>, n: nat)
    requires n <= |pos| && forall s :: 0 <= s < |pos| ==> pos[s] <= c.slots
    ensures FreeUpTo(c, pos, n) >= 0
    ensures FreeUpTo(c, pos, n) == 0 <==> forall s :: 0 <= s < n ==> pos[s] == c.slots
  {
    if n > 0 { FreeNone(c, pos, n - 1); }
  }

  lemma {:induction false} BlanksSet(c: Config, pos: seq<nat>, cur: nat, i: nat, x: nat, n: nat)
    requires |pos| == c.sectors && i < |pos| && n <= |pos|
    ensures BlankCount(c, pos[i := x], cur, n) + (if i < n && i != cur && pos[i] == 0 then 1 else 0)
         == BlankCount(c, pos, cur, n) + (if i < n && i != cur && x == 0 then 1 else 0)
  {
    if n > 0 { BlanksSet(c, pos, cur, i, x, n - 1); }
  }

  lemma {:induction false} BlanksMove(c: Config, pos: seq<nat>, cur: nat, next: nat, n: nat)
    requires |pos| == c.sectors && cur < |pos| && next < |pos| && n <= |pos| && cur != next
    requires pos[cur] != 0 && pos[next] == 0
    ensures BlankCount(c, pos, cur, n) == BlankCount(c, pos, next, n) + if next < n then 1 else 0
  {
    if n > 0 { BlanksMove(c, pos, cur, next, n - 1); }
  }

  // ---------------------------------------------------------------- effect of each step

  lemma WriteSlack(c: Config, st: State, key: Key, st': State)
    requires Shape(c, st) && Shape(c, st') && WriteFrame(c, st, key, st')
    requires st.reloc.sector != st.cur
    ensures Free(c, st'.pos) == Free(c, st.pos) - 1 && Blanks(c, st') == Blanks(c, st)
    ensures Left(st') == Left(st) -
        if Find(st.fd, key) < |st.fd| && st.fd[Find(st.fd, key)].sector == st.reloc.sector then 1 else 0
  {
    hide Find, Dims, CountIn, FreeUpTo, BlankCount;
    FreeSet(c, st.pos, st.cur, st.pos[st.cur] + 1, c.sectors);
    BlanksSet(c, st.pos, st.cur, st.cur, st.pos[st.cur] + 1, c.sectors);
    WriteKeepsCount(c, st, key, st', st.reloc.sector);
  }

  lemma ActivateSlack(c: Config, st: State, next: nat)
    requires Inv(c, st) && Ring(c, st) && st.pos[st.cur] == c.slots && next < c.sectors && st.pos[next] < c.slots
    ensures var st' := Activate(c, st, next);
            Free(c, st'.pos) == Free(c, st.pos) && Left(st') == Left(st) && Blanks(c, st') == Blanks(c, st) - 1
  {
    BlanksMove(c, st.pos, st.cur, next, c.sectors);
  }

  lemma FreeIsRoom(c: Config, st: State)
    requires Ring(c, st)
    ensures Free(c, st.pos) >= 0
    ensures Free(c, st.pos) == 0 <==> AllFull(c, st.pos)
  {
    hide Dims;
    FreeNone(c, st.pos, c.sectors);
  }

  lemma EraseSlack(c: Config, st: State)
    requires Ring(c, st) && Outside(st.fd, st.reloc.sector, |st.fd|)
    requires st.reloc.sector != st.cur && st.pos[st.reloc.sector] == c.slots
    ensures var st' := EraseVictim(c, st);
            && st'.pc == Wait555 && Left(st) == 0 && st'.fd == st.fd && st'.reloc == st.reloc && st'.cur == st.cur
            && Free(c, st'.pos) == Free(c, st.pos) + c.slots && Blanks(c, st') == Blanks(c, st) + 1
  {
    hide Find, Good, Reads, Distinct, Where, Dims, Entries;
    var v := st.reloc.sector;
    CountOutside(st.fd, v);
    FreeSet(c, st.pos, v, 0, c.sectors);
    BlanksSet(c, st.pos, st.cur, v, 0, c.sectors);
  }

  lemma {:induction false} WriteIsWriteCell(c: Config, st: State, name: bv16, ext: bv8, data: seq<bv8>, env: Env)
    requires Ring(c, st) && |data| <= DATA_SIZE && UpdateSector(c, st, env).1 >= 0
    ensures FsWrite(c, st, name, ext, data, env) ==
            WriteCell(c, UpdateSector(c, st, env).0, Key(name, TruncateExt(ext)), Pad(data))
  {
    hide UpdateSector, WriteCell;
  }

  /** The descriptor being moved still points into the victim. */
  ghost predicate AboutToMove(c: Config, st: State) {
    Inv(c, st) && Ring(c, st) && st.pc == Yield596 && st.fd[st.reloc.fdIndex].address == st.reloc.fd.address
  }

  lemma MovingEntry(c: Config, st: State)
    requires AboutToMove(c, st)
    ensures var key := KeyOf(st.reloc.fd.header);
            && Fits(c, st, key) && Find(st.fd, key) == st.reloc.fdIndex < |st.fd|
            && st.fd[st.reloc.fdIndex].sector == st.reloc.sector && 0 < Left(st) < c.slots
            && st.reloc.sector != st.cur && st.pos[st.reloc.sector] == c.slots
  {
    hide Find, Good, Reads, Distinct, Where, Dims, Entries;
    MovedData(c, st);
    EntryHeader(c, st, st.reloc.fdIndex);
    CountInside(st.fd, st.reloc.sector, st.reloc.fdIndex);
  }

  lemma {:induction false} MoveWrites(c: Config, st: State, ready: State, env: Env)
    requires AboutToMove(c, st) && UpdateSector(c, st, env).1 >= 0 && ready == UpdateSector(c, st, env).0
    ensures Move(c, st, env) == WriteCell(c, ready, KeyOf(st.reloc.fd.header), st.reloc.buffer.data).0
              .(pc := if WriteCell(c, ready, KeyOf(st.reloc.fd.header), st.reloc.buffer.data).1 < 0 then Yield610
                else Yield617)
  {
    hide UpdateSector, WriteCell, FsWrite, Pad, TruncateExt;
    var h := st.reloc.fd.header;
    TruncateIdentity(h.ext);
    PadFull(st.reloc.buffer.data);
    WriteIsWriteCell(c, st, h.name, h.ext as bv8, st.reloc.buffer.data, env);
  }

  /** Moving one variable when the current sector has room. */
  lemma {:induction false} RoomyMove(c: Config, st: State, env: Env)
    requires AboutToMove(c, st) && st.pos[st.cur] < c.slots
    ensures var st' := Move(c, st, env);
            && WriteFrame(c, st, KeyOf(st.reloc.fd.header), st') && st'.pc == Yield617
            && Free(c, st'.pos) == Free(c, st.pos) - 1 && Blanks(c, st') == Blanks(c, st) && Left(st') == Left(st) - 1
  {
    hide Find, Good, Reads, Distinct, Where, Dims, Entries, Collecting, WriteCell, Move, Commits, Holds, Contents;
    MovingEntry(c, st);
    var key := KeyOf(st.reloc.fd.header);
    MoveWrites(c, st, st, env);
    WriteCellCommits(c, st, key, st.reloc.buffer.data);
    WriteSlack(c, st, key, WriteCell(c, st, key, st.reloc.buffer.data).0);
  }

  lemma ActivateStillMoving(c: Config, st: State, next: nat)
    requires AboutToMove(c, st) && st.pos[st.cur] == c.slots && next < c.sectors && st.pos[next] < c.slots
    ensures var st1 := Activate(c, st, next);
            AboutToMove(c, st1) && st1.pos[st1.cur] == 0 && st1.reloc == st.reloc && st1.fd == st.fd
              && st1.pos == st.pos
  {
    hide Find, Good, Reads, Distinct, Where, Dims, Entries, Collecting;
    ActivateKeeps(c, st, next);
  }

  /** The nested `fs_thread(1)` of a relocation whose own write changes sector: it
      resumes at the same point and writes the cell first. */
  lemma {:induction false} NestedMove(c: Config, st: State, next: nat, env: Env)
    requires AboutToMove(c, st) && st.pos[st.cur] == c.slots && NextFree(c, st.pos, st.cur, st.cur) == Some(next)
    ensures var st1 := Activate(c, st, next);
            && AboutToMove(c, st1) && st1.pos[next] == 0
            && UpdateSector(c, st, env) == (Move(c, st1, env), 1)
  {
    hide Find, Good, Reads, Distinct, Where, Dims, Entries, Collecting, Move, NextFree;
    ActivateStillMoving(c, st, next);
  }

  /** Re-entrancy: when the relocation's own write changes sector the cell is written
      twice, once by the nested call and once by the outer one. Both levels end at
      the yield of line 617 with the same `reloc` variables; the first copy is dead,
      the second is the live one; nothing is erased. */
  lemma {:induction false} RollingMove(c: Config, st: State, next: nat, env: Env)
    requires AboutToMove(c, st) && st.pos[st.cur] == c.slots && NextFree(c, st.pos, st.cur, st.cur) == Some(next)
    ensures var st' := Move(c, st, env);
            && st'.pc == Yield617 && st'.reloc == st.reloc && st'.cur == next
            && st'.pos == st.pos[next := 2]
            && st'.fd[st.reloc.fdIndex].address == Addr(next, 1)
            && !ValidAt(c, st'.flash, Addr(next, 0))
            && Free(c, st'.pos) == Free(c, st.pos) - 2 && Blanks(c, st') == Blanks(c, st) - 1
            && Left(st') == Left(st) - 1
  {
    hide Find, Good, Reads, Distinct, Where, Dims, Entries, Collecting, WriteCell, Move, Commits, Holds, Contents,
      UpdateSector, NextFree, ValidAt;
    var key := KeyOf(st.reloc.fd.header);
    NestedMove(c, st, next, env);
    ActivateSlack(c, st, next);
    var st1 := Activate(c, st, next);
    RoomyMove(c, st1, env);
    MovingEntry(c, st1);
    var st2 := Move(c, st1, env);
    MoveKeeps(c, st1, env);
    SecondCopy(c, st, st1, st2, env);
  }

  lemma {:induction false} SecondCopy(c: Config, st: State, st1: State, st2: State, env: Env)
    requires AboutToMove(c, st) && AboutToMove(c, st1) && st1.reloc == st.reloc && st1.fd == st.fd
    requires st1.pos[st1.cur] == 0 && Inv(c, st2) && st2.reloc == st.reloc && st2.pc == Yield617
    requires WriteFrame(c, st1, KeyOf(st.reloc.fd.header), st2)
    requires UpdateSector(c, st, env) == (st2, 1)
    ensures var st' := Move(c, st, env);
            && st'.pc == Yield617 && st'.reloc == st.reloc && st'.cur == st1.cur
            && st'.pos == st1.pos[st1.cur := 2]
            && st'.fd[st.reloc.fdIndex].address == Addr(st1.cur, 1)
            && !ValidAt(c, st'.flash, Addr(st1.cur, 0))
            && Free(c, st'.pos) == Free(c, st2.pos) - 1 && Blanks(c, st') == Blanks(c, st2) && Left(st') == Left(st2)
  {
    hide Find, Good, Reads, Distinct, Where, Dims, Entries, Collecting, WriteCell, Move, Commits, Holds, Contents,
      UpdateSector;
    var key := KeyOf(st.reloc.fd.header);
    MovingEntry(c, st1);
    MoveWrites(c, st, st2, env);
    var i := st.reloc.fdIndex;
    assert Find(st1.fd, key) == i;
    assert KeyOf(st2.fd[i].header) == key && st2.fd[i].sector == st1.cur;
    assert Find(st2.fd, key) == i by { DistinctFind(c, st2, i); }
    IndexedIsRing(c, st2);
    WriteCellCommits(c, st2, key, st.reloc.buffer.data);
    var st3 := WriteCell(c, st2, key, st.reloc.buffer.data).0;
    WriteSlack(c, st2, key, st3);
    OldCopyDead(c, st2, st3, key, i);
  }

  lemma DistinctFind(c: Config, st: State, i: nat)
    requires Indexed(c, st) && i < |st.fd|
    ensures Find(st.fd, KeyOf(st.fd[i].header)) == i
  {
    hide Find, Reads, Entries;
  }

  /** After a write the previous cell of the variable is not valid any more. */
  lemma OldCopyDead(c: Config, st: State, st': State, key: Key, i: nat)
    requires Indexed(c, st) && Indexed(c, st') && WriteFrame(c, st, key, st')
    requires i == Find(st.fd, key) && i < |st.fd| && st.fd[i].address != Target(st)
    ensures !ValidAt(c, st'.flash, st.fd[i].address)
  {
    hide Find, Good, Reads, Distinct, Where, Dims, Entries, ValidAt;
    var b := st.fd[i].address;
    if ValidAt(c, st'.flash, b) {
      ValidAddress(c, st'.flash, b);
      ValidIsEntry(c, st', b);
      var j := Find(st'.fd, KeyAt(st'.flash, b));
      if j < i { AddressesDistinct(c, st, j, i); }
      if i < j < |st.fd| { AddressesDistinct(c, st, i, j); }
    }
  }

  lemma ValidAddress(c: Config, im: Image, a: Addr)
    requires ValidAt(c, im, a)
    ensures a in im
  {
    hide Good;
  }

  // ---------------------------------------------------------------- bit clearing

  /** Bit clearing loses nothing in a whole `fs_write`: after `updateSector`, whatever
      the nested `fs_thread(1)` did, the slot to be programmed is still erased and
      all four flash writes store what they mean to. */
  lemma FsWriteOverwrites(c: Config, st: State, name: bv16, ext: bv8, data: seq<bv8>, env: Env)
      returns (s1: State, s2: State, s3: State, s4: State)
    requires Inv(c, st) && Ring(c, st) && !AllFull(c, st.pos) && |data| <= DATA_SIZE
    requires Fits(c, st, Key(name, TruncateExt(ext)))
    ensures var ready := UpdateSector(c, st, env).0;
            FsWrite(c, st, name, ext, data, env) == (s4, 0)
            && Overwrites(c, ready, Key(name, TruncateExt(ext)), Pad(data), s1, s2, s3, s4)
  {
    hide Find, Good, Reads, Distinct, Where, Dims, Entries, Collecting, WriteCell, FsWrite, Contents, UpdateSector,
      Overwrites, Fits;
    var key := Key(name, TruncateExt(ext));
    UpdateSectorKeeps(c, st, env);
    var ready := UpdateSector(c, st, env).0;
    FitsByVars(c, st, key);
    FitsByVars(c, ready, key);
    WriteIsWriteCell(c, st, name, ext, data, env);
    s1, s2, s3, s4 := AndIsOverwrite(c, ready, key, Pad(data));
  }

  lemma {:induction false} RoomyReady(c: Config, st: State, env: Env)
    requires Ring(c, st) && st.pos[st.cur] < c.slots
    ensures UpdateSector(c, st, env) == (st, 0)
  {
    hide Dims, FsThread, NextFree;
  }

  /** And in a relocation that changes sector, where the cell is written twice: `r1`
      to `r4` are the flash writes of the nested call, `s1` to `s4` the outer ones. */
  lemma RollingOverwrites(c: Config, st: State, next: nat, env: Env)
      returns (r1: State, r2: State, r3: State, r4: State, s1: State, s2: State, s3: State, s4: State)
    requires AboutToMove(c, st) && st.pos[st.cur] == c.slots && NextFree(c, st.pos, st.cur, st.cur) == Some(next)
    ensures var key, data := KeyOf(st.reloc.fd.header), st.reloc.buffer.data;
            var nested := r4.(pc := Yield617);
            && Overwrites(c, Activate(c, st, next), key, data, r1, r2, r3, r4)
            && UpdateSector(c, st, env) == (nested, 1)
            && Overwrites(c, nested, key, data, s1, s2, s3, s4)
            && Move(c, st, env) == s4.(pc := Yield617)
  {
    hide Find, Good, Reads, Distinct, Where, Dims, Entries, Collecting, WriteCell, Move, Contents, UpdateSector,
      Overwrites, NextFree, Fits;
    var key, data := KeyOf(st.reloc.fd.header), st.reloc.buffer.data;
    NestedMove(c, st, next, env);
    var start := Activate(c, st, next);
    MovingEntry(c, start);
    RoomyReady(c, start, env);
    MoveWrites(c, start, start, env);
    r1, r2, r3, r4 := AndIsOverwrite(c, start, key, data);
    MoveKeeps(c, start, env);
    var nested := Move(c, start, env);
    MovingEntry(c, st);
    MoveWrites(c, st, nested, env);
    FitsByVars(c, st, key);
    FitsByVars(c, nested, key);
    IndexedIsRing(c, nested);
    UpdateSectorKeeps(c, st, env);
    s1, s2, s3, s4 := AndIsOverwrite(c, nested, key, data);
  }

  // ---------------------------------------------------------------- one collector call

  /** Calls of `fs_thread` until the erase, with the device ready and no user writes. */
  function Calls(st: State): nat {
    match st.pc
    case Wait576 => MoveCalls(st) + 1
    case Yield596 => MoveCalls(st)
    case _ => 2 * Left(st) + 1
  }

  function MoveCalls(st: State): nat {
    var same := st.reloc.fdIndex < |st.fd| && st.fd[st.reloc.fdIndex].address == st.reloc.fd.address;
    if same then 2 * Left(st) else 2 * Left(st) + 2
  }

  /** What a collector call inside a pass does: the slack is conserved exactly, and
      with the device ready the pass is one call closer to its end. At the end the
      victim's slots come back. */
  ghost predicate PassStep(c: Config, st: State, st': State, ready: bool)
    requires |st.pos| == c.sectors && |st'.pos| == c.sectors
  {
    if st'.pc == Wait555 then
      && Free(c, st'.pos) - Blanks(c, st') == Slack(c, st) + c.slots - 1
      && Blanks(c, st') == Blanks(c, st) + 1 && Left(st) == 0
      && (ready ==> Calls(st) == 1)
    else
      && Passing(st'.pc) && st'.reloc.sector == st.reloc.sector && Slack(c, st') == Slack(c, st)
      && Blanks(c, st') <= Blanks(c, st)
      && Calls(st') <= Calls(st) && (ready ==> Calls(st') + 1 == Calls(st))
  }

  lemma RelocLoopStep(c: Config, st: State, i: nat, env: Env)
    requires Ring(c, st) && i <= |st.fd|
    requires st.reloc.sector != st.cur && st.pos[st.reloc.sector] == c.slots && Outside(st.fd, st.reloc.sector, i)
    ensures var st' := RelocLoop(c, st, i, env);
            && st'.cur == st.cur && st'.fd == st.fd && st'.reloc.sector == st.reloc.sector
            && if st'.pc == Wait555 then
                 Left(st) == 0 && Free(c, st'.pos) == Free(c, st.pos) + c.slots && Blanks(c, st') == Blanks(c, st) + 1
               else
                 && Passing(st'.pc) && st'.pos == st.pos && Calls(st') <= 2 * Left(st) + 1
                 && (env.ready ==> Calls(st') == 2 * Left(st) && Left(st) > 0)
  {
    hide Dims, EraseVictim, CountIn, FreeUpTo, BlankCount, Best;
    var v := st.reloc.sector;
    var next := NextIn(st.fd, v, i);
    if next < |st.fd| {
      CountInside(st.fd, v, next);
    } else {
      assert Outside(st.fd, v, |st.fd|);
      var st1 := st.(reloc := st.reloc.(fdIndex := next), pc := Wait622);
      assert Ring(c, st1);
      EraseSlack(c, st1);
    }
  }

  lemma {:induction false} NextStep(c: Config, st: State, env: Env)
    requires Inv(c, st) && Ring(c, st) && st.pc == Yield617
    ensures PassStep(c, st, RelocLoop(c, st, st.reloc.fdIndex + 1, env), env.ready)
  {
    hide Indexed, Dims, RelocLoop, CountIn, FreeUpTo, BlankCount;
    RelocLoopStep(c, st, st.reloc.fdIndex + 1, env);
  }

  lemma {:induction false} EraseStep(c: Config, st: State)
    requires Inv(c, st) && Ring(c, st) && st.pc == Wait622
    ensures PassStep(c, st, EraseVictim(c, st), true)
  {
    hide Indexed, Dims, EraseVictim, CountIn, FreeUpTo, BlankCount;
    EraseSlack(c, st);
  }

  lemma {:induction false} ThreadStep(c: Config, st: State, flag: bool, env: Env)
    requires Inv(c, st) && Ring(c, st) && Passing(st.pc) && Slack(c, st) >= 0
    ensures PassStep(c, st, FsThread(c, st, flag, env), env.ready)
  {
    hide Indexed, Dims, Collecting, RelocLoop, Move, EraseVictim, FindRelocSector, CountIn, FreeUpTo, BlankCount;
    match st.pc
    case Wait576 =>
    case Yield596 =>
      if st.fd[st.reloc.fdIndex].address == st.reloc.fd.address {
        MoveStep(c, st, env);
      }
    case Yield617 => NextStep(c, st, env);
    case Wait622 => EraseStep(c, st);
  }

  lemma {:induction false} MoveStep(c: Config, st: State, env: Env)
    requires AboutToMove(c, st) && Slack(c, st) >= 0
    ensures var st' := Move(c, st, env);
            st'.pc == Yield617 && st'.reloc.sector == st.reloc.sector && Slack(c, st') == Slack(c, st)
              && Left(st') == Left(st) - 1
            && Blanks(c, st') <= Blanks(c, st)
  {
    hide Find, Good, Reads, Distinct, Where, Dims, Entries, Move, Contents, CountIn, FreeUpTo, BlankCount, Collecting,
      NextFree;
    MovingEntry(c, st);
    if st.pos[st.cur] < c.slots {
      RoomyMove(c, st, env);
    } else {
      FreeIsRoom(c, st);
      UpdateSectorKeeps(c, st, env);
      SomeFree(c, st, env);
      RollingMove(c, st, NextFree(c, st.pos, st.cur, st.cur).value, env);
    }
  }

  /** Whether the rest of the pass must still change sector: the variables left in
      the victim do not fit into the current one. */
  function Change(c: Config, st: State): nat
    requires st.cur < |st.pos|
  {
    if Left(st) > c.slots - st.pos[st.cur] then 1 else 0
  }

  /** A pass changes sector at most once: the change uses up one blank sector, and
      then the new sector has room for everything that is left. */
  lemma {:induction false} ThreadRoom(c: Config, st: State, flag: bool, env: Env)
    requires Inv(c, st) && Ring(c, st) && Passing(st.pc) && Slack(c, st) >= 0
    ensures var st' := FsThread(c, st, flag, env);
            st'.pc != Wait555 ==>
              Left(st') <= Left(st) && Blanks(c, st') - Change(c, st') == Blanks(c, st) - Change(c, st)
  {
    hide Find, Good, Reads, Distinct, Where, Dims, Entries, RelocLoop, Move, EraseVictim, FindRelocSector, CountIn,
      FreeUpTo, BlankCount;
    match st.pc
    case Wait576 =>
    case Yield596 =>
      if st.fd[st.reloc.fdIndex].address == st.reloc.fd.address {
        MoveRoom(c, st, env);
      }
    case Yield617 => RelocLoopStep(c, st, st.reloc.fdIndex + 1, env);
    case Wait622 => EraseSlack(c, st);
  }

  lemma {:induction false} MoveRoom(c: Config, st: State, env: Env)
    requires AboutToMove(c, st) && Slack(c, st) >= 0
    ensures var st' := Move(c, st, env);
            Left(st') <= Left(st) && Blanks(c, st') - Change(c, st') == Blanks(c, st) - Change(c, st)
  {
    hide Find, Good, Reads, Distinct, Where, Dims, Entries, Move, CountIn, FreeUpTo, BlankCount, Collecting, NextFree;
    MovingEntry(c, st);
    if st.pos[st.cur] < c.slots {
      RoomyMove(c, st, env);
    } else {
      FreeIsRoom(c, st);
      SomeFree(c, st, env);
      RollingMove(c, st, NextFree(c, st.pos, st.cur, st.cur).value, env);
    }
  }

  lemma {:induction false} SomeFree(c: Config, st: State, env: Env)
    requires Ring(c, st) && !AllFull(c, st.pos) && st.pos[st.cur] == c.slots
    ensures NextFree(c, st.pos, st.cur, st.cur).Some?
  {
    hide Dims;
    if NextFree(c, st.pos, st.cur, st.cur) == None {
      forall s | 0 <= s < c.sectors
        ensures st.pos[s] == c.slots
      {
        NextFreeNone(c, st.pos, st.cur, st.cur, s);
      }
    }
  }

  /** Sector `s` may be erased: it is not current, nothing points into it and
      nothing in it is valid. */
  ghost predicate Dead(c: Config, st: State, s: nat)
    requires Shape(c, st) && s < c.sectors
  {
    && s != st.cur && st.pos[s] == c.slots && Outside(st.fd, s, |st.fd|)
    && forall a :: ValidAt(c, st.flash, a) ==> a.sector != s
  }

  /** Collector safety: whichever resume point a call starts from, a sector that it
      erases is the victim and is dead. */
  lemma {:induction false} ErasesOnlyDead(c: Config, st: State, flag: bool, env: Env, s: nat)
    requires Inv(c, st) && Ring(c, st) && s < c.sectors
    requires st.pos[s] > 0 && FsThread(c, st, flag, env).pos[s] == 0
    ensures s == FsThread(c, st, flag, env).reloc.sector && Dead(c, st, s)
  {
    hide Find, Indexed, RelocLoop, Move, FindRelocSector, EraseVictim, Dead, Dims;
    match st.pc
    case Wait555 =>
    case Yield556 =>
      if FindRelocSector(c, st.fd, st.pos, st.cur).Some? {
        Victim.VictimChoice(c, st, FindRelocSector(c, st.fd, st.pos, st.cur).value);
        var st1 := st.(reloc := st.reloc.(sector := FindRelocSector(c, st.fd, st.pos, st.cur).value));
        SameIndexed(c, st, st1);
        LoopErases(c, st1, 0, env, s);
        SameDead(c, st, st1, s);
      }
    case Wait576 =>
    case Yield596 =>
      if st.fd[st.reloc.fdIndex].address == st.reloc.fd.address { MoveErasesNothing(c, st, env, s); }
    case Yield610 => MoveErasesNothing(c, st, env, s);
    case Yield617 => LoopErases(c, st, st.reloc.fdIndex + 1, env, s);
    case Wait622 =>
      EraseShape(c, st);
      VictimDead(c, st);
  }

  lemma SameIndexed(c: Config, st: State, st1: State)
    requires Indexed(c, st) && Shape(c, st1) && st1 == st.(reloc := st1.reloc)
    ensures Indexed(c, st1)
  {
    hide Find, Reads, Distinct, Where, Dims, Entries, Shape;
  }

  lemma SameDead(c: Config, st: State, st1: State, s: nat)
    requires Shape(c, st) && Shape(c, st1) && st1 == st.(reloc := st1.reloc) && s < c.sectors
    ensures Dead(c, st1, s) ==> Dead(c, st, s)
  {
    hide Dims, ValidAt;
  }

  lemma EraseShape(c: Config, st: State)
    requires Ring(c, st)
    ensures var st' := EraseVictim(c, st);
            st'.pos == st.pos[st.reloc.sector := 0] && st'.reloc == st.reloc
  {
    hide Dims;
  }

  lemma VictimDead(c: Config, st: State)
    requires Indexed(c, st) && Ring(c, st) && Outside(st.fd, st.reloc.sector, |st.fd|)
    requires st.reloc.sector != st.cur && st.pos[st.reloc.sector] == c.slots
    ensures Dead(c, st, st.reloc.sector)
  {
    hide Find, Indexed, Dims, ValidAt, Outside, EraseVictim;
    EraseIsSafe(c, st);
  }

  lemma LoopErases(c: Config, st: State, i: nat, env: Env, s: nat)
    requires Indexed(c, st) && Ring(c, st) && i <= |st.fd| && s < c.sectors
    requires st.reloc.sector != st.cur && st.pos[st.reloc.sector] == c.slots && Outside(st.fd, st.reloc.sector, i)
    requires st.pos[s] > 0 && RelocLoop(c, st, i, env).pos[s] == 0
    ensures s == st.reloc.sector == RelocLoop(c, st, i, env).reloc.sector && Dead(c, st, s)
  {
    hide Find, Indexed, Dims, ValidAt, Dead, RelocLoop;
    LoopShape(c, st, i, env);
    if NextIn(st.fd, st.reloc.sector, i) == |st.fd| {
      assert Outside(st.fd, st.reloc.sector, |st.fd|);
      VictimDead(c, st);
    }
  }

  lemma {:induction false} LoopShape(c: Config, st: State, i: nat, env: Env)
    requires Ring(c, st) && i <= |st.fd|
    ensures var st' := RelocLoop(c, st, i, env);
            && st'.reloc.sector == st.reloc.sector
            && (st'.pos == st.pos
               || (NextIn(st.fd, st.reloc.sector, i) == |st.fd| && st'.pos == st.pos[st.reloc.sector := 0]))
  {
    hide Dims, NextIn, EraseVictim;
    var st1 := st.(reloc := st.reloc.(fdIndex := |st.fd|), pc := Wait622);
    assert Ring(c, st1);
    EraseShape(c, st1);
  }

  lemma {:induction false} MoveErasesNothing(c: Config, st: State, env: Env, s: nat)
    requires Inv(c, st) && Ring(c, st) && Moving(st.pc) && st.fd[st.reloc.fdIndex].address == st.reloc.fd.address
    requires s < c.sectors && st.pos[s] > 0
    ensures Move(c, st, env).pos[s] > 0
  {
    hide Find, Good, Reads, Distinct, Where, Dims, Entries, Move, Contents, NextFree, Collecting;
    if AllFull(c, st.pos) {
      FullMove(c, st, env);
    } else {
      NotStuck(c, st);
      if st.pos[st.cur] < c.slots {
        RoomyMove(c, st, env);
      } else {
        SomeFree(c, st, env);
        RollingMove(c, st, NextFree(c, st.pos, st.cur, st.cur).value, env);
      }
    }
  }

  lemma NotStuck(c: Config, st: State)
    requires Inv(c, st) && Moving(st.pc) && !AllFull(c, st.pos)
    ensures st.pc == Yield596
  {
    hide Find, Good, Reads, Distinct, Where, Dims, Entries;
  }

  lemma {:induction false} FullMove(c: Config, st: State, env: Env)
    requires Inv(c, st) && Ring(c, st) && Moving(st.pc) && AllFull(c, st.pos)
    ensures Move(c, st, env).pos == st.pos
  {
    hide Inv, UpdateSector, WriteCell;
    UpdateSectorKeeps(c, st, env);
  }

  // ---------------------------------------------------------------- a whole pass

  /** Consecutive calls of `fs_thread`, each with its own argument and hardware answers. */
  function Collect(c: Config, st: State, calls: seq<(bool, Env)>): (r: State)
    requires Ring(c, st)
    ensures Ring(c, r)
    decreases |calls|
  {
    if calls == [] then st else Collect(c, FsThread(c, st, calls[0].0, calls[0].1), calls[1..])
  }

  ghost predicate AllReady(calls: seq<(bool, Env)>) {
    forall i :: 0 <= i < |calls| ==> calls[i].1.ready
  }

  /** A pass with no user writes ends after exactly `Calls(st)` calls. */
  lemma {:induction false} PassEnds(c: Config, st: State, calls: seq<(bool, Env)>)
    requires Inv(c, st) && Ring(c, st) && Passing(st.pc) && Slack(c, st) >= 0
    requires AllReady(calls) && |calls| <= Calls(st)
    ensures var st' := Collect(c, st, calls);
            && Inv(c, st') && Vars(c, st') == Vars(c, st)
            && if |calls| == Calls(st) then
                 && st'.pc == Wait555 && Free(c, st'.pos) - Blanks(c, st') == Slack(c, st) + c.slots - 1
                 && Blanks(c, st') == Blanks(c, st) + 1 - Change(c, st)
               else Passing(st'.pc)
    decreases |calls|
  {
    hide Find, Good, Reads, Distinct, Where, Dims, Entries, FsThread, Contents, CountIn, FreeUpTo, BlankCount,
      Collecting;
    if calls == [] {
      CallsPositive(c, st);
    } else {
      var (flag, env) := calls[0];
      ThreadStep(c, st, flag, env);
      ThreadKeeps(c, st, flag, env);
      ThreadRoom(c, st, flag, env);
      var st1 := FsThread(c, st, flag, env);
      if st1.pc == Wait555 {
        assert calls[1..] == [];
      } else {
        PassEnds(c, st1, calls[1..]);
      }
    }
  }

  lemma CallsPositive(c: Config, st: State)
    requires Inv(c, st) && Ring(c, st) && Passing(st.pc)
    ensures Calls(st) > 0
  {
    hide Find, Good, Reads, Distinct, Where, Dims, Entries;
    if st.pc == Yield596 && st.fd[st.reloc.fdIndex].address == st.reloc.fd.address {
      MovingEntry(c, st);
    }
  }

  /** The call that picks the victim. */
  lemma {:induction false} SelectStep(c: Config, st: State, v: nat, flag: bool, env: Env)
    requires Inv(c, st) && Ring(c, st) && st.pc == Yield556
    requires FindRelocSector(c, st.fd, st.pos, st.cur) == Some(v) && env.ready
    ensures var live := CountIn(st.fd, v);
            var st' := FsThread(c, st, flag, env);
            if live == 0 then
              st'.pc == Wait555 && Free(c, st'.pos) == Free(c, st.pos) + c.slots && Blanks(c, st') == Blanks(c, st) + 1
            else
              && Passing(st'.pc) && Left(st') == live && Calls(st') == 2 * live
              && st'.pos == st.pos && st'.cur == st.cur && st'.fd == st.fd && st'.reloc.sector == v
              && Free(c, st'.pos) == Free(c, st.pos) && Blanks(c, st') == Blanks(c, st)
  {
    hide Find, Good, Reads, Distinct, Where, Dims, Entries, RelocLoop, CountIn, FreeUpTo, BlankCount, FindRelocSector;
    Victim.VictimChoice(c, st, v);
    var st1 := st.(reloc := st.reloc.(sector := v));
    RelocLoopStep(c, st1, 0, env);
    hide Left;
  }

  /** A pass that chooses a victim with `live` variables takes exactly `2 * live + 1`
      calls, the choosing call included, keeps the map, and gives back the victim's
      slots less the `live` it used. One slot more is lost exactly when the variables
      do not fit into the current sector, because the move that changes sector writes
      its cell twice. */
  lemma {:induction false} WholePass(c: Config, st: State, v: nat, calls: seq<(bool, Env)>)
    requires Inv(c, st) && Ring(c, st) && st.pc == Yield556 && FindRelocSector(c, st.fd, st.pos, st.cur) == Some(v)
    requires AllReady(calls) && |calls| == 2 * CountIn(st.fd, v) + 1
    requires Free(c, st.pos) >= CountIn(st.fd, v) + Blanks(c, st)
    ensures var live := CountIn(st.fd, v);
            var st' := Collect(c, st, calls);
            var change := if live > c.slots - st.pos[st.cur] then 1 else 0;
            && st'.pc == Wait555 && Inv(c, st') && Vars(c, st') == Vars(c, st)
            && Free(c, st'.pos) - Free(c, st.pos) == c.slots - live - change
            && Blanks(c, st') == Blanks(c, st) + 1 - change
  {
    hide Find, Good, Reads, Distinct, Where, Dims, Entries, FsThread, Contents, CountIn, FreeUpTo, Collecting,
      BlankCount, Best;
    var (flag, env) := calls[0];
    SelectStep(c, st, v, flag, env);
    ThreadKeeps(c, st, flag, env);
    var st1 := FsThread(c, st, flag, env);
    if st1.pc == Wait555 {
      assert calls[1..] == [];
    } else {
      hide FindRelocSector;
      PassEnds(c, st1, calls[1..]);
    }
  }

  /** Not before: after fewer calls the victim is still waiting to be erased. */
  lemma {:induction false} NotBefore(c: Config, st: State, v: nat, calls: seq<(bool, Env)>)
    requires Inv(c, st) && Ring(c, st) && st.pc == Yield556 && FindRelocSector(c, st.fd, st.pos, st.cur) == Some(v)
    requires AllReady(calls) && 0 < |calls| < 2 * CountIn(st.fd, v) + 1
    requires Free(c, st.pos) >= CountIn(st.fd, v) + Blanks(c, st)
    ensures Passing(Collect(c, st, calls).pc)
  {
    hide Find, Good, Reads, Distinct, Where, Dims, Entries, FsThread, Contents, CountIn, FreeUpTo, BlankCount,
      Collecting, FindRelocSector;
    var (flag, env) := calls[0];
    SelectStep(c, st, v, flag, env);
    ThreadKeeps(c, st, flag, env);
    PassEnds(c, FsThread(c, st, flag, env), calls[1..]);
  }
}
