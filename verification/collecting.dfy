/** The collector `fs_thread` and its re-entry from `fs_write` (wormvars.c:314-353
    and 552-632): every call keeps the invariant, and collector steps never change
    the stored map, in RAM or in any flash image along the way. */
module Collector {
  import opened Block
  import opened Store
  import opened Images
  import opened Invariant
  import opened Writing
  import Victim

  // ---------------------------------------------------------------- small facts

  /** The search fails only if every sector from `n` around to `cur` is full. */
  lemma {:induction false} NextFreeNone(c: Config, pos: seq<nat>, cur: nat, n: nat, s: nat)
    requires |pos| == c.sectors && cur < c.sectors && n < c.sectors && NextFree(c, pos, cur, n) == None
    requires s < c.sectors && if n < cur then n < s <= cur else s > n || s <= cur
    ensures pos[s] >= c.slots
    decreases Ahead(c, cur, Successor(c, n))
  {
    hide Successor;
    var next := Successor(c, n);
    if next != cur && next != s { NextFreeNone(c, pos, cur, next, s); }
  }

  lemma TruncateIdentity(e: bv3)
    ensures TruncateExt(e as bv8) == e
  {
  }

  lemma PadFull(d: Data)
    ensures Pad(d) == d
  {
  }

  lemma LoggedAgain(c: Config, l0: seq<Image>, l1: seq<Image>, l2: seq<Image>, m: map<Key, Data>)
    requires Logged(c, l0, l1, m) && Logged(c, l1, l2, m)
    ensures Logged(c, l0, l2, m)
  {
    hide Holds;
  }

  lemma LoggedThenCommits(c: Config, l0: seq<Image>, l1: seq<Image>, n: nat, l2: seq<Image>, m: map<Key, Data>,
      m': map<Key, Data>)
    requires Logged(c, l0, l1, m) && Commits(c, l1, n, l2, m, m')
    ensures Commits(c, l0, n, l2, m, m')
    ensures m == m' ==> Logged(c, l0, l2, m)
  {
    hide Holds;
  }

  /** `Fits` in terms of the map alone. */
  lemma FitsByVars(c: Config, st: State, key: Key)
    requires Indexed(c, st)
    ensures Find(st.fd, key) < |st.fd| <==> key in Vars(c, st)
    ensures |st.fd| == |Vars(c, st)|
    ensures Fits(c, st, key) <==> key in Vars(c, st) || |Vars(c, st)| < c.fdMax
  {
    hide Find, Good, Reads, Entries, Distinct, Shape;
    WhereKeys(st.fd);
    hide Where;
    assert Vars(c, st).Keys == Where(st.fd).Keys;
  }

  // ---------------------------------------------------------------- single steps

  /** A write takes no variable into another sector than the current one. */
  lemma {:induction false} WriteKeepsCount(c: Config, st: State, key: Key, st': State, v: nat)
    requires Shape(c, st) && Shape(c, st') && WriteFrame(c, st, key, st') && v != st.cur
    ensures CountIn(st'.fd, v) ==
            CountIn(st.fd, v) - if Find(st.fd, key) < |st.fd| && st.fd[Find(st.fd, key)].sector == v then 1 else 0
  {
    hide Find, Dims;
    var i := Find(st.fd, key);
    if i < |st.fd| {
      CountSet(st.fd, st'.fd, v, i);
    } else {
      CountSame(st.fd, st'.fd[..|st.fd|], v);
    }
  }

  /** A write, whoever asked for it, keeps the collector's invariant. */
  lemma WriteKeepsCollecting(c: Config, st: State, key: Key, st': State)
    requires Inv(c, st) && st.pos[st.cur] < c.slots && Indexed(c, st') && WriteFrame(c, st, key, st') && st'.pc == st.pc
    ensures Collecting(c, st')
  {
    hide Find, Good, Reads, Entries, Distinct, Where, Dims, CountIn;
    if st.pc != Wait555 && st.pc != Yield556 {
      WriteKeepsCount(c, st, key, st', st.reloc.sector);
    }
    var i := Find(st.fd, key);
    assert i < |st.fd| ==> KeyOf(st'.fd[i].header) == KeyOf(st.fd[i].header);
    assert forall j :: 0 <= j < |st.fd| ==> st'.fd[j].sector == (if j == i then st.cur else st.fd[j].sector);
  }

  /** The sector chosen by `updateSector` is blank, and it is not the victim. */
  lemma ActivateKeeps(c: Config, st: State, s: nat)
    requires Inv(c, st) && Ring(c, st) && st.pos[st.cur] == c.slots && s < c.sectors && st.pos[s] < c.slots
    ensures var st' := Activate(c, st, s);
            Ring(c, st') && Inv(c, st') && Vars(c, st') == Vars(c, st) && st'.pos[st'.cur] == 0
  {
    hide Find, Good, LiveAt, Entries, Distinct, Where, Dims;
  }

  lemma NoneValid(c: Config, st: State, v: nat)
    requires Indexed(c, st) && Outside(st.fd, v, |st.fd|)
    ensures forall a :: ValidAt(c, st.flash, a) ==> a.sector != v
  {
    hide Find, Good, Reads, Distinct, Where, Dims, ValidAt;
    forall a | ValidAt(c, st.flash, a)
      ensures a.sector != v
    {
      ValidIsEntry(c, st, a);
    }
  }

  lemma EraseKeepsEntries(c: Config, st: State, v: nat)
    requires Entries(st.flash, st.fd) && Outside(st.fd, v, |st.fd|)
    ensures Entries(Erase(c, st, v).flash, st.fd)
  {
  }

  /** At the erase no cell of the victim is valid, so the map survives it. */
  lemma EraseIsSafe(c: Config, st: State)
    requires Indexed(c, st) && Ring(c, st) && Outside(st.fd, st.reloc.sector, |st.fd|)
    requires st.reloc.sector != st.cur
    ensures forall a :: ValidAt(c, st.flash, a) ==> a.sector != st.reloc.sector
    ensures var st' := EraseVictim(c, st);
            && Inv(c, st') && Vars(c, st') == Vars(c, st) && st'.log == st.log + [st'.flash]
            && Holds(c, st'.flash, Vars(c, st))
  {
    hide Find, ValidAt, Layout, LiveAt, Distinct, Where, Dims, Entries, Outside, Contents;
    var v := st.reloc.sector;
    NoneValid(c, st, v);
    TableFits(c, st.fd);
    EraseKeeps(c, st, ReadingOf(st), v);
    EraseKeepsEntries(c, st, v);
    var st' := EraseVictim(c, st);
    HoldsOf(c, st'.flash, ReadingOf(st'), Vars(c, st));
  }

  lemma SameLog(c: Config, l: seq<Image>, m: map<Key, Data>)
    ensures Logged(c, l, l, m)
  {
  }

  /** What a call that is not a user write promises. */
  ghost predicate Stutters(c: Config, st: State, st': State) {
    && Inv(c, st) && Inv(c, st')
    && Vars(c, st') == Vars(c, st)
    && Logged(c, st.log, st'.log, Vars(c, st))
  }

  lemma RelocLoopKeeps(c: Config, st: State, i: nat, env: Env)
    requires Indexed(c, st) && Ring(c, st) && i <= |st.fd|
    requires st.reloc.sector != st.cur && st.pos[st.reloc.sector] == c.slots && Outside(st.fd, st.reloc.sector, i)
    requires CountIn(st.fd, st.reloc.sector) < c.slots
    ensures var st' := RelocLoop(c, st, i, env);
            Inv(c, st') && Vars(c, st') == Vars(c, st) && Logged(c, st.log, st'.log, Vars(c, st))
  {
    hide Find, Good, Reads, Distinct, Where, Dims, Holds;
    var next := NextIn(st.fd, st.reloc.sector, i);
    SameLog(c, st.log, Vars(c, st));
    if next < |st.fd| {
      EntryHeader(c, st, next);
      assert Outside(st.fd, st.reloc.sector, next);
    } else {
      assert Outside(st.fd, st.reloc.sector, |st.fd|);
      var st1 := st.(reloc := st.reloc.(fdIndex := next), pc := Wait622);
      assert Indexed(c, st1) && Ring(c, st1);
      EraseIsSafe(c, st1);
    }
  }

  /** `updateSector`: either there is room afterwards, or every sector is full and
      nothing has changed. */
  lemma {:induction false} UpdateSectorKeeps(c: Config, st: State, env: Env)
    requires Inv(c, st) && Ring(c, st)
    ensures var (st', code) := UpdateSector(c, st, env);
            && Stutters(c, st, st')
            && (code < 0 <==> AllFull(c, st.pos)) && (code < 0 ==> st' == st)
            && (code >= 0 ==> st'.pos[st'.cur] < c.slots)
            && (Moving(st.pc) ==>
               st'.reloc == st.reloc && (code == 0 ==> st' == st) && (code > 0 ==> st'.pc == Yield617))
    decreases Rollover(c, st), 0
  {
    hide Find, Good, Reads, Distinct, Where, Dims, Holds, FsThread, Collecting, Entries;
    SameLog(c, st.log, Vars(c, st));
    if st.pos[st.cur] >= c.slots {
      match NextFree(c, st.pos, st.cur, st.cur)
      case Some(next) =>
        ActivateKeeps(c, st, next);
        ThreadKeeps(c, Activate(c, st, next), true, env);
      case None =>
        forall s | 0 <= s < c.sectors
          ensures st.pos[s] == c.slots
        {
          NextFreeNone(c, st.pos, st.cur, st.cur, s);
        }
    }
  }

  /** Where in the log the interrupted write of `key` takes effect: the index of
      the image that the flash write of line 385 leaves. */
  ghost function CommitIndex(c: Config, st: State, key: Key, env: Env): nat
    requires Ring(c, st)
  {
    var ready := UpdateSector(c, st, env).0;
    |ready.log| + if NeedsClear(ready, key) then 1 else 0
  }

  /** `fs_write`, with the collector possibly running inside it. */
  lemma {:induction false} WriteKeeps(c: Config, st: State, name: bv16, ext: bv8, data: seq<bv8>, env: Env)
    requires Inv(c, st) && Ring(c, st)
    requires |data| <= DATA_SIZE ==> Fits(c, st, Key(name, TruncateExt(ext)))
    ensures var (st', code) := FsWrite(c, st, name, ext, data, env);
            var key := Key(name, TruncateExt(ext));
            && Inv(c, st')
            && code == (if |data| > DATA_SIZE then -1 else if AllFull(c, st.pos) then -2 else 0)
            && (code < 0 ==> st' == st)
            && (code == 0 ==>
                  && Vars(c, st') == Vars(c, st)[key := Pad(data)]
                  && Commits(c, st.log, CommitIndex(c, st, key, env), st'.log, Vars(c, st), Vars(c, st'))
                  && CommitIndex(c, st, key, env) < |st'.log|
                  && st'.pos[st'.cur] > 0
                  && Find(st'.fd, key) < |st'.fd| && st'.fd[Find(st'.fd, key)].sector == st'.cur)
            && (Moving(st.pc) ==> st'.reloc == st.reloc && (code == 0 ==> st'.pc == st.pc || st'.pc == Yield617))
    decreases Rollover(c, st), 1
  {
    hide Find, Good, Reads, Distinct, Where, Dims, Holds, Collecting, Entries, UpdateSector, WriteCell, Commits, Fits,
      Shape;
    if |data| <= DATA_SIZE {
      UpdateSectorKeeps(c, st, env);
      var (ready, code) := UpdateSector(c, st, env);
      if code >= 0 {
        WriteWithRoom(c, st, ready, Key(name, TruncateExt(ext)), Pad(data));
      }
    }
  }

  /** The part of `fs_write` after `updateSector` succeeded. */
  lemma WriteWithRoom(c: Config, st: State, ready: State, key: Key, data: Data)
    requires Stutters(c, st, ready) && Ring(c, ready) && ready.pos[ready.cur] < c.slots && Fits(c, st, key)
    ensures var (st', code) := WriteCell(c, ready, key, data);
            var n := |ready.log| + if NeedsClear(ready, key) then 1 else 0;
            && code == 0 && Inv(c, st')
            && Vars(c, st') == Vars(c, st)[key := data]
            && Commits(c, st.log, n, st'.log, Vars(c, st), Vars(c, st')) && n < |st'.log|
            && st'.pos[st'.cur] > 0
            && Find(st'.fd, key) < |st'.fd| && st'.fd[Find(st'.fd, key)].sector == st'.cur
            && st'.reloc == ready.reloc && st'.pc == ready.pc
  {
    hide Find, Good, Reads, Distinct, Where, Dims, Holds, Collecting, Entries, WriteCell, Fits, Contents;
    FitsByVars(c, st, key);
    FitsByVars(c, ready, key);
    WriteCellCommits(c, ready, key, data);
    var (st', _) := WriteCell(c, ready, key, data);
    var n := |ready.log| + if NeedsClear(ready, key) then 1 else 0;
    WriteKeepsCollecting(c, ready, key, st');
    LoggedThenCommits(c, st.log, ready.log, n, st'.log, Vars(c, st), Vars(c, st'));
    FoundAfterWrite(c, ready, key, st');
  }

  lemma FoundAfterWrite(c: Config, st: State, key: Key, st': State)
    requires Indexed(c, st) && Indexed(c, st') && WriteFrame(c, st, key, st')
    ensures Find(st'.fd, key) == Find(st.fd, key)
  {
    hide Find, Good, Reads, Where, Dims, Entries;
    assert KeyOf(st'.fd[Find(st.fd, key)].header) == key;
  }

  /** One turn of the relocation loop, the re-entrant case included. */
  lemma {:induction false} MoveKeeps(c: Config, st: State, env: Env)
    requires Inv(c, st) && Ring(c, st) && Moving(st.pc) && st.fd[st.reloc.fdIndex].address == st.reloc.fd.address
    ensures var st' := Move(c, st, env);
            && Stutters(c, st, st') && st'.reloc == st.reloc
            && st'.pc == (if AllFull(c, st.pos) then Yield610 else Yield617)
    decreases Rollover(c, st), 2
  {
    hide Indexed, Dims, Holds, FsWrite, Pad, TruncateExt, Collecting, Contents, Commits, CommitIndex, Fits;
    var h := st.reloc.fd.header;
    var key := KeyOf(h);
    TruncateIdentity(h.ext);
    PadFull(st.reloc.buffer.data);
    MovedData(c, st);
    WriteKeeps(c, st, h.name, h.ext as bv8, st.reloc.buffer.data, env);
    var (moved, code) := FsWrite(c, st, h.name, h.ext as bv8, st.reloc.buffer.data, env);
    if code == 0 {
      assert Vars(c, st)[key := st.reloc.buffer.data] == Vars(c, st);
      CommitsSame(c, st.log, CommitIndex(c, st, key, env), moved.log, Vars(c, st));
      MovedEntry(c, st, moved, key);
      MovedIndexed(c, moved);
    } else {
      RefusedKeeps(c, st);
    }
  }

  lemma MovedIndexed(c: Config, st: State)
    requires Indexed(c, st) && (Moving(st.pc) || st.pc == Yield617)
    ensures Indexed(c, st.(pc := Yield617)) && Vars(c, st.(pc := Yield617)) == Vars(c, st)
  {
    hide Find, Good, Reads, Distinct, Where, Dims, Entries;
  }

  lemma RefusedKeeps(c: Config, st: State)
    requires Inv(c, st) && Moving(st.pc) && st.fd[st.reloc.fdIndex].address == st.reloc.fd.address && AllFull(c, st.pos)
    ensures Stutters(c, st, st.(pc := Yield610))
  {
    hide Find, Good, Reads, Distinct, Where, Dims, Holds, Entries;
    SameLog(c, st.log, Vars(c, st));
  }

  lemma CommitsSame(c: Config, l0: seq<Image>, n: nat, l1: seq<Image>, m: map<Key, Data>)
    requires Commits(c, l0, n, l1, m, m)
    ensures Logged(c, l0, l1, m)
  {
    hide Holds;
  }

  /** The buffered data is what the map holds for the key being moved. */
  lemma MovedData(c: Config, st: State)
    requires Inv(c, st) && Moving(st.pc) && st.fd[st.reloc.fdIndex].address == st.reloc.fd.address
    ensures var key := KeyOf(st.reloc.fd.header);
            Fits(c, st, key) && key in Vars(c, st) && Vars(c, st)[key] == st.reloc.buffer.data
            && Find(st.fd, key) == st.reloc.fdIndex
  {
    hide Find, Good, Reads, Where, Dims, Entries;
    EntryIsValid(c, st, st.reloc.fdIndex);
    WhereKeys(st.fd);
  }

  lemma MovedEntry(c: Config, st: State, moved: State, key: Key)
    requires Inv(c, st) && Inv(c, moved) && Moving(st.pc) && moved.reloc == st.reloc
    requires key == KeyOf(st.reloc.fd.header) && (moved.pc == st.pc || moved.pc == Yield617)
    requires Find(moved.fd, key) < |moved.fd| && moved.fd[Find(moved.fd, key)].sector == moved.cur
    requires !AllFull(c, st.pos)
    ensures Collecting(c, moved.(pc := Yield617))
  {
    hide Find, Good, Reads, Where, Dims, Entries;
  }

  /** Line 556: the choice of a victim and the start of its relocation. */
  lemma {:induction false} SelectKeeps(c: Config, st: State, flag: bool, env: Env)
    requires Inv(c, st) && Ring(c, st) && st.pc == Yield556
    ensures Stutters(c, st, FsThread(c, st, flag, env))
  {
    hide Find, Good, Reads, Distinct, Where, Dims, Holds, Entries, RelocLoop, FindRelocSector;
    SameLog(c, st.log, Vars(c, st));
    if FindRelocSector(c, st.fd, st.pos, st.cur).Some? {
      var v := FindRelocSector(c, st.fd, st.pos, st.cur).value;
      Victim.VictimChoice(c, st, v);
      RelocLoopKeeps(c, st.(reloc := st.reloc.(sector := v)), 0, env);
    }
  }

  /** Line 576: the cell to be moved is read into the buffer. */
  lemma FetchKeeps(c: Config, st: State)
    requires Inv(c, st) && Ring(c, st) && st.pc == Wait576
    ensures Stutters(c, st, Fetch(c, st))
  {
    hide Find, Good, Reads, Distinct, Where, Dims, Holds, Entries;
    SameLog(c, st.log, Vars(c, st));
    EntryHeader(c, st, st.reloc.fdIndex);
  }

  /** Line 602: a user write has moved the variable already. */
  lemma SkipKeeps(c: Config, st: State)
    requires Inv(c, st) && Ring(c, st) && st.pc == Yield596 && st.fd[st.reloc.fdIndex].address != st.reloc.fd.address
    ensures Stutters(c, st, st.(pc := Yield617))
  {
    hide Find, Good, Reads, Distinct, Where, Dims, Holds, Entries;
    SameLog(c, st.log, Vars(c, st));
  }

  lemma WaitKeeps(c: Config, st: State, pc: Pc)
    requires Inv(c, st) && (pc == st.pc || (pc == Yield556 && st.pc == Wait555))
    ensures Stutters(c, st, st.(pc := pc))
  {
    hide Find, Good, Reads, Distinct, Where, Dims, Holds, Entries;
    SameLog(c, st.log, Vars(c, st));
  }

  lemma EraseCallKeeps(c: Config, st: State)
    requires Inv(c, st) && Ring(c, st) && st.pc == Wait622
    ensures Stutters(c, st, EraseVictim(c, st))
  {
    hide Find, Good, Reads, Distinct, Where, Dims, Holds, Entries, EraseVictim;
    EraseIsSafe(c, st);
  }

  lemma NextKeeps(c: Config, st: State, env: Env)
    requires Inv(c, st) && Ring(c, st) && st.pc == Yield617
    ensures Stutters(c, st, RelocLoop(c, st, st.reloc.fdIndex + 1, env))
  {
    hide Find, Good, Reads, Distinct, Where, Dims, Holds, Entries, RelocLoop;
    RelocLoopKeeps(c, st, st.reloc.fdIndex + 1, env);
  }

  /** Every `fs_thread` step, from every resume point, keeps the invariant and is a
      stutter on the stored map. */
  lemma {:induction false} ThreadKeeps(c: Config, st: State, flag: bool, env: Env)
    requires Inv(c, st) && Ring(c, st)
    ensures var st' := FsThread(c, st, flag, env);
            && Stutters(c, st, st')
            && (Moving(st.pc) ==> st'.reloc == st.reloc && (!AllFull(c, st.pos) ==> st'.pc == Yield617))
    decreases Rollover(c, st), 3
  {
    hide Indexed, Dims, Contents, Holds, RelocLoop, Move, FindRelocSector, EraseVictim, Fetch, Logged;
    match st.pc
    case Wait555 =>
      WaitKeeps(c, st, st.pc);
      WaitKeeps(c, st, Yield556);
    case Yield556 => SelectKeeps(c, st, flag, env);
    case Wait576 =>
      WaitKeeps(c, st, st.pc);
      FetchKeeps(c, st);
    case Yield596 =>
      if st.fd[st.reloc.fdIndex].address == st.reloc.fd.address {
        MoveKeeps(c, st, env);
      } else {
        SkipKeeps(c, st);
      }
    case Yield610 => MoveKeeps(c, st, env);
    case Yield617 => NextKeeps(c, st, env);
    case Wait622 =>
      WaitKeeps(c, st, st.pc);
      EraseCallKeeps(c, st);
  }
}
