/** The commit point of a user write is the flash write of line 385: what the log
    shows there, whatever the nested collector call has done before it
    (wormvars.c:336-431). */
module Committing {
  import opened Block
  import opened Store
  import opened Images
  import opened Invariant
  import opened Writing
  import opened Collector
  import opened Runs
  import Progress

  // ---------------------------------------------------------------- the log ends with the flash

  /** From `st` to `next` the log has only grown, and its last image is the flash. */
  predicate Follows(st: State, next: State) {
    st.log <= next.log && next.flash == if |next.log| == |st.log| then st.flash else next.log[|next.log| - 1]
  }

  lemma FollowsAgain(st: State, mid: State, next: State)
    requires Follows(st, mid) && Follows(mid, next)
    ensures Follows(st, next)
  {
  }

  lemma StepsFollow(c: Config, st: State, i: nat)
    requires Shape(c, st) && i <= |st.fd|
    ensures Follows(st, ClearNewer(c, st, i)) && Follows(st, Retire(c, st, i))
  {
    hide Dims, AndHeader, AndFlags;
  }

  lemma EnterFollows(c: Config, st: State, i: nat, h: Header)
    requires Shape(c, st) && i <= |st.fd| && i < c.fdMax && st.pos[st.cur] < c.slots
    ensures Follows(st, Enter(c, st, i, h))
  {
    hide Dims, AndFlags;
  }

  lemma ProgramFollows(c: Config, st: State, a: Addr, cell: Cell)
    requires a in st.flash
    ensures Follows(st, Program(c, st, a, cell))
  {
    hide AndCell;
  }

  lemma WriteCellFollows(c: Config, st: State, key: Key, data: Data)
    requires Ring(c, st) && st.pos[st.cur] < c.slots
    ensures Follows(st, WriteCell(c, st, key, data).0)
  {
    hide Dims, Find, NewCell, ClearNewer, Retire, Enter, Program, Follows;
    var i, cell := Find(st.fd, key), NewCell(c.crc, key, data);
    StepsFollow(c, st, i);
    var cleared := ClearNewer(c, st, i);
    TargetInFlash(c, cleared);
    ProgramFollows(c, cleared, Target(st), cell);
    var programmed := Program(c, cleared, Target(st), cell);
    StepsFollow(c, programmed, i);
    var retired := Retire(c, programmed, i);
    FollowsAgain(st, cleared, programmed);
    FollowsAgain(st, programmed, retired);
    if i < c.fdMax {
      EnterFollows(c, retired, i, cell.hdr);
      FollowsAgain(st, retired, Enter(c, retired, i, cell.hdr));
    }
  }

  lemma EraseFollows(c: Config, st: State)
    requires Ring(c, st)
    ensures Follows(st, EraseVictim(c, st))
  {
    hide Dims;
  }

  lemma LoopFollows(c: Config, st: State, i: nat, env: Env)
    requires Ring(c, st) && i <= |st.fd|
    ensures Follows(st, RelocLoop(c, st, i, env))
  {
    hide Dims, EraseVictim, NextIn;
    var next := NextIn(st.fd, st.reloc.sector, i);
    if next == |st.fd| {
      var st1 := st.(reloc := st.reloc.(fdIndex := next), pc := Wait622);
      assert Ring(c, st1);
      EraseFollows(c, st1);
    }
  }

  lemma {:induction false} UpdateFollows(c: Config, st: State, env: Env)
    requires Ring(c, st)
    ensures Follows(st, UpdateSector(c, st, env).0)
    decreases Rollover(c, st), 0
  {
    hide Dims, NextFree, FsThread;
    if st.pos[st.cur] >= c.slots {
      var next := NextFree(c, st.pos, st.cur, st.cur);
      if next.Some? {
        ThreadFollows(c, Activate(c, st, next.value), true, env);
      }
    }
  }

  lemma {:induction false} FsWriteFollows(c: Config, st: State, name: bv16, ext: bv8, data: seq<bv8>, env: Env)
    requires Ring(c, st)
    ensures Follows(st, FsWrite(c, st, name, ext, data, env).0)
    decreases Rollover(c, st), 1
  {
    hide Dims, UpdateSector, WriteCell, Follows;
    if |data| <= DATA_SIZE {
      UpdateFollows(c, st, env);
      var (ready, code) := UpdateSector(c, st, env);
      if code >= 0 {
        var key := Key(name, TruncateExt(ext));
        WriteCellFollows(c, ready, key, Pad(data));
        FollowsAgain(st, ready, WriteCell(c, ready, key, Pad(data)).0);
      }
    } else {
      NothingFollows(st);
    }
  }

  lemma NothingFollows(st: State)
    ensures Follows(st, st)
  {
  }

  lemma {:induction false} MoveFollows(c: Config, st: State, env: Env)
    requires Ring(c, st) && Moving(st.pc)
    ensures Follows(st, Move(c, st, env))
    decreases Rollover(c, st), 2
  {
    hide Dims, FsWrite;
    var h := st.reloc.fd.header;
    FsWriteFollows(c, st, h.name, h.ext as bv8, st.reloc.buffer.data, env);
  }

  lemma {:induction false} ThreadFollows(c: Config, st: State, flag: bool, env: Env)
    requires Ring(c, st)
    ensures Follows(st, FsThread(c, st, flag, env))
    decreases Rollover(c, st), 3
  {
    hide Dims, RelocLoop, Move, FindRelocSector, EraseVictim;
    match st.pc
    case Wait555 =>
    case Yield556 =>
      var v := FindRelocSector(c, st.fd, st.pos, st.cur);
      if v.Some? {
        LoopFollows(c, st.(reloc := st.reloc.(sector := v.value)), 0, env);
      }
    case Wait576 =>
    case Yield596 =>
      if st.fd[st.reloc.fdIndex].address == st.reloc.fd.address { MoveFollows(c, st, env); }
    case Yield610 => MoveFollows(c, st, env);
    case Yield617 => LoopFollows(c, st, st.reloc.fdIndex + 1, env);
    case Wait622 => EraseFollows(c, st);
  }

  // ---------------------------------------------------------------- the commit point

  /** Flash operation `n` of `log` put `cell` on the erased slot `target`, and changed
      nothing else. */
  ghost predicate CellWriteAt(im: Image, log: seq<Image>, n: nat, target: Addr, cell: Cell) {
    && 0 < n <= |log|
    && target in ImageAfter(im, log, n - 1) && ImageAfter(im, log, n - 1)[target] == BLANK_CELL
    && ImageAfter(im, log, n) == ImageAfter(im, log, n - 1)[target := cell]
  }

  /** The cell write of a user write once there is room. */
  lemma CellWrite(c: Config, ready: State, key: Key, data: Data)
    requires Indexed(c, ready) && Ring(c, ready) && ready.pos[ready.cur] < c.slots && Fits(c, ready, key)
    ensures var log := WriteCell(c, ready, key, data).0.log;
            var n := |ready.log| + (if NeedsClear(ready, key) then 1 else 0) + 1;
            ready.log <= log && CellWriteAt(ready.flash, log[|ready.log|..], n - |ready.log|, Target(ready),
              NewCell(c.crc, key, data))
  {
    hide Find, NewCell, Program, Retire, Enter, WriteCell, Good, Where, Reads, Distinct, Entries, Contents, Dims;
    var s1, s2, s3, s4 := AndIsOverwrite(c, ready, key, data);
    var log := s4.log[|ready.log|..];
    assert log[..|s1.log| - |ready.log| + 1] == (s1.log + [s2.flash])[|ready.log|..];
  }

  /** Operations that another run appended to the log count from its end. */
  lemma LaterWrite(st: State, ready: State, log: seq<Image>, n: nat, target: Addr, cell: Cell)
    requires Follows(st, ready) && st.log == [] && ready.log <= log
    requires CellWriteAt(ready.flash, log[|ready.log|..], n, target, cell)
    ensures CellWriteAt(st.flash, log, |ready.log| + n, target, cell)
  {
    var k := |ready.log|;
    assert log[k..][n - 1] == log[k + n - 1];
    assert n > 1 ==> log[k..][n - 2] == log[k + n - 2];
    assert k > 0 ==> ready.flash == log[k - 1];
  }

  /** Where the new cell of a user write goes: the write pointer after `updateSector`. */
  function CommitTarget(c: Config, st: State, call: Call): Addr
    requires Ring(c, st) && call.Write?
  {
    hide Dims, UpdateSector;
    Target(UpdateSector(c, st.(log := []), call.env).0)
  }

  function WrittenCell(c: Config, call: Call): Cell
    requires call.Write? && |call.data| <= DATA_SIZE
  {
    NewCell(c.crc, Key(call.name, TruncateExt(call.ext)), Pad(call.data))
  }

  /** The 32 bytes of that cell: size 1, `newer` set, version 0 and the low three bits of
      the extension; the checksum over the same bytes with `newer` and the hash cleared;
      the name, low byte first; the data, and zeros. */
  lemma WrittenBytes(c: Config, call: Call)
    requires call.Write? && |call.data| <= DATA_SIZE
    ensures var flags := 0x04 | ((call.ext & 7) << 5);
            var rest := [(call.name & 0xFF) as bv8, (call.name >> 8) as bv8] + call.data + Repeat(0, 28 - |call.data|);
            EncodeCell(WrittenCell(c, call)) == [flags | 0x10, (c.crc([flags, 0] + rest) & 0xFF) as bv8] + rest
  {
    hide TruncateExt, FlagByte, EncodeHeader, EncodeCell, WrittenCell;
    hide NewHeader;
    var flags := 0x04 | ((call.ext & 7) << 5);
    forall hash
      ensures EncodeHeader(NewHeader(call, NEWER, hash))
           == [flags | 0x10, hash, (call.name & 0xFF) as bv8, (call.name >> 8) as bv8]
    {
      NewBytes(call, NEWER, hash, flags | 0x10);
    }
    NewBytes(call, 0, 0, flags);
    Assembled(c, call, flags, flags | 0x10, (call.name & 0xFF) as bv8, (call.name >> 8) as bv8);
  }

  lemma NewBytes(call: Call, newer: bv1, hash: bv8, flags: bv8)
    requires call.Write?
    requires flags == if newer == 0 then 0x04 | ((call.ext & 7) << 5) else (0x04 | ((call.ext & 7) << 5)) | 0x10
    ensures EncodeHeader(NewHeader(call, newer, hash))
         == [flags, hash, (call.name & 0xFF) as bv8, (call.name >> 8) as bv8]
  {
    hide FlagByte, TruncateExt, EncodeHeader;
    NewFlags(NewHeader(call, newer, hash), call.ext, flags);
    HeaderBytes(NewHeader(call, newer, hash), flags);
  }

  function NewHeader(call: Call, newer: bv1, hash: bv8): Header
    requires call.Write?
  {
    Header(0, SIZE_32, newer, TruncateExt(call.ext), hash, call.name)
  }

  lemma Assembled(c: Config, call: Call, flags: bv8, newFlags: bv8, lo: bv8, hi: bv8)
    requires call.Write? && |call.data| <= DATA_SIZE && EncodeHeader(NewHeader(call, 0, 0)) == [flags, 0, lo, hi]
    requires forall hash :: EncodeHeader(NewHeader(call, NEWER, hash)) == [newFlags, hash, lo, hi]
    ensures var rest := [lo, hi] + call.data + Repeat(0, 28 - |call.data|);
            EncodeCell(WrittenCell(c, call)) == [newFlags, (c.crc([flags, 0] + rest) & 0xFF) as bv8] + rest
  {
    hide TruncateExt, EncodeHeader;
    var zeros := Repeat(0, 28 - |call.data|);
    var bare := Cell(NewHeader(call, 0, 0), Pad(call.data));
    assert bare.(hdr := bare.hdr.(hash := 0, newer := 0)) == bare;
    var hash := HashOf(c.crc, bare);
    assert WrittenCell(c, call) == Cell(NewHeader(call, NEWER, hash), call.data + zeros);
    Regroup(flags, 0, lo, hi, call.data, zeros);
    Regroup(newFlags, hash, lo, hi, call.data, zeros);
  }

  lemma HeaderBytes(h: Header, flags: bv8)
    requires FlagByte(h) == flags
    ensures EncodeHeader(h) == [flags, h.hash, (h.name & 0xFF) as bv8, (h.name >> 8) as bv8]
  {
    hide FlagByte;
  }

  lemma Regroup(x0: bv8, x1: bv8, x2: bv8, x3: bv8, data: seq<bv8>, zeros: seq<bv8>)
    ensures [x0, x1, x2, x3] + (data + zeros) == [x0, x1] + ([x2, x3] + data + zeros)
  {
  }

  lemma NewFlags(h: Header, ext: bv8, flags: bv8)
    requires h.ver == 0 && h.size == SIZE_32 && h.ext == TruncateExt(ext)
    requires flags == if h.newer == 0 then 0x04 | ((ext & 7) << 5) else (0x04 | ((ext & 7) << 5)) | 0x10
    ensures FlagByte(h) == flags
  {
  }

  /** A successful user write is `WriteCell` on the state that `updateSector` leaves. */
  lemma {:induction false} ReadyWrites(c: Config, start: State, call: Call)
    requires Inv(c, start) && Ring(c, start) && call.Write? && |call.data| <= DATA_SIZE
    requires Legal(c, Vars(c, start), call)
    requires FsWrite(c, start, call.name, call.ext, call.data, call.env).1 == 0
    ensures var key := Key(call.name, TruncateExt(call.ext));
            var (ready, code) := UpdateSector(c, start, call.env);
            && code >= 0 && Indexed(c, ready) && ready.pos[ready.cur] < c.slots && Fits(c, ready, key)
            && FsWrite(c, start, call.name, call.ext, call.data, call.env) == WriteCell(c, ready, key, Pad(call.data))
  {
    hide Indexed, Collecting, Dims, Contents, WriteCell, UpdateSector, FsWrite, Fits, Commits, CommitIndex, Pad,
      TruncateExt;
    var key := Key(call.name, TruncateExt(call.ext));
    FitsByVars(c, start, key);
    UpdateSectorKeeps(c, start, call.env);
    WriteKeeps(c, start, call.name, call.ext, call.data, call.env);
    FitsByVars(c, UpdateSector(c, start, call.env).0, key);
    Progress.WriteIsWriteCell(c, start, call.name, call.ext, call.data, call.env);
  }

  /** Line 385 is the commit point: for every user write that succeeds, flash operation
      `CommitPoint` of its log puts the new cell on the erased slot at the write pointer
      that `updateSector` left. */
  lemma {:induction false} CommitIsCellWrite(c: Config, st: State, call: Call)
    requires Ring(c, st) && call.Write? && |call.data| <= DATA_SIZE && Exec(c, st, call).1 == 0
    requires Inv(c, st) && Legal(c, Vars(c, st), call)
    ensures CellWriteAt(st.flash, Exec(c, st, call).0.log, CommitPoint(c, st, call), CommitTarget(c, st, call),
        WrittenCell(c, call))
  {
    hide Indexed, Collecting, Dims, Contents, NewCell, WriteCell, FsWrite, UpdateSector, Fits, CellWriteAt, Follows,
      Pad, TruncateExt, NeedsClear;
    FreshLog(c, st);
    var start := st.(log := []);
    var key := Key(call.name, TruncateExt(call.ext));
    ReadyWrites(c, start, call);
    var ready := UpdateSector(c, start, call.env).0;
    UpdateFollows(c, start, call.env);
    CellWrite(c, ready, key, Pad(call.data));
    var n := if NeedsClear(ready, key) then 2 else 1;
    LaterWrite(start, ready, Exec(c, st, call).0.log, n, Target(ready), NewCell(c.crc, key, Pad(call.data)));
  }
}
