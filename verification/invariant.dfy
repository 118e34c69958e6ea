/** The invariant between RAM and flash, with one clause for each resume point of
    the collector, and how the index changes with its entries. */
module Invariant {
  import opened Block
  import opened Store
  import opened Images

  ghost function Keys(fd: seq<Fd>): set<Key> {
    set i | 0 <= i < |fd| :: KeyOf(fd[i].header)
  }

  /** The index as a map: where `fs_read` would look for each key. */
  ghost function Where(fd: seq<Fd>): map<Key, Addr> {
    map k | k in Keys(fd) :: fd[Find(fd, k)].address
  }

  ghost predicate Distinct(fd: seq<Fd>) {
    forall i :: 0 <= i < |fd| ==> Find(fd, KeyOf(fd[i].header)) == i
  }

  ghost function ReadingOf(st: State): Reading {
    Reading(st.pos, st.cur, Where(st.fd), None)
  }

  /** Each descriptor caches the header of the cell it points to. */
  ghost predicate Entries(im: Image, fd: seq<Fd>) {
    forall i :: 0 <= i < |fd| ==>
      fd[i].address in im && im[fd[i].address].hdr == fd[i].header && fd[i].sector == fd[i].address.sector
  }

  /** RAM agrees with flash: the index lists exactly the valid cells, with their headers. */
  ghost predicate Indexed(c: Config, st: State) {
    && Shape(c, st)
    && Reads(c, st.flash, ReadingOf(st))
    && Distinct(st.fd) && Entries(st.flash, st.fd)
  }

  /** The map that the store represents. */
  ghost function Vars(c: Config, st: State): map<Key, Data>
    requires Indexed(c, st)
  {
    Contents(st.flash, Where(st.fd))
  }

  ghost predicate Outside(fd: seq<Fd>, v: nat, n: nat) {
    forall i :: 0 <= i < n && i < |fd| ==> fd[i].sector != v
  }

  ghost predicate AllFull(c: Config, pos: seq<nat>) {
    forall s :: 0 <= s < |pos| ==> pos[s] == c.slots
  }

  /** From its choice on the victim has a dead slot. */
  ghost predicate SpareSlot(c: Config, st: State) {
    st.pc == Wait555 || st.pc == Yield556 || CountIn(st.fd, st.reloc.sector) < c.slots
  }

  /** The collector's own invariant, one clause per resume point. From the choice
      of a victim to its erase the victim is full and not current, has a dead slot,
      and every descriptor already passed lies outside it. */
  ghost predicate Collecting(c: Config, st: State)
    requires Shape(c, st)
  {
    SpareSlot(c, st) && AtPoint(c, st)
  }

  ghost predicate AtPoint(c: Config, st: State)
    requires Shape(c, st)
  {
    var r := st.reloc;
    match st.pc
    case Wait555 => true
    case Yield556 => true
    case Wait622 =>
      r.sector != st.cur && st.pos[r.sector] == c.slots && Outside(st.fd, r.sector, |st.fd|)
    case Yield617 =>
      r.sector != st.cur && st.pos[r.sector] == c.slots && Outside(st.fd, r.sector, r.fdIndex + 1)
    case _ =>
      && r.sector != st.cur && st.pos[r.sector] == c.slots && Outside(st.fd, r.sector, r.fdIndex)
      && r.fd.address.sector == r.sector
      && KeyOf(r.fd.header) == KeyOf(st.fd[r.fdIndex].header)
      && (st.fd[r.fdIndex].address != r.fd.address ==> st.fd[r.fdIndex].sector != r.sector)
      && (Moving(st.pc) && st.fd[r.fdIndex].address == r.fd.address ==>
            r.fd.address in st.flash && st.flash[r.fd.address].data == r.buffer.data)
      && (st.pc == Yield610 ==> st.fd[r.fdIndex].address == r.fd.address && AllFull(c, st.pos))
  }

  ghost predicate Inv(c: Config, st: State) {
    Indexed(c, st) && Collecting(c, st)
  }

  // ---------------------------------------------------------------- the index

  lemma KeysCount(fd: seq<Fd>)
    ensures |Keys(fd)| <= |fd|
    ensures Distinct(fd) ==> |Keys(fd)| == |fd|
  {
    if fd != [] {
      var n := |fd| - 1;
      var rest := fd[..n];
      var k := KeyOf(fd[n].header);
      KeysCount(rest);
      assert Keys(fd) == Keys(rest) + {k};
      if Distinct(fd) {
        forall i | 0 <= i < n
          ensures Find(rest, KeyOf(rest[i].header)) == i && KeyOf(rest[i].header) != k
        {
          assert Find(fd, KeyOf(fd[i].header)) == i;
        }
      }
    }
  }

  lemma WhereKeys(fd: seq<Fd>)
    ensures Where(fd).Keys == Keys(fd)
    ensures forall k :: k in Where(fd) <==> Find(fd, k) < |fd|
    ensures forall k :: k in Where(fd) ==> Where(fd)[k] == fd[Find(fd, k)].address
    ensures |Where(fd)| <= |fd|
    ensures Distinct(fd) ==> |Where(fd)| == |fd|
  {
    KeysCount(fd);
    assert Where(fd).Keys == Keys(fd);
  }

  /** An index that fits its table stores no more keys than the table has entries. */
  lemma TableFits(c: Config, fd: seq<Fd>)
    requires |fd| <= c.fdMax
    ensures AtMost(Where(fd), c.fdMax)
  {
    WhereKeys(fd);
  }

  lemma FindIs(fd: seq<Fd>, k: Key, r: nat)
    requires r <= |fd| && (r < |fd| ==> KeyOf(fd[r].header) == k)
    requires forall j :: 0 <= j < r ==> KeyOf(fd[j].header) != k
    ensures Find(fd, k) == r
  {
    hide Find;
  }

  lemma FindAfterSet(fd: seq<Fd>, i: nat, e: Fd, k: Key)
    requires i < |fd| && KeyOf(e.header) == KeyOf(fd[i].header)
    ensures Find(fd[i := e], k) == Find(fd, k)
  {
    hide Find;
    FindIs(fd[i := e], k, Find(fd, k));
  }

  lemma WhereIs(fd: seq<Fd>, m: map<Key, Addr>)
    requires forall k :: k in m <==> Find(fd, k) < |fd|
    requires forall k :: k in m ==> m[k] == fd[Find(fd, k)].address
    ensures Where(fd) == m
  {
    hide Find;
    WhereKeys(fd);
    hide Keys;
  }

  lemma SetEntry(fd: seq<Fd>, i: nat, e: Fd, fd': seq<Fd>)
    requires i < |fd| && Distinct(fd) && KeyOf(e.header) == KeyOf(fd[i].header)
    requires fd' == fd[i := e]
    ensures Distinct(fd')
    ensures forall k :: Find(fd', k) == Find(fd, k)
    ensures Where(fd') == Where(fd)[KeyOf(e.header) := e.address]
  {
    hide Find, Keys;
    forall k
      ensures Find(fd', k) == Find(fd, k)
    {
      FindAfterSet(fd, i, e, k);
    }
    WhereKeys(fd);
    assert Find(fd, KeyOf(e.header)) == i;
    hide Where;
    WhereIs(fd', Where(fd)[KeyOf(e.header) := e.address]);
  }

  lemma FindAfterAdd(fd: seq<Fd>, e: Fd, k: Key)
    ensures Find(fd + [e], k) == if Find(fd, k) == |fd| && KeyOf(e.header) != k then |fd| + 1 else Find(fd, k)
  {
    hide Find;
    FindIs(fd + [e], k, if Find(fd, k) == |fd| && KeyOf(e.header) != k then |fd| + 1 else Find(fd, k));
  }

  lemma AddEntryFinds(fd: seq<Fd>, e: Fd, fd': seq<Fd>)
    requires Distinct(fd) && Find(fd, KeyOf(e.header)) == |fd|
    requires fd' == fd + [e]
    ensures Distinct(fd')
    ensures forall k ::
        Find(fd', k) == if k == KeyOf(e.header) then |fd| else if Find(fd, k) == |fd| then |fd| + 1 else Find(fd, k)
  {
    hide Find;
    forall k
      ensures Find(fd', k) ==
          if k == KeyOf(e.header) then |fd| else if Find(fd, k) == |fd| then |fd| + 1 else Find(fd, k)
    {
      FindAfterAdd(fd, e, k);
    }
  }

  lemma AddEntry(fd: seq<Fd>, e: Fd, fd': seq<Fd>)
    requires Distinct(fd) && Find(fd, KeyOf(e.header)) == |fd|
    requires fd' == fd + [e]
    ensures Distinct(fd')
    ensures forall k ::
        Find(fd', k) == if k == KeyOf(e.header) then |fd| else if Find(fd, k) == |fd| then |fd| + 1 else Find(fd, k)
    ensures Where(fd') == Where(fd)[KeyOf(e.header) := e.address]
  {
    hide Find, Keys, Where;
    AddEntryFinds(fd, e, fd');
    hide Distinct;
    WhereKeys(fd);
    WhereIs(fd', Where(fd)[KeyOf(e.header) := e.address]);
  }

  // ---------------------------------------------------------------- counting descriptors

  lemma {:induction false} CountSet(fd: seq<Fd>, fd': seq<Fd>, v: nat, i: nat)
    requires |fd| == |fd'| && i < |fd|
    requires forall j :: 0 <= j < |fd| && j != i ==> fd'[j].sector == fd[j].sector
    ensures CountIn(fd', v) + (if fd[i].sector == v then 1 else 0)
         == CountIn(fd, v) + if fd'[i].sector == v then 1 else 0
  {
    var n := |fd| - 1;
    if i < n {
      CountSet(fd[..n], fd'[..n], v, i);
    } else {
      CountSame(fd[..n], fd'[..n], v);
    }
  }

  lemma {:induction false} CountSame(fd: seq<Fd>, fd': seq<Fd>, v: nat)
    requires |fd| == |fd'| && forall j :: 0 <= j < |fd| ==> fd'[j].sector == fd[j].sector
    ensures CountIn(fd', v) == CountIn(fd, v)
  {
    if fd != [] {
      var n := |fd| - 1;
      CountSame(fd[..n], fd'[..n], v);
    }
  }

  lemma {:induction false} CountOutside(fd: seq<Fd>, v: nat)
    requires Outside(fd, v, |fd|)
    ensures CountIn(fd, v) == 0
  {
    if fd != [] { CountOutside(fd[..|fd| - 1], v); }
  }

  lemma {:induction false} CountInside(fd: seq<Fd>, v: nat, i: nat)
    requires i < |fd| && fd[i].sector == v
    ensures CountIn(fd, v) > 0
  {
    if i < |fd| - 1 { CountInside(fd[..|fd| - 1], v, i); }
  }
}
