/** What a flash image means on its own, with no RAM: which cells are live, what
    map they store, and how each single flash operation changes that. */
module Images {
  import opened Block
  import opened Store

  ghost predicate ValidAt(c: Config, im: Image, a: Addr) {
    a in im && Good(c.crc, im[a])
  }

  function KeyAt(im: Image, a: Addr): Key
    requires a in im
  {
    KeyOf(im[a].hdr)
  }

  function NewerAt(im: Image, a: Addr): bv1
    requires a in im
  {
    im[a].hdr.newer
  }

  /** A reading of an image: write pointers, current sector, the live cell of every
      key, and at most one older cell that a cut write left behind. */
  datatype Reading = Reading(pos: seq<nat>, cur: nat, at: map<Key, Addr>, stale: Option<Addr>)

  /** Programmed slots are a prefix of each sector, everything above is all ones,
      and every sector but the current one is blank or full. */
  ghost predicate Layout(c: Config, im: Image, pos: seq<nat>, cur: nat) {
    && |pos| == c.sectors && cur < c.sectors
    && (forall s :: 0 <= s < c.sectors ==> pos[s] <= c.slots)
    && (forall s :: 0 <= s < c.sectors && s != cur ==> pos[s] == 0 || pos[s] == c.slots)
    && (forall a :: a in im ==> a.sector < c.sectors)
    && (forall a :: a in im && a.slot < pos[a.sector] ==> im[a].hdr != BLANK_HEADER)
    && (forall a :: a in im && a.slot >= pos[a.sector] ==> im[a] == BLANK_CELL)
  }

  /** `at` picks one valid cell per key. Any other valid cell is the single stale
      one, and the `newer` flags tell it from the live cell of its key. */
  ghost predicate LiveAt(c: Config, im: Image, at: map<Key, Addr>, stale: Option<Addr>) {
    && (forall k :: k in at ==> ValidAt(c, im, at[k]) && KeyAt(im, at[k]) == k)
    && (forall a :: ValidAt(c, im, a) ==>
          && KeyAt(im, a) in at
          && (at[KeyAt(im, a)] == a
              || (stale == Some(a) && NewerAt(im, a) == CURRENT && NewerAt(im, at[KeyAt(im, a)]) == NEWER)))
  }

  /** At most `n` keys are stored: no more than the descriptor table has room for. */
  ghost predicate AtMost(at: map<Key, Addr>, n: nat) {
    |at| <= n
  }

  ghost predicate Reads(c: Config, im: Image, w: Reading) {
    Dims(c, im) && Layout(c, im, w.pos, w.cur) && LiveAt(c, im, w.at, w.stale)
  }

  ghost function Contents(im: Image, at: map<Key, Addr>): map<Key, Data>
    requires forall k :: k in at ==> at[k] in im
  {
    map k | k in at :: im[at[k]].data
  }

  ghost predicate ReadsAs(c: Config, im: Image, w: Reading, m: map<Key, Data>) {
    Reads(c, im, w) && Contents(im, w.at) == m && AtMost(w.at, c.fdMax)
  }

  /** The image is well formed and stores the map `m`. */
  ghost predicate Holds(c: Config, im: Image, m: map<Key, Data>) {
    exists w :: ReadsAs(c, im, w, m)
  }

  /** An image stores at most one map: the valid cells and their flags decide it. */
  lemma HoldsIsUnique(c: Config, im: Image, v: Reading, w: Reading)
    requires Reads(c, im, v) && Reads(c, im, w)
    ensures v.at == w.at && v.pos == w.pos
  {
    SameLive(c, im, v.at, v.stale, w.at, w.stale);
    SamePos(c, im, v, w);
  }

  lemma SameLive(c: Config, im: Image, v: map<Key, Addr>, vs: Option<Addr>, w: map<Key, Addr>, ws: Option<Addr>)
    requires LiveAt(c, im, v, vs) && LiveAt(c, im, w, ws)
    ensures v == w
  {
    hide Good;
    forall k
      ensures k in v <==> k in w
      ensures k in v ==> w[k] == v[k]
    {
      if k in v { assert ValidAt(c, im, v[k]); }
      if k in w { assert ValidAt(c, im, w[k]); }
    }
  }

  lemma SamePos(c: Config, im: Image, v: Reading, w: Reading)
    requires Dims(c, im) && Layout(c, im, v.pos, v.cur) && Layout(c, im, w.pos, w.cur)
    ensures v.pos == w.pos
  {
    forall s | 0 <= s < c.sectors
      ensures v.pos[s] == w.pos[s]
    {
      assert v.pos[s] < c.slots ==> Addr(s, v.pos[s]) in im;
      assert w.pos[s] < c.slots ==> Addr(s, w.pos[s]) in im;
    }
  }

  /** No key ever has three valid cells, and of two one is `newer`. */
  lemma AtMostTwo(c: Config, im: Image, w: Reading, x: Addr, y: Addr, z: Addr)
    requires Reads(c, im, w)
    requires ValidAt(c, im, x) && ValidAt(c, im, y) && x != y && KeyAt(im, x) == KeyAt(im, y)
    ensures NewerAt(im, x) != NewerAt(im, y)
    ensures z != x && z != y && ValidAt(c, im, z) ==> w.at[KeyAt(im, z)] == z && KeyAt(im, z) != KeyAt(im, x)
  {
    hide Good, Layout, Dims;
  }

  // ---------------------------------------------------------------- single operations

  /** What one cell write changes, in the terms that `LiveAt` uses. */
  lemma PutEffect(c: Config, im: Image, a: Addr, cell: Cell, im': Image)
    requires a in im && im' == im[a := cell]
    ensures forall b :: ValidAt(c, im', b) <==> (if b == a then Good(c.crc, cell) else ValidAt(c, im, b))
    ensures forall b :: b in im' <==> b in im
    ensures forall b :: b in im && b != a ==> im'[b] == im[b]
  {
    hide Good;
    forall b
      ensures ValidAt(c, im', b) <==> (if b == a then Good(c.crc, cell) else ValidAt(c, im, b))
    {
      assert b in im' <==> b in im;
    }
  }

  lemma RewriteKeepsLayout(c: Config, im: Image, pos: seq<nat>, cur: nat, a: Addr, cell: Cell, im': Image)
    requires Dims(c, im) && Layout(c, im, pos, cur)
    requires a in im && im' == im[a := cell]
    requires im[a].hdr != BLANK_HEADER && cell.hdr != BLANK_HEADER
    ensures Dims(c, im') && Layout(c, im', pos, cur)
  {
    PutEffect(c, im, a, cell, im');
    hide Good;
  }

  /** `Contents` depends on the live cells only. */
  lemma SameContents(c: Config, im: Image, im': Image, at: map<Key, Addr>)
    requires forall k :: k in at ==> at[k] in im && at[k] in im' && im'[at[k]].data == im[at[k]].data
    ensures Contents(im', at) == Contents(im, at)
  {
  }

  lemma ClearNewerKeepsLive(c: Config, im: Image, at: map<Key, Addr>, a: Addr, im': Image)
    requires LiveAt(c, im, at, None) && ValidAt(c, im, a)
    requires im' == im[a := im[a].(hdr := im[a].hdr.(newer := CURRENT))]
    ensures LiveAt(c, im', at, None) && ValidAt(c, im', a)
  {
    hide Good;
    GoodSurvivesClear(c.crc, im[a]);
    PutEffect(c, im, a, im'[a], im');
  }

  lemma ClearNewerKeeps(c: Config, im: Image, w: Reading, a: Addr, im': Image)
    requires Reads(c, im, w) && AtMost(w.at, c.fdMax) && w.stale == None && ValidAt(c, im, a)
    requires im' == im[a := im[a].(hdr := im[a].hdr.(newer := CURRENT))]
    ensures ReadsAs(c, im', w, Contents(im, w.at)) && ValidAt(c, im', a)
  {
    hide Good, Layout;
    assert im[a].hdr != BLANK_HEADER && im'[a].hdr != BLANK_HEADER by {
      GoodIsProgrammed(c.crc, im[a]);
      GoodSurvivesClear(c.crc, im[a]);
    }
    RewriteKeepsLayout(c, im, w.pos, w.cur, a, im'[a], im');
    ClearNewerKeepsLive(c, im, w.at, a, im');
    SameContents(c, im, im', w.at);
  }

  lemma GoodIsProgrammed(crc: Crc, cell: Cell)
    ensures Good(crc, cell) ==> cell.hdr != BLANK_HEADER
    ensures !Good(crc, BLANK_CELL)
  {
  }

  function Programmed(w: Reading, k: Key): Reading
    requires w.cur < |w.pos|
  {
    Reading(w.pos[w.cur := w.pos[w.cur] + 1], w.cur, w.at[k := Addr(w.cur, w.pos[w.cur])],
            if k in w.at then Some(w.at[k]) else None)
  }

  lemma ProgramKeepsLayout(c: Config, im: Image, pos: seq<nat>, cur: nat, cell: Cell, im': Image)
    requires Dims(c, im) && Layout(c, im, pos, cur) && pos[cur] < c.slots && cell.hdr != BLANK_HEADER
    requires im' == im[Addr(cur, pos[cur]) := cell]
    ensures Addr(cur, pos[cur]) in im && im[Addr(cur, pos[cur])] == BLANK_CELL
    ensures Dims(c, im') && Layout(c, im', pos[cur := pos[cur] + 1], cur)
  {
    assert InRange(c, Addr(cur, pos[cur]));
    PutEffect(c, im, Addr(cur, pos[cur]), cell, im');
    hide Good;
  }

  lemma ProgramKeepsLive(c: Config, im: Image, at: map<Key, Addr>, a: Addr, cell: Cell, im': Image, at': map<Key, Addr>)
    requires LiveAt(c, im, at, None) && a in im && !ValidAt(c, im, a)
    requires Good(c.crc, cell) && cell.hdr.newer == NEWER
    requires var k := KeyOf(cell.hdr); k in at ==> NewerAt(im, at[k]) == CURRENT
    requires im' == im[a := cell] && at' == at[KeyOf(cell.hdr) := a]
    ensures LiveAt(c, im', at', if KeyOf(cell.hdr) in at then Some(at[KeyOf(cell.hdr)]) else None)
  {
    hide Good;
    PutEffect(c, im, a, cell, im');
  }

  lemma ProgramContents(im: Image, at: map<Key, Addr>, a: Addr, k: Key, cell: Cell, im': Image, at': map<Key, Addr>)
    requires forall j :: j in at ==> at[j] in im && at[j] != a
    requires a in im && im' == im[a := cell] && at' == at[k := a]
    ensures forall j :: j in at' ==> at'[j] in im'
    ensures Contents(im', at') == Contents(im, at)[k := cell.data]
  {
  }

  lemma LiveElsewhere(c: Config, im: Image, at: map<Key, Addr>, stale: Option<Addr>, a: Addr)
    requires LiveAt(c, im, at, stale) && !ValidAt(c, im, a)
    ensures forall j :: j in at ==> at[j] in im && at[j] != a
  {
    hide Good;
  }

  /** The cell write is the commit point: it turns a reading of `m` into one of
      `m[k := data]`, and leaves the previous cell of the key stale. */
  lemma ProgramCommits(c: Config, im: Image, w: Reading, cell: Cell, im': Image)
    requires Reads(c, im, w) && AtMost(w.at, c.fdMax) && w.stale == None && w.pos[w.cur] < c.slots
    requires Good(c.crc, cell) && cell.hdr.newer == NEWER
    requires KeyOf(cell.hdr) in w.at ==> NewerAt(im, w.at[KeyOf(cell.hdr)]) == CURRENT
    requires KeyOf(cell.hdr) in w.at || |w.at| < c.fdMax
    requires im' == im[Addr(w.cur, w.pos[w.cur]) := cell]
    ensures Addr(w.cur, w.pos[w.cur]) in im && im[Addr(w.cur, w.pos[w.cur])] == BLANK_CELL
    ensures ReadsAs(c, im', Programmed(w, KeyOf(cell.hdr)), Contents(im, w.at)[KeyOf(cell.hdr) := cell.data])
  {
    hide Good, LiveAt, Layout, Contents, Dims, ValidAt, AtMost;
    LayoutBounds(c, im, w);
    var k := KeyOf(cell.hdr);
    var a := Addr(w.cur, w.pos[w.cur]);
    var at' := w.at[k := a];
    GoodIsProgrammed(c.crc, cell);
    ProgramKeepsLayout(c, im, w.pos, w.cur, cell, im');
    BlankIsNotValid(c, im, a);
    ProgramKeepsLive(c, im, w.at, a, cell, im', at');
    OneMore(w.at, k, a, c.fdMax);
    LiveElsewhere(c, im, w.at, w.stale, a);
    ProgramContents(im, w.at, a, k, cell, im', at');
  }

  lemma LayoutBounds(c: Config, im: Image, w: Reading)
    requires Layout(c, im, w.pos, w.cur)
    ensures w.cur < c.sectors == |w.pos|
  {
  }

  lemma BlankIsNotValid(c: Config, im: Image, a: Addr)
    requires a in im && im[a] == BLANK_CELL
    ensures !ValidAt(c, im, a)
  {
    GoodIsProgrammed(c.crc, BLANK_CELL);
    hide Good;
  }

  lemma OneMore(at: map<Key, Addr>, k: Key, a: Addr, n: nat)
    requires AtMost(at, n) && (k in at || |at| < n)
    ensures AtMost(at[k := a], n)
  {
    assert at[k := a].Keys == at.Keys + {k};
  }

  lemma RetireKeepsLive(c: Config, im: Image, at: map<Key, Addr>, stale: Option<Addr>, a: Addr, im': Image)
    requires LiveAt(c, im, at, stale) && ValidAt(c, im, a) && at[KeyAt(im, a)] != a
    requires im' == im[a := im[a].(hdr := im[a].hdr.(size := SIZE_INVALID))]
    ensures LiveAt(c, im', at, None) && !ValidAt(c, im', a)
  {
    hide Good;
    GoodSurvivesClear(c.crc, im[a]);
    PutEffect(c, im, a, im'[a], im');
  }

  lemma RetireKeeps(c: Config, im: Image, w: Reading, a: Addr, im': Image)
    requires Reads(c, im, w) && AtMost(w.at, c.fdMax) && ValidAt(c, im, a) && w.at[KeyAt(im, a)] != a
    requires im' == im[a := im[a].(hdr := im[a].hdr.(size := SIZE_INVALID))]
    ensures ReadsAs(c, im', w.(stale := None), Contents(im, w.at)) && !ValidAt(c, im', a)
  {
    hide Good, Layout;
    assert im[a].hdr != BLANK_HEADER && im'[a].hdr != BLANK_HEADER by {
      GoodIsProgrammed(c.crc, im[a]);
      GoodSurvivesClear(c.crc, im[a]);
    }
    RewriteKeepsLayout(c, im, w.pos, w.cur, a, im'[a], im');
    RetireKeepsLive(c, im, w.at, w.stale, a, im');
    SameContents(c, im, im', w.at);
  }

  lemma EraseKeepsLayout(c: Config, st: State, pos: seq<nat>, cur: nat, v: nat)
    requires Dims(c, st.flash) && Layout(c, st.flash, pos, cur) && v < c.sectors
    ensures Dims(c, Erase(c, st, v).flash) && Layout(c, Erase(c, st, v).flash, pos[v := 0], cur)
  {
    hide Good;
  }

  lemma EraseKeepsLive(c: Config, st: State, at: map<Key, Addr>, stale: Option<Addr>, v: nat)
    requires LiveAt(c, st.flash, at, stale)
    requires forall a :: ValidAt(c, st.flash, a) ==> a.sector != v
    ensures LiveAt(c, Erase(c, st, v).flash, at, stale)
  {
    hide Good;
    var im := st.flash;
    var im' := Erase(c, st, v).flash;
    GoodIsProgrammed(c.crc, BLANK_CELL);
    forall b
      ensures ValidAt(c, im', b) <==> ValidAt(c, im, b)
      ensures ValidAt(c, im, b) ==> im'[b] == im[b]
    {
      assert b in im' <==> b in im;
    }
  }

  lemma EraseKeeps(c: Config, st: State, w: Reading, v: nat)
    requires Reads(c, st.flash, w) && AtMost(w.at, c.fdMax) && v < c.sectors
    requires forall a :: ValidAt(c, st.flash, a) ==> a.sector != v
    ensures ReadsAs(c, Erase(c, st, v).flash, w.(pos := w.pos[v := 0]), Contents(st.flash, w.at))
  {
    hide Good, Layout;
    EraseKeepsLayout(c, st, w.pos, w.cur, v);
    EraseKeepsLive(c, st, w.at, w.stale, v);
    forall k | k in w.at
      ensures w.at[k] in Erase(c, st, v).flash && Erase(c, st, v).flash[w.at[k]] == st.flash[w.at[k]]
    {
      assert ValidAt(c, st.flash, w.at[k]);
    }
    SameContents(c, st.flash, Erase(c, st, v).flash, w.at);
  }
}
