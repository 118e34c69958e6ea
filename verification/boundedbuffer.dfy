/** The bounded buffer of pt-1.4/example-buffer.c: two protothreads, two counting
    semaphores and one pointer that both of them advance. */
module BoundedBuffer {
  import opened Arithmetic

  /** The saved continuation of a protothread: before PT_BEGIN's first statement, or
      at the wait inside its loop. */
  datatype Lc = Start | AtWait

  const PT_WAITING: bv2 := 0
  const PT_EXITED: bv2 := 2
  const PT_ENDED: bv2 := 3

  function Next(ptr: nat, size: nat): nat
    requires size > 0
  {
    (ptr + 1) % size
  }

  /** `n` consecutive calls of `add_to_buffer`. */
  function AddAll(b: seq<int>, ptr: nat, item: int, n: nat): (r: seq<int>)
    requires ptr < |b|
    ensures |r| == |b|
    decreases n
  {
    if n == 0 then b else AddAll(b[ptr := item], Next(ptr, |b|), item + 1, n - 1)
  }

  /** What `n` consecutive calls of `get_from_buffer` return. */
  function GetAll(b: seq<int>, ptr: nat, n: nat): (r: seq<int>)
    requires ptr < |b|
    ensures |r| == n
    decreases n
  {
    if n == 0 then [] else [b[ptr]] + GetAll(b, Next(ptr, |b|), n - 1)
  }

  /** Where the shared pointer is after `n` steps. */
  function Advance(ptr: nat, size: nat, n: nat): (r: nat)
    requires ptr < size
    ensures r < size
    decreases n
  {
    if n == 0 then ptr else Advance(Next(ptr, size), size, n - 1)
  }

  function Range(first: int, n: nat): (r: seq<int>)
    ensures |r| == n && forall j :: 0 <= j < n ==> r[j] == first + j
  {
    seq(n, j => first + j)
  }

  lemma {:induction false} AddAllNext(b: seq<int>, ptr: nat, item: int, n: nat)
    requires ptr < |b|
    ensures AddAll(b, ptr, item, n + 1) == AddAll(b, ptr, item, n)[Advance(ptr, |b|, n) := item + n]
    decreases n
  {
    if n > 0 { AddAllNext(b[ptr := item], Next(ptr, |b|), item + 1, n - 1); }
  }

  lemma {:induction false} GetAllNext(b: seq<int>, ptr: nat, n: nat)
    requires ptr < |b|
    ensures GetAll(b, ptr, n + 1) == GetAll(b, ptr, n) + [b[Advance(ptr, |b|, n)]]
    decreases n
  {
    if n > 0 { GetAllNext(b, Next(ptr, |b|), n - 1); }
  }

  lemma {:induction false} AdvanceNext(ptr: nat, size: nat, n: nat)
    requires ptr < size
    ensures Advance(ptr, size, n + 1) == Next(Advance(ptr, size, n), size)
    decreases n
  {
    if n > 0 { AdvanceNext(Next(ptr, size), size, n - 1); }
  }

  /** Without wrapping beyond one lap, `n` steps lead to `ptr + n`, modulo the size. */
  lemma {:induction false} AdvanceIs(ptr: nat, size: nat, n: nat)
    requires ptr < size && n <= size
    ensures Advance(ptr, size, n) == if ptr + n < size then ptr + n else ptr + n - size
    decreases n
  {
    if n > 0 {
      AdvanceIs(ptr, size, n - 1);
      AdvanceNext(ptr, size, n - 1);
      NextIs(Advance(ptr, size, n - 1), size);
      hide Next;
    }
  }

  lemma NextIs(ptr: nat, size: nat)
    requires ptr < size
    ensures Next(ptr, size) == if ptr + 1 == size then 0 else ptr + 1
  {
  }

  lemma {:induction false} AddAllFromZero(b: seq<int>, item: int, n: nat)
    requires 0 < |b| && n <= |b|
    ensures AddAll(b, 0, item, n) == Range(item, n) + b[n..]
  {
    if n > 0 {
      AddAllFromZero(b, item, n - 1);
      AddAllNext(b, 0, item, n - 1);
      AdvanceIs(0, |b|, n - 1);
    } else {
      assert b[0..] == b;
    }
  }

  lemma {:induction false} GetAllAt(b: seq<int>, ptr: nat, n: nat, j: nat)
    requires ptr < |b| && j < n <= |b|
    ensures GetAll(b, ptr, n)[j] == b[if ptr + j < |b| then ptr + j else ptr + j - |b|]
    decreases n
  {
    GetAllNext(b, ptr, n - 1);
    AdvanceIs(ptr, |b|, n - 1);
    if j < n - 1 { GetAllAt(b, ptr, n - 1, j); }
  }

  class Example {
    const numItems: nat
    const size: nat
    const buffer: array<int>
    var bufptr: nat
    var item: int
    var produced: nat
    var consumed: nat
    var full: nat
    var empty: nat
    var producerLc: Lc
    var consumerLc: Lc
    /** Everything `consume_item` was given, in order. */
    var sink: seq<int>

    predicate Valid()
      reads this
    {
      && 0 < size && buffer.Length == size && bufptr < size
      && (producerLc == AtWait ==> produced < numItems)
      && (consumerLc == AtWait ==> consumed < numItems)
    }

    /** Static storage is zeroed; the driver initialises the semaphores and threads. */
    constructor (numItems: nat, size: nat)
      requires 0 < size
      ensures this.numItems == numItems && this.size == size && fresh(buffer) && Valid()
      ensures buffer[..] == seq(size, j => 0) && bufptr == 0 && item == 0 && sink == []
      ensures full == size && empty == 0 && producerLc == consumerLc == Start
    {
      this.numItems, this.size := numItems, size;
      buffer := new int[size](j => 0);
      bufptr, item, produced, consumed := 0, 0, 0, 0;
      full, empty := size, 0;
      producerLc, consumerLc := Start, Start;
      sink := [];
      new;
      assert buffer[..] == seq(size, j => 0);
    }

    method AddToBuffer(x: int)
      requires Valid()
      modifies this`bufptr, buffer
      ensures Valid() && buffer[..] == old(buffer[..])[old(bufptr) := x] && bufptr == Next(old(bufptr), size)
      ensures bufptr == if old(bufptr) + 1 == size then 0 else old(bufptr) + 1
    {
      NextIs(bufptr, size);
      buffer[bufptr] := x;
      bufptr := (bufptr + 1) % size;
    }

    method GetFromBuffer() returns (x: int)
      requires Valid()
      modifies this`bufptr
      ensures Valid() && x == buffer[old(bufptr)] && bufptr == Next(old(bufptr), size)
      ensures bufptr == if old(bufptr) + 1 == size then 0 else old(bufptr) + 1
    {
      NextIs(bufptr, size);
      x := buffer[bufptr];
      bufptr := (bufptr + 1) % size;
    }

    /** How many items a call of the producer moves: until it blocks or ends. */
    function Room(): nat
      requires Valid()
      reads this
    {
      var left := numItems - (if producerLc == Start then 0 else produced);
      if full < left then full else left
    }

    function Supply(): nat
      requires Valid()
      reads this
    {
      var left := numItems - (if consumerLc == Start then 0 else consumed);
      if empty < left then empty else left
    }

    method Producer() returns (status: bv2)
      requires Valid()
      modifies this`bufptr, this`item, this`produced, this`full, this`empty, this`producerLc, buffer
      ensures Valid()
      ensures var n := old(Room());
              && produced == (if old(producerLc) == Start then 0 else old(produced)) + n
              && full == old(full) - n && empty == old(empty) + n && item == old(item) + n
              && bufptr == Advance(old(bufptr), size, n)
              && buffer[..] == AddAll(old(buffer[..]), old(bufptr), old(item), n)
      ensures status == if produced == numItems then 3 else 0
      ensures produced < numItems ==> full == 0
      ensures producerLc == if produced == numItems then Start else AtWait
    {
      if producerLc == Start {
        produced := 0;
      }
      ghost var p0, moved: nat := produced, 0;
      ghost var b0 := buffer[..];
      while produced < numItems
        invariant produced == p0 + moved && produced <= numItems && bufptr < size
        invariant old(full) == full + moved && empty == old(empty) + moved
        invariant item == old(item) + moved && bufptr == Advance(old(bufptr), size, moved)
        invariant buffer[..] == AddAll(b0, old(bufptr), old(item), moved)
        invariant consumerLc == AtWait ==> consumed < numItems
      {
        producerLc := AtWait;
        if !(full > 0) {
          return PT_WAITING;
        }
        full := full - 1;
        AddAllNext(b0, old(bufptr), old(item), moved);
        AdvanceNext(old(bufptr), size, moved);
        AddToBuffer(item);
        item := item + 1;
        empty := empty + 1;
        produced := produced + 1;
        moved := moved + 1;
      }
      producerLc := Start;
      return PT_ENDED;
    }

    method Consumer() returns (status: bv2)
      requires Valid()
      modifies this`bufptr, this`consumed, this`full, this`empty, this`consumerLc, this`sink
      ensures Valid()
      ensures var n := old(Supply());
              && consumed == (if old(consumerLc) == Start then 0 else old(consumed)) + n
              && empty == old(empty) - n && full == old(full) + n
              && bufptr == Advance(old(bufptr), size, n)
              && sink == old(sink) + GetAll(buffer[..], old(bufptr), n)
      ensures status == if consumed == numItems then 3 else 0
      ensures consumed < numItems ==> empty == 0
      ensures consumerLc == if consumed == numItems then Start else AtWait
    {
      if consumerLc == Start {
        consumed := 0;
      }
      ghost var c0, moved: nat := consumed, 0;
      assert GetAll(buffer[..], old(bufptr), 0) == [] && Advance(old(bufptr), size, 0) == bufptr;
      hide Next, Advance, GetAll;
      while consumed < numItems
        invariant consumed == c0 + moved && consumed <= numItems && bufptr < size
        invariant old(empty) == empty + moved && full == old(full) + moved
        invariant bufptr == Advance(old(bufptr), size, moved)
        invariant sink == old(sink) + GetAll(buffer[..], old(bufptr), moved)
        invariant producerLc == AtWait ==> produced < numItems
      {
        consumerLc := AtWait;
        if !(empty > 0) {
          return PT_WAITING;
        }
        empty := empty - 1;
        GetAllNext(buffer[..], old(bufptr), moved);
        AdvanceNext(old(bufptr), size, moved);
        var x := GetFromBuffer();
        sink := sink + [x];
        full := full + 1;
        consumed := consumed + 1;
        moved := moved + 1;
      }
      consumerLc := Start;
      return PT_ENDED;
    }

    /** The state between two rounds of the driver after `moved` items, a multiple of `size`. */
    ghost predicate Balanced(moved: nat)
      reads this, buffer
    {
      && Valid() && full == size && empty == 0 && bufptr == 0 && item == moved && sink == Range(0, moved)
      && moved <= numItems
      && (if moved == 0 then producerLc == consumerLc == Start && buffer[..] == seq(size, j => 0)
          else moved >= size && moved < numItems && producerLc == consumerLc == AtWait && produced == consumed == moved
               && buffer[..] == Range(moved - size, size))
    }

    /** One call of each thread, the producer first. */
    method Turn(ghost moved: nat) returns (running: bool)
      requires Balanced(moved)
      modifies this, buffer
      ensures Valid() && full == size && empty == 0
      ensures var n := if numItems - moved < size then numItems - moved else size;
              && produced == consumed == moved + n && item == moved + n
              && bufptr == Advance(Advance(0, size, n), size, n)
              && buffer[..] == AddAll(old(buffer[..]), 0, moved, n)
              && sink == old(sink) + GetAll(buffer[..], Advance(0, size, n), n)
              && (running <==> moved + n < numItems)
              && producerLc == consumerLc == if running then AtWait else Start
    {
      hide AddAll, GetAll, Advance;
      var first := Producer();
      var second := Consumer();
      StatusAnd(first, second);
      running := first & second < PT_EXITED;
    }

    /** `PT_WAIT_THREAD(pt, producer(..) & consumer(..))`: what one round does to the data. */
    method Round(ghost moved: nat) returns (running: bool)
      requires Balanced(moved)
      modifies this, buffer
      ensures Valid() && full == size && empty == 0
      ensures running <==> moved + size < numItems
      ensures running ==> Balanced(moved + size)
      ensures !running ==> moved <= numItems <= moved + size && |sink| == numItems && sink[..moved] == Range(0, moved)
                           && producerLc == consumerLc == Start && produced == consumed == numItems
      ensures !running ==> (sink == Range(0, numItems) <==>
          numItems == moved || numItems == moved + size || numItems <= 1)
    {
      hide AddAll, GetAll, Advance;
      ghost var b0 := buffer[..];
      ghost var n := if numItems - moved < size then numItems - moved else size;
      running := Turn(moved);
      RoundData(b0, moved, n);
      SplitRange(sink, moved, n);
    }

    /** The whole program: the consumer receives the produced sequence if and only if
        the number of items is a multiple of the buffer size (or at most one), and
        the driver ends after `numItems / size` rounds, rounded up, with neither
        thread restarted. */
    method Run() returns (rounds: nat)
      requires Balanced(0) && 0 < size
      modifies this, buffer
      ensures Valid() && |sink| == numItems && full == size && empty == 0
      ensures producerLc == consumerLc == Start && produced == consumed == numItems
      ensures sink == Range(0, numItems) <==> numItems % size == 0 || numItems <= 1
      ensures if numItems == 0 then rounds == 1 else (rounds - 1) * size < numItems <= rounds * size
    {
      hide Valid;
      ghost var moved := 0;
      rounds := 0;
      var running := true;
      while running
        invariant running ==> Balanced(moved) && moved == Times(rounds, size)
        invariant !running ==> rounds > 0 && moved == Times(rounds - 1, size) && moved <= numItems <= moved + size
                               && (moved == 0 || moved < numItems)
        invariant !running ==> Valid() && |sink| == numItems && producerLc == consumerLc == Start
                               && produced == consumed == numItems && full == size && empty == 0
        invariant !running ==>
            (sink == Range(0, numItems) <==> numItems == moved || numItems == moved + size || numItems <= 1)
        decreases running, numItems - moved
      {
        running := Round(moved);
        if running {
          moved := moved + size;
        }
        rounds := rounds + 1;
      }
      RoundsDone(rounds - 1, numItems - moved, size);
    }
  }

  function Times(k: nat, n: nat): nat {
    if k == 0 then 0 else Times(k - 1, n) + n
  }

  lemma {:induction false} TimesIs(k: nat, n: nat)
    ensures Times(k, n) == k * n
  {
    if k > 0 {
      TimesIs(k - 1, n);
      StepTimes(k - 1, n);
    }
  }

  /** `q` full rounds and a last one of `r` items. */
  lemma {:induction false} RoundsDone(q: nat, r: nat, n: nat)
    requires r <= n && 0 < n
    ensures (Times(q, n) + r) % n == 0 <==> r == 0 || r == n
    ensures Times(q, n) == q * n && Times(q, n) + n == (q + 1) * n
  {
    TimesIs(q, n);
    StepTimes(q, n);
    MultipleIff(q, r, n);
  }

  lemma StepTimes(k: nat, n: nat)
    ensures (k + 1) * n == k * n + n
  {
  }

  lemma MultipleIff(q: nat, r: nat, n: nat)
    requires r <= n && 0 < n
    ensures (q * n + r) % n == 0 <==> r == 0 || r == n
  {
    if r < n {
      DivMod(q, r, n);
    } else {
      StepTimes(q, n);
      DivMod(q + 1, 0, n);
    }
  }

  lemma StatusAnd(x: bv2, y: bv2)
    requires (x == PT_WAITING || x == PT_ENDED) && (y == PT_WAITING || y == PT_ENDED)
    ensures x & y < PT_EXITED <==> x == PT_WAITING || y == PT_WAITING
  {
  }

  /** In a round of `n` items the consumer starts reading where the producer stopped:
      at slot 0 again if the round was full, and otherwise at slots it did not write. */
  lemma LastRound(b: seq<int>, moved: nat, n: nat, got: seq<int>)
    requires 0 < |b| && n <= |b| && |got| == n
    requires if moved == 0 then b == seq(|b|, j => 0) else moved >= |b| && b == Range(moved - |b|, |b|)
    requires var b1 := Range(moved, n) + b[n..];
             var start := if n == |b| then 0 else n;
             forall j :: 0 <= j < n ==> got[j] == b1[if start + j < |b| then start + j else start + j - |b|]
    ensures got == Range(moved, n) <==> n == 0 || n == |b| || (moved == 0 && n <= 1)
  {
    if 0 < n < |b| {
      assert got[0] == b[n];
      if moved == 0 && n > 1 {
        assert got[1] == 0;
      }
    }
  }

  /** The data of one round: a full round moves exactly its items and leaves the
      pointer at 0; a shorter one does so only in the accidental case. */
  lemma RoundData(b: seq<int>, moved: nat, n: nat)
    requires 0 < |b| && n <= |b|
    requires if moved == 0 then b == seq(|b|, j => 0) else moved >= |b| && b == Range(moved - |b|, |b|)
    ensures var b1 := AddAll(b, 0, moved, n);
            var got := GetAll(b1, Advance(0, |b|, n), n);
            && (n == |b| ==> b1 == Range(moved, n) && Advance(Advance(0, |b|, n), |b|, n) == 0)
            && (got == Range(moved, n) <==> n == 0 || n == |b| || (moved == 0 && n <= 1))
  {
    hide AddAll, GetAll, Advance;
    AddAllFromZero(b, moved, n);
    AdvanceIs(0, |b|, n);
    var start := Advance(0, |b|, n);
    AdvanceIs(start, |b|, n);
    var b1 := AddAll(b, 0, moved, n);
    forall j | 0 <= j < n
      ensures GetAll(b1, start, n)[j] == b1[if start + j < |b| then start + j else start + j - |b|]
    {
      GetAllAt(b1, start, n, j);
    }
    LastRound(b, moved, n, GetAll(b1, start, n));
  }

  lemma SplitRange(s: seq<int>, m: nat, n: nat)
    requires |s| == m + n && s[..m] == Range(0, m)
    ensures s == Range(0, m + n) <==> s[m..] == Range(m, n)
  {
    if s[m..] == Range(m, n) {
      assert s == s[..m] + s[m..];
    }
  }
}
