/** Threads that use the CRC-32 table of misc.c while others build it. */
module CrcShared {
  import opened Bits
  import opened Crc32
  import opened Octets

  // Calls of `crc32` interleave at every access to the table, and any of them may find it unbuilt and build it, at the
  // same time as others. Accesses to one entry are atomic.

  /** Where a thread stands; each constructor but the first and last is about to make one access, in `Scan` after the
      last byte none. In `Put`, `v` is what `Fetch` has read. */
  datatype Thread =
    | Idle
    | Test(crc: U32, buf: seq<Byte>)
    | Clear(crc: U32, buf: seq<Byte>)
    | Fetch(crc: U32, buf: seq<Byte>, i: nat, h: nat, j: nat)
    | Put(crc: U32, buf: seq<Byte>, i: nat, h: nat, j: nat, v: nat)
    | Scan(crc: U32, buf: seq<Byte>, reg: nat, k: nat)
    | Done(crc: U32, buf: seq<Byte>, result: nat)

  datatype State = State(table: seq<nat>, threads: seq<Thread>)

  /** A thread makes its next step, or begins a call. */
  datatype Event = Go(thread: nat) | Call(thread: nat, crc: U32, buf: seq<Byte>)

  type Table = t: seq<nat> | |t| == 256 witness seq(256, _ => 0)

  function BeginScan(crc: U32, buf: seq<Byte>): Thread { Scan(crc, buf, Xor(crc, ALL_ONES), 0) }

  /** After a store at i + j: the next slot, the next stride, or the bytes. */
  function AfterPut(crc: U32, buf: seq<Byte>, i: nat, h: nat, j: nat): Thread {
    if j + 2 * i < 256 then Fetch(crc, buf, i, h, j + 2 * i)
    else if i / 2 != 0 then Fetch(crc, buf, i / 2, Step(h), 0)
    else BeginScan(crc, buf)
  }

  /** The table after the step of a thread. Stores outside the table do not happen. */
  function Stored(table: Table, th: Thread): Table {
    match th
    case Clear(_, _) => table[0 := 0]
    case Put(_, _, i, h, j, v) => if i + j < 256 then table[i + j := Xor(v, h)] else table
    case _ => table
  }

  /** The thread after its step. */
  function Advance(table: Table, th: Thread): Thread {
    match th
    case Idle => th
    case Done(_, _, _) => th
    case Test(crc, buf) => if table[255] == 0 then Clear(crc, buf) else BeginScan(crc, buf)
    case Clear(crc, buf) => Fetch(crc, buf, 128, Step(1), 0)
    case Fetch(crc, buf, i, h, j) => Put(crc, buf, i, h, j, if j < 256 then table[j] else 0)
    case Put(crc, buf, i, h, j, _) => AfterPut(crc, buf, i, h, j)
    case Scan(crc, buf, reg, k) =>
      if k >= |buf| then Done(crc, buf, Xor(reg, ALL_ONES))
      else Scan(crc, buf, Xor(reg / 256, table[Xor(reg, buf[k]) % 256]), k + 1)
  }

  function Next(s: State, e: Event): State
    requires |s.table| == 256
  {
    var t := e.thread;
    if t >= |s.threads| then s
    else
      match e
      case Go(_) => State(Stored(s.table, s.threads[t]), s.threads[t := Advance(s.table, s.threads[t])])
      case Call(_, crc, buf) =>
        if s.threads[t].Idle? || s.threads[t].Done? then s.(threads := s.threads[t := Test(crc, buf)]) else s
  }

  function Run(s: State, events: seq<Event>): (s': State)
    requires |s.table| == 256
    ensures |s'.table| == 256 && |s'.threads| == |s.threads|
    decreases |events|
  {
    if events == [] then s else Run(Next(s, events[0]), events[1..])
  }

  /** The table as the program starts with it, and n threads. */
  function Initial(n: nat): (s: State)
    ensures |s.table| == 256
  {
    State(seq(256, _ => 0), seq(n, _ => Idle))
  }

  // ----- the invariant -----

  ghost predicate Full(table: Table) { forall k :: 0 <= k < 256 ==> table[k] == Entry(k) }

  /** Entries are what they were at the start or final, and the last one tells whether all are there. */
  ghost predicate TableOk(table: Table) {
    (forall k :: 0 <= k < 256 ==> table[k] == 0 || table[k] == Entry(k)) && (table[255] != 0 ==> Full(table))
  }

  /** The entries that a builder has behind it when it is about to fill the slot i + j, for i = 2^e. */
  predicate Behind(k: nat, i: nat, e: nat, j: nat) { Low(k, e + 1) == 0 || (k < j && Low(k, e + 1) == i) }

  ghost predicate BuilderAt(table: Table, i: nat, h: nat, j: nat, e: nat) {
    && e < 8 && i == Pow2(e) && h == Entry(i) && j < 256 && Low(j, e + 1) == 0
    && forall k: nat :: k < 256 && Behind(k, i, e, j) ==> table[k] == Entry(k)
  }

  ghost predicate ThreadOk(table: Table, th: Thread) {
    match th
    case Idle => true
    case Test(_, _) => true
    case Clear(_, _) => true
    case Fetch(_, _, i, h, j) => exists e: nat :: BuilderAt(table, i, h, j, e)
    case Put(_, _, i, h, j, v) => j < 256 && v == Entry(j) && exists e: nat :: BuilderAt(table, i, h, j, e)
    case Scan(crc, buf, reg, k) =>
      Full(table) && k <= |buf| && reg < WORD && reg == Register(Xor(crc, ALL_ONES), buf[..k])
    case Done(crc, buf, result) => result == Crc(crc, buf)
  }

  ghost predicate Inv(s: State) {
    |s.table| == 256 && TableOk(s.table) && forall t :: 0 <= t < |s.threads| ==> ThreadOk(s.table, s.threads[t])
  }

  /** What any thread does to the table: entries stay or become final. */
  ghost predicate Grows(before: Table, after: Table) {
    forall k :: 0 <= k < 256 ==> after[k] == before[k] || after[k] == Entry(k)
  }

  // ----- one step -----

  lemma {:induction false} BuilderKept(before: Table, after: Table, i: nat, h: nat, j: nat, e: nat)
    requires Grows(before, after) && BuilderAt(before, i, h, j, e)
    ensures BuilderAt(after, i, h, j, e)
  {
    hide Entry, Low, Pow2;
  }

  lemma {:induction false} ThreadKept(before: Table, after: Table, th: Thread)
    requires Grows(before, after) && ThreadOk(before, th)
    ensures ThreadOk(after, th)
  {
    hide Entry, Low, Pow2, Register, Crc, BuilderAt;
    if th.Fetch? || th.Put? {
      var e: nat :| BuilderAt(before, th.i, th.h, th.j, e);
      BuilderKept(before, after, th.i, th.h, th.j, e);
    }
  }

  lemma {:induction false} EntryZeroIsZero()
    ensures Entry(0) == 0
  {
    EntryOfZero();
  }

  /** The slot a builder fills: in range, with its final value, and the last slot only when nothing else is missing. */
  lemma {:induction false} PutIsFinal(table: Table, i: nat, h: nat, j: nat, e: nat)
    requires BuilderAt(table, i, h, j, e)
    ensures i + j < 256 && Xor(Entry(j), h) == Entry(i + j)
    ensures i + j == 255 ==> forall k: nat :: k < 256 && k != 255 ==> table[k] == Entry(k)
  {
    hide Entry, Xor, Low, Pow2;
    PowersOfWord();
    NextSlot(j, e);
    Doubles(e);
    SlotInRange(j, e + 1, 8);
    EntryCombines(j, e);
    if i + j == 255 {
      LastSlotIsOdd(j, e);
      forall k: nat | k < 256 && k != 255 ensures table[k] == Entry(k) {
        HalfStride(k, 0);
        Doubles(0);
        assert Behind(k, i, e, j);
      }
    }
  }

  lemma {:induction false} LastSlotIsOdd(j: nat, e: nat)
    requires Low(j, e + 1) == 0 && Pow2(e) + j == 255
    ensures e == 0 && Pow2(0) == 1
  {
    assert Low(j, e + 1) == 2 * Low(j / 2, e) + j % 2;
  }

  lemma {:induction false} StoreGrows(table: Table, th: Thread)
    requires TableOk(table) && ThreadOk(table, th)
    ensures Grows(table, Stored(table, th)) && TableOk(Stored(table, th))
  {
    hide Entry, Xor, Low, Pow2, Register, Crc, BuilderAt;
    EntryZeroIsZero();
    if th.Put? {
      var e: nat :| BuilderAt(table, th.i, th.h, th.j, e);
      PutIsFinal(table, th.i, th.h, th.j, e);
    }
  }

  /** The first stride is ready once entry 0 is. */
  lemma {:induction false} FirstStride(table: Table)
    requires table[0] == 0
    ensures BuilderAt(table, 128, Step(1), 0, 7)
  {
    hide Entry, Xor, Low, Pow2, Step;
    EntryOfZero();
    EntryHalves(128);
    PowersOfWord();
    Doubles(7);
    SmallMultiple(0, 8);
    forall k: nat | k < 256 && Low(k, 8) == 0 ensures k == 0 { SmallMultiple(k, 8); }
  }

  /** After its store a builder is ready for the next slot or stride, or finds the table full. */
  lemma {:induction false} BuilderAdvances(table: Table, crc: U32, buf: seq<Byte>, i: nat, h: nat, j: nat, e: nat)
    requires BuilderAt(table, i, h, j, e) && i + j < 256 && table[i + j] == Entry(i + j)
    ensures ThreadOk(table, AfterPut(crc, buf, i, h, j))
  {
    hide Entry, Xor, Low, Pow2, Step;
    NextSlot(j, e);
    Doubles(e);
    var d := e + 1;
    forall k: nat | Low(k, d) == i ensures k < j + 2 * i <==> k < j || k == i + j { SlotBetween(j, k, e); }
    if j + 2 * i < 256 {
      assert BuilderAt(table, i, h, j + 2 * i, e);
    } else {
      forall k: nat | k < 256 && Low(k, e) == 0 ensures table[k] == Entry(k) {
        HalfStride(k, e);
        assert Behind(k, i, e, j) || k == i + j;
      }
      if e > 0 {
        Doubles(e - 1);
        PositivePower(e - 1);
        EntryHalves(i / 2);
        ZeroMultiple(e);
        assert BuilderAt(table, i / 2, Step(h), 0, e - 1) by { BehindNext(table, i / 2, e - 1); }
      } else {
        ScanBegins(table, crc, buf);
      }
    }
  }

  lemma {:induction false} ZeroMultiple(n: nat)
    ensures Low(0, n) == 0
    decreases n
  {
    if n > 0 { ZeroMultiple(n - 1); }
  }

  lemma BehindNext(table: Table, i: nat, e: nat)
    requires forall k: nat :: k < 256 && Low(k, e + 1) == 0 ==> table[k] == Entry(k)
    ensures forall k: nat :: k < 256 && Behind(k, i, e, 0) ==> table[k] == Entry(k)
  {}

  lemma {:induction false} ScanBegins(table: Table, crc: U32, buf: seq<Byte>)
    requires Full(table)
    ensures ThreadOk(table, BeginScan(crc, buf))
  {
    hide Entry, Xor, Register;
    PowersOfWord();
    XorBelow(crc, ALL_ONES, 32);
    RegisterStart(Xor(crc, ALL_ONES), buf);
  }

  lemma {:induction false} ScanAdvances(table: Table, crc: U32, buf: seq<Byte>, reg: nat, k: nat)
    requires ThreadOk(table, Scan(crc, buf, reg, k))
    ensures ThreadOk(table, Advance(table, Scan(crc, buf, reg, k)))
  {
    hide Entry, Xor, Register, Crc;
    if k < |buf| {
      TableStep(reg, buf[k]);
      RegisterSnoc(Xor(crc, ALL_ONES), buf, k);
      StepsBelow(reg, buf[k]);
    } else {
      assert buf[..k] == buf;
      CrcIsRegister(crc, buf);
    }
  }

  /** A thread's own step keeps it right. */
  lemma {:induction false} OwnStep(table: Table, th: Thread)
    requires TableOk(table) && ThreadOk(table, th)
    ensures ThreadOk(Stored(table, th), Advance(table, th))
  {
    hide Entry, Xor, Low, Pow2, Register, Crc, BuilderAt, Step;
    match th
    case Idle =>
    case Done(_, _, _) =>
    case Test(crc, buf) => if table[255] != 0 { ScanBegins(table, crc, buf); }
    case Clear(_, _) => FirstStride(Stored(table, th));
    case Fetch(_, _, i, h, j) =>
      var e: nat :| BuilderAt(table, i, h, j, e);
      FetchIsFinal(table, i, h, j, e);
    case Put(crc, buf, i, h, j, _) =>
      var e: nat :| BuilderAt(table, i, h, j, e);
      PutIsFinal(table, i, h, j, e);
      StoreGrows(table, th);
      BuilderKept(table, Stored(table, th), i, h, j, e);
      BuilderAdvances(Stored(table, th), crc, buf, i, h, j, e);
    case Scan(crc, buf, reg, k) => ScanAdvances(table, crc, buf, reg, k);
  }

  lemma FetchIsFinal(table: Table, i: nat, h: nat, j: nat, e: nat)
    requires BuilderAt(table, i, h, j, e)
    ensures j < 256 && table[j] == Entry(j)
  {
    assert Behind(j, i, e, j);
  }

  lemma {:induction false} NextKeeps(s: State, e: Event)
    requires Inv(s)
    ensures Inv(Next(s, e))
  {
    hide TableOk, ThreadOk, Grows, Stored, Advance;
    if e.Go? && e.thread < |s.threads| {
      var th := s.threads[e.thread];
      StoreGrows(s.table, th);
      OwnStep(s.table, th);
      forall t | 0 <= t < |s.threads| ensures ThreadOk(Stored(s.table, th), s.threads[t]) {
        ThreadKept(s.table, Stored(s.table, th), s.threads[t]);
      }
    } else if e.Call? {
      NewCallOk(s.table, e.crc, e.buf);
    }
  }

  lemma NewCallOk(table: Table, crc: U32, buf: seq<Byte>)
    ensures ThreadOk(table, Test(crc, buf))
  {}

  /** Every interleaving keeps the invariant. */
  lemma {:induction false} RunKeeps(s: State, events: seq<Event>)
    requires Inv(s)
    ensures Inv(Run(s, events))
    decreases |events|
  {
    hide Inv, Next;
    if events != [] {
      NextKeeps(s, events[0]);
      InvSize(s);
      RunKeeps(Next(s, events[0]), events[1..]);
    }
  }

  lemma InvSize(s: State)
    requires Inv(s)
    ensures |s.table| == 256
  {}

  /** Using and building the table at the same time is safe: in every interleaving of any number of threads, starting
      with an empty table, every call that has ended has computed the CRC of its string. */
  lemma {:induction false} SharedTableIsSafe(n: nat, events: seq<Event>, t: nat)
    requires t < n
    ensures var th := Run(Initial(n), events).threads[t]; th.Done? ==> th.result == Crc(th.crc, th.buf)
  {
    hide Run, Crc, Entry;
    RunKeeps(Initial(n), events);
  }

  // ----- nobody waits -----

  /** At least as many steps as a thread in a call has left. */
  function Left(th: Thread): nat {
    match th
    case Idle => 0
    case Done(_, _, _) => 0
    case Scan(_, buf, _, k) => if k < |buf| then |buf| - k + 1 else 1
    case Fetch(_, buf, i, _, j) => |buf| + 2 + 1024 * i + (if j < 256 then 2 * (256 - j) else 0)
    case Put(_, buf, i, _, j, _) => |buf| + 1 + 1024 * i + (if j < 256 then 2 * (256 - j) else 0)
    case Clear(_, buf) => |buf| + 1024 * 128 + 515
    case Test(_, buf) => |buf| + 1024 * 128 + 516
  }

  function OwnSteps(events: seq<Event>, t: nat): nat {
    if events == [] then 0 else (if events[0] == Go(t) then 1 else 0) + OwnSteps(events[1..], t)
  }

  lemma {:induction false} OwnStepProgresses(table: Table, th: Thread)
    requires ThreadOk(table, th) && Left(th) > 0
    ensures var th' := Advance(table, th); Left(th') < Left(th) && th'.crc == th.crc && th'.buf == th.buf
    ensures Left(Advance(table, th)) == 0 ==> Advance(table, th).Done?
  {
    hide Entry, Xor, Low, Pow2, Register, Crc, Step;
    if th.Fetch? || th.Put? {
      var e: nat :| BuilderAt(table, th.i, th.h, th.j, e);
      PositivePower(e);
    }
  }

  /** A thread in a call is not disturbed by the others. */
  lemma {:induction false} OthersLeave(s: State, e: Event, t: nat)
    requires |s.table| == 256 && t < |s.threads| && Left(s.threads[t]) > 0 && e != Go(t)
    ensures Next(s, e).threads[t] == s.threads[t]
  {
    hide Stored, Advance;
  }

  /** No thread waits for another: whatever the others do, a call ends with the right result once its thread has made a
      bounded number of steps. */
  lemma {:induction false} CallFinishes(s: State, events: seq<Event>, t: nat) returns (m: nat)
    requires Inv(s) && t < |s.threads| && Left(s.threads[t]) > 0
    requires OwnSteps(events, t) >= Left(s.threads[t])
    ensures var th := s.threads[t];
            m <= |events| && Run(s, events[..m]).threads[t] == Done(th.crc, th.buf, Crc(th.crc, th.buf))
    decreases |events|
  {
    hide Inv, ThreadOk, Next, Left, Advance, Crc;
    InvSize(s);
    var e, th := events[0], s.threads[t];
    var s' := Next(s, e);
    NextKeeps(s, e);
    NextSize(s, e);
    ThreadsOk(s, t);
    ThreadsOk(s', t);
    if e == Go(t) {
      OwnStepProgresses(s.table, th);
      OwnNext(s, t);
    } else {
      OthersLeave(s, e, t);
    }
    if Left(s'.threads[t]) == 0 {
      m := 1;
      DoneIsRight(s', t);
      assert events[..1][1..] == [];
    } else {
      m := CallFinishes(s', events[1..], t);
      m := m + 1;
      assert events[..m][1..] == events[1..][..m - 1];
    }
  }

  lemma NextSize(s: State, e: Event)
    requires |s.table| == 256
    ensures |Next(s, e).table| == 256 && |Next(s, e).threads| == |s.threads|
  {}

  lemma ThreadsOk(s: State, t: nat)
    requires Inv(s) && t < |s.threads|
    ensures |s.table| == 256 && ThreadOk(s.table, s.threads[t])
  {}

  lemma OwnNext(s: State, t: nat)
    requires |s.table| == 256 && t < |s.threads|
    ensures Next(s, Go(t)).threads[t] == Advance(s.table, s.threads[t])
  {}

  lemma DoneIsRight(s: State, t: nat)
    requires Inv(s) && t < |s.threads| && s.threads[t].Done?
    ensures s.threads[t].result == Crc(s.threads[t].crc, s.threads[t].buf)
  {}
}
