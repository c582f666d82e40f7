/** The log ring shared by the M0 core, which writes, and Linux, which reads. Both sides run at
    the same time; a step of this machine is one access to shared memory. A copy takes its bytes in any order, and
    any of them more than once, as memory copies may. */
module LogRing {
  import opened RowArithmetic

  type Byte = bv8
  type Bytes = seq<Byte>

  /** `_write` between two calls, or between its look at `tail` and its store to `head`. */
  datatype Producer = AtRest | Writing(data: Bytes, done: set<nat>)

  /** `mculog_read` between two calls, or between its look at `head` and its store to `tail`. */
  datatype Consumer = Waiting | Reading(len: nat, out: map<nat, Byte>)

  datatype State = State(
    buf: Bytes, head: nat, tail: nat,
    writer: Producer, reader: Consumer,
    accepted: Bytes,   // all bytes `_write` has reported as written
    delivered: Bytes   // all bytes `mculog_read` has reported as read
  )

  datatype Step =
    | WriteBegin(ptr: Bytes)
    | WriteByte(i: nat)
    | WriteEnd
    | ReadBegin(count: nat)
    | ReadByte(i: nat)
    | ReadEnd
    | ReadFault

  /** The slot i places after `from`: memory ends once, then starts over. */
  function Slot(size: nat, from: nat, i: nat): int { if from + i < size then from + i else from + i - size }

  /** Free bytes as the writer computes them from a look at `tail`. */
  function Free(size: nat, head: nat, tail: nat): int {
    if tail > head then tail - head - 1 else size - head + tail - 1
  }

  /** Unread bytes as the reader computes them from a look at `head`. */
  function Available(size: nat, head: nat, tail: nat): int {
    if head >= tail then head - tail else size - tail + head
  }

  function Min(a: int, b: int): int { if a < b then a else b }

  predicate InRange(s: State) { s.head < |s.buf| && s.tail < |s.buf| }

  predicate Copied(w: Producer) { w.Writing? && forall i :: 0 <= i < |w.data| ==> i in w.done }

  predicate Fetched(r: Consumer) { r.Reading? && forall i :: 0 <= i < r.len ==> i in r.out }

  function Output(r: Consumer): (out: Bytes)
    requires Fetched(r)
    ensures |out| == r.len
  {
    seq(r.len, i requires 0 <= i < r.len => r.out[i])
  }

  /** What one step does; a step its side is not ready for does nothing. */
  function Do(s: State, step: Step): (s': State)
    requires InRange(s)
    ensures InRange(s') && |s'.buf| == |s.buf|
  {
    match step
    case WriteBegin(ptr) =>
      if s.writer.AtRest? then
        s.(writer := Writing(ptr[..Min(|ptr|, Free(|s.buf|, s.head, s.tail))], {}))
      else s
    case WriteByte(i) =>
      if s.writer.Writing? && i < |s.writer.data| && 0 <= Slot(|s.buf|, s.head, i) < |s.buf| then
        s.(buf := s.buf[Slot(|s.buf|, s.head, i) := s.writer.data[i]],
           writer := s.writer.(done := s.writer.done + {i}))
      else s
    case WriteEnd =>
      if Copied(s.writer) then
        s.(head := (s.head + |s.writer.data|) % |s.buf|, accepted := s.accepted + s.writer.data, writer := AtRest)
      else s
    case ReadBegin(count) =>
      if s.reader.Waiting? && Available(|s.buf|, s.head, s.tail) > 0 then
        s.(reader := Reading(Min(count, Available(|s.buf|, s.head, s.tail)), map[]))
      else s
    case ReadByte(i) =>
      if s.reader.Reading? && i < s.reader.len && 0 <= Slot(|s.buf|, s.tail, i) < |s.buf| then
        s.(reader := s.reader.(out := s.reader.out[i := s.buf[Slot(|s.buf|, s.tail, i)]]))
      else s
    case ReadEnd =>
      if Fetched(s.reader) then
        s.(tail := (s.tail + s.reader.len) % |s.buf|, delivered := s.delivered + Output(s.reader), reader := Waiting)
      else s
    case ReadFault =>
      if s.reader.Reading? then s.(reader := Waiting) else s
  }

  /** `mculog_probe`: both indices start at 0, whatever the memory holds. */
  function Initial(memory: Bytes): State {
    State(memory, 0, 0, AtRest, Waiting, [], [])
  }

  // --- The invariant ----------------------------------------------------------------------

  ghost predicate Inv(s: State) {
    && InRange(s)
    && s.delivered <= s.accepted
    && |s.accepted| - |s.delivered| == Available(|s.buf|, s.head, s.tail)
    && Unread(s, s.accepted[|s.delivered|..])
    && WriterInv(s)
    && ReaderInv(s)
  }

  /** The bytes from `tail` up to `head` are exactly those accepted and not delivered. */
  ghost predicate Unread(s: State, pending: Bytes) requires InRange(s) {
    forall i :: 0 <= i < |pending| && i < |s.buf| ==> s.buf[Slot(|s.buf|, s.tail, i)] == pending[i]
  }

  /** The writer stays inside the space that is free now and has copied what it says. */
  ghost predicate WriterInv(s: State) requires InRange(s) {
    s.writer.Writing? ==>
      && |s.writer.data| <= Free(|s.buf|, s.head, s.tail)
      && forall i :: i in s.writer.done ==>
           i < |s.writer.data| && s.buf[Slot(|s.buf|, s.head, i)] == s.writer.data[i]
  }

  /** What the reader has copied are accepted bytes, each in its place after those delivered. */
  ghost predicate ReaderInv(s: State) requires InRange(s) && s.delivered <= s.accepted {
    s.reader.Reading? ==>
      && s.reader.len <= |s.accepted| - |s.delivered|
      && forall i :: i in s.reader.out ==> i < s.reader.len && s.reader.out[i] == s.accepted[|s.delivered| + i]
  }

  lemma InitialInv(memory: Bytes)
    requires 0 < |memory|
    ensures Inv(Initial(memory))
  {
  }

  lemma WriteBeginKeeps(s: State, ptr: Bytes)
    requires Inv(s)
    ensures Inv(Do(s, WriteBegin(ptr)))
  {
  }

  lemma WriteByteKeeps(s: State, i: nat)
    requires Inv(s)
    ensures Inv(Do(s, WriteByte(i)))
  {
  }

  /** Advancing an index by the remainder is stepping that many slots. */
  lemma Advance(size: nat, from: nat, n: nat)
    requires from < size && n < size
    ensures (from + n) % size == Slot(size, from, n)
    ensures 0 <= Slot(size, from, n) < size
  {
    if from + n >= size {
      DivRow(1, size, from + n - size);
    }
  }

  /** Counting on from the writer's index is counting further from the reader's. */
  lemma SlotShift(size: nat, head: nat, tail: nat, j: nat)
    requires head < size && tail < size && Available(size, head, tail) + j < size
    ensures Slot(size, tail, Available(size, head, tail) + j) == Slot(size, head, j)
  {
  }

  lemma Counts(size: nat, head: nat, tail: nat)
    requires head < size && tail < size
    ensures 0 <= Free(size, head, tail) && 0 <= Available(size, head, tail)
    ensures Available(size, head, tail) + Free(size, head, tail) == size - 1
  {
  }

  /** Publishing n bytes moves them from free to available. */
  lemma PublishCounts(size: nat, head: nat, tail: nat, n: nat)
    requires head < size && tail < size && n <= Free(size, head, tail)
    ensures n < size
    ensures Available(size, Slot(size, head, n), tail) == Available(size, head, tail) + n
    ensures Free(size, Slot(size, head, n), tail) == Free(size, head, tail) - n
  {
  }

  /** Consuming n bytes moves them from available to free. */
  lemma ConsumeCounts(size: nat, head: nat, tail: nat, n: nat)
    requires head < size && tail < size && n <= Available(size, head, tail)
    ensures n < size
    ensures Available(size, head, Slot(size, tail, n)) == Available(size, head, tail) - n
    ensures Free(size, head, Slot(size, tail, n)) == Free(size, head, tail) + n
  {
  }

  /** Copied bytes behind the unread ones make one unread stretch. */
  lemma Published(buf: Bytes, head: nat, tail: nat, pending: Bytes, data: Bytes)
    requires head < |buf| && tail < |buf|
    requires |pending| == Available(|buf|, head, tail) && |data| <= Free(|buf|, head, tail)
    requires forall i :: 0 <= i < |pending| && i < |buf| ==> buf[Slot(|buf|, tail, i)] == pending[i]
    requires forall i :: 0 <= i < |data| ==> buf[Slot(|buf|, head, i)] == data[i]
    ensures forall i :: 0 <= i < |pending + data| && i < |buf| ==> buf[Slot(|buf|, tail, i)] == (pending + data)[i]
  {
    hide Available, Free;
    Counts(|buf|, head, tail);
    forall i | 0 <= i < |pending + data| && i < |buf|
      ensures 0 <= Slot(|buf|, tail, i) < |buf| && buf[Slot(|buf|, tail, i)] == (pending + data)[i]
    {
      if i >= |pending| {
        SlotShift(|buf|, head, tail, i - |pending|);
      }
    }
  }

  /** Past the bytes read the others are still unread. */
  lemma Consumed(buf: Bytes, tail: nat, pending: Bytes, n: nat)
    requires tail < |buf| && n <= |pending| < |buf|
    requires forall i :: 0 <= i < |pending| && i < |buf| ==> buf[Slot(|buf|, tail, i)] == pending[i]
    ensures 0 <= Slot(|buf|, tail, n) < |buf|
    ensures forall i :: 0 <= i < |pending| - n ==> buf[Slot(|buf|, Slot(|buf|, tail, n), i)] == pending[n..][i]
  {
    forall i | 0 <= i < |pending| - n
      ensures 0 <= Slot(|buf|, Slot(|buf|, tail, n), i) < |buf|
      ensures buf[Slot(|buf|, Slot(|buf|, tail, n), i)] == pending[n..][i]
    {
      SlotAfter(|buf|, tail, n, i);
    }
  }

  lemma WriteEndKeeps(s: State)
    requires Inv(s)
    ensures Inv(Do(s, WriteEnd))
  {
    hide Available, Free, Slot;
    if Copied(s.writer) {
      var size, data := |s.buf|, s.writer.data;
      var s' := Do(s, WriteEnd);
      PublishCounts(size, s.head, s.tail, |data|);
      Advance(size, s.head, |data|);
      var pending := s.accepted[|s.delivered|..];
      var pending' := s'.accepted[|s'.delivered|..];
      assert pending' == pending + data;
      Published(s.buf, s.head, s.tail, pending, data);
    }
  }

  lemma ReadKeeps(s: State, step: Step)
    requires Inv(s) && (step.ReadBegin? || step.ReadByte? || step.ReadFault?)
    ensures Inv(Do(s, step))
  {
  }

  lemma SlotAfter(size: nat, from: nat, n: nat, i: nat)
    requires from < size && n + i < size
    ensures 0 <= Slot(size, from, n) && Slot(size, Slot(size, from, n), i) == Slot(size, from, n + i)
  {
  }

  /** What a completed copy has fetched are the next bytes, in order. */
  lemma OutputIsNext(s: State)
    requires Inv(s) && Fetched(s.reader)
    ensures |s.delivered| + s.reader.len <= |s.accepted|
    ensures Output(s.reader) == s.accepted[|s.delivered|..][..s.reader.len]
    ensures s.delivered + Output(s.reader) == s.accepted[..|s.delivered| + s.reader.len]
  {
    assert Output(s.reader) == s.accepted[|s.delivered|..][..s.reader.len];
  }

  lemma ReadEndKeeps(s: State)
    requires Inv(s)
    ensures Inv(Do(s, ReadEnd))
  {
    hide Available, Free, Output, Slot;
    if Fetched(s.reader) {
      OutputIsNext(s);
      var size, n := |s.buf|, s.reader.len;
      var s' := Do(s, ReadEnd);
      ConsumeCounts(size, s.head, s.tail, n);
      Counts(size, s.head, s.tail);
      Advance(size, s.tail, n);
      var pending := s.accepted[|s.delivered|..];
      var pending' := s'.accepted[|s'.delivered|..];
      assert pending' == pending[n..];
      Consumed(s.buf, s.tail, pending, n);
    }
  }

  // --- Every interleaving ---------------------------------------------------------------------

  lemma StepKeeps(s: State, step: Step)
    requires Inv(s)
    ensures Inv(Do(s, step))
  {
    match step
    case WriteBegin(ptr) => WriteBeginKeeps(s, ptr);
    case WriteByte(i) => WriteByteKeeps(s, i);
    case WriteEnd => WriteEndKeeps(s);
    case ReadEnd => ReadEndKeeps(s);
    case _ => ReadKeeps(s, step);
  }

  /** The state after any sequence of steps of either side. */
  function Run(memory: Bytes, steps: seq<Step>): (s: State)
    requires 0 < |memory|
    ensures InRange(s) && |s.buf| == |memory|
  {
    if steps == [] then Initial(memory)
    else Do(Run(memory, steps[..|steps| - 1]), steps[|steps| - 1])
  }

  lemma {:induction false} RunKeeps(memory: Bytes, steps: seq<Step>)
    requires 0 < |memory|
    ensures Inv(Run(memory, steps))
  {
    hide Inv, Do;
    if steps == [] {
      InitialInv(memory);
    } else {
      RunKeeps(memory, steps[..|steps| - 1]);
      StepKeeps(Run(memory, steps[..|steps| - 1]), steps[|steps| - 1]);
    }
  }

  /** In every interleaving: the reader gets a prefix of what was accepted, byte for byte; the
      ring never holds more than max_size - 1 bytes; it looks empty exactly when everything
      accepted has been delivered. */
  lemma DeliversPrefix(memory: Bytes, steps: seq<Step>)
    requires 0 < |memory|
    ensures var s := Run(memory, steps);
            && s.delivered <= s.accepted
            && |s.accepted| - |s.delivered| <= |memory| - 1
            && (s.head == s.tail <==> s.delivered == s.accepted)
  {
    hide Run;
    var s := Run(memory, steps);
    RunKeeps(memory, steps);
    Counts(|s.buf|, s.head, s.tail);
    if |s.delivered| == |s.accepted| {
      assert s.delivered == s.accepted;
    }
  }

  /** No step of any run overwrites a byte that was accepted and is not yet delivered, even in
      the middle of a copy. */
  lemma NeverOverwrites(memory: Bytes, steps: seq<Step>, step: Step, i: nat)
    requires 0 < |memory|
    requires i < |Run(memory, steps).accepted| - |Run(memory, steps).delivered|
    ensures var s := Run(memory, steps);
            var at := Slot(|s.buf|, s.tail, i);
            && |s.delivered| + i < |s.accepted|
            && 0 <= at < |s.buf|
            && s.buf[at] == s.accepted[|s.delivered| + i]
            && Do(s, step).buf[at] == s.buf[at]
  {
    hide Run;
    RunKeeps(memory, steps);
  }

  /** A read that completes hands over exactly the next bytes, as many as its look at `head`
      found there and the caller asked for. */
  lemma ReadReturnsNext(memory: Bytes, steps: seq<Step>)
    requires 0 < |memory|
    requires Fetched(Run(memory, steps).reader)
    ensures var s := Run(memory, steps);
            && |s.delivered| + s.reader.len <= |s.accepted|
            && Do(s, ReadEnd).delivered == s.accepted[..|s.delivered| + s.reader.len]
  {
    hide Run, Inv;
    RunKeeps(memory, steps);
    OutputIsNext(Run(memory, steps));
  }

  /** A write is refused no space that is there at its start, and what it reports as written
      is a prefix of what the caller passed. */
  lemma WriteTakesWhatFits(memory: Bytes, steps: seq<Step>, ptr: Bytes)
    requires 0 < |memory| && Run(memory, steps).writer.AtRest?
    ensures var s := Run(memory, steps);
            var room := |memory| - 1 - (|s.accepted| - |s.delivered|);
            0 <= room && Do(s, WriteBegin(ptr)).writer == Writing(ptr[..Min(|ptr|, room)], {})
  {
    hide Available, Free, Run;
    var s := Run(memory, steps);
    RunKeeps(memory, steps);
    Counts(|s.buf|, s.head, s.tail);
  }

  // --- The two functions, each running alone ----------------------------------------------------

  /** The unread bytes, oldest first, read off the shared memory. */
  function Contents(buf: Bytes, head: nat, tail: nat): (c: Bytes)
    requires head < |buf| && tail < |buf|
    ensures |c| == Available(|buf|, head, tail)
  {
    seq(Available(|buf|, head, tail), i requires 0 <= i < Available(|buf|, head, tail) =>
      buf[Slot(|buf|, tail, i)])
  }

  /** In every interleaving these are the bytes accepted and not yet delivered. */
  lemma ContentsArePending(memory: Bytes, steps: seq<Step>)
    requires 0 < |memory|
    ensures var s := Run(memory, steps);
            |s.delivered| <= |s.accepted| && Contents(s.buf, s.head, s.tail) == s.accepted[|s.delivered|..]
  {
    hide Run;
    RunKeeps(memory, steps);
  }

  /** Memory with `data` put into the slots from `head` on, around the end. */
  function StoreAt(buf: Bytes, head: nat, data: Bytes): (r: Bytes)
    requires head < |buf| && |data| <= |buf|
    ensures |r| == |buf|
  {
    seq(|buf|, j requires 0 <= j < |buf| =>
      if head <= j < head + |data| then data[j - head]
      else if j + |buf| < head + |data| then data[j + |buf| - head]
      else buf[j])
  }

  lemma StoreOneMore(buf: Bytes, head: nat, data: Bytes, n: nat)
    requires head < |buf| && n < |data| <= |buf|
    ensures 0 <= Slot(|buf|, head, n) < |buf|
    ensures StoreAt(buf, head, data[..n])[Slot(|buf|, head, n) := data[n]] == StoreAt(buf, head, data[..n + 1])
  {
  }

  lemma StoreAtStores(buf: Bytes, head: nat, tail: nat, data: Bytes)
    requires head < |buf| && tail < |buf| && |data| <= Free(|buf|, head, tail)
    ensures |data| <= |buf| && Stored(buf, StoreAt(buf, head, data), head, tail, data)
  {
    var r := StoreAt(buf, head, data);
    forall i | 0 <= i < |data| ensures 0 <= Slot(|buf|, head, i) < |buf| && r[Slot(|buf|, head, i)] == data[i] {
    }
    forall i | 0 <= i < Available(|buf|, head, tail)
      ensures 0 <= Slot(|buf|, tail, i) < |buf| && r[Slot(|buf|, tail, i)] == buf[Slot(|buf|, tail, i)]
    {
    }
  }

  /** The bytes `data` stored from `head` on, around the end. */
  predicate Stored(old': Bytes, new': Bytes, head: nat, tail: nat, data: Bytes)
    requires head < |old'| && tail < |old'|
  {
    && |new'| == |old'| && |data| <= Free(|old'|, head, tail)
    && (forall i :: 0 <= i < |data| ==> new'[Slot(|old'|, head, i)] == data[i])
    && (forall i :: 0 <= i < Available(|old'|, head, tail) ==>
          new'[Slot(|old'|, tail, i)] == old'[Slot(|old'|, tail, i)])
  }

  lemma StoredAppends(old': Bytes, new': Bytes, head: nat, tail: nat, data: Bytes)
    requires head < |old'| && tail < |old'| && Stored(old', new', head, tail, data)
    ensures var head' := (head + |data|) % |old'|;
            head' < |old'| && Contents(new', head', tail) == Contents(old', head, tail) + data
  {
    hide Available, Free;
    var size := |old'|;
    Counts(size, head, tail);
    PublishCounts(size, head, tail, |data|);
    Advance(size, head, |data|);
    var got := Contents(new', Slot(size, head, |data|), tail);
    var want := Contents(old', head, tail) + data;
    forall i | 0 <= i < |want| ensures got[i] == want[i] {
      if i >= Available(size, head, tail) {
        SlotShift(size, head, tail, i - Available(size, head, tail));
      }
    }
  }

  lemma TakenDrops(buf: Bytes, head: nat, tail: nat, n: nat)
    requires head < |buf| && tail < |buf| && n <= Available(|buf|, head, tail)
    ensures var tail' := (tail + n) % |buf|;
            tail' < |buf| && Contents(buf, head, tail') == Contents(buf, head, tail)[n..]
  {
    hide Available, Free;
    var size := |buf|;
    Counts(size, head, tail);
    ConsumeCounts(size, head, tail, n);
    Advance(size, tail, n);
    var got := Contents(buf, head, Slot(size, tail, n));
    var want := Contents(buf, head, tail)[n..];
    forall i | 0 <= i < |want| ensures got[i] == want[i] {
      SlotAfter(size, tail, n, i);
    }
  }

  lemma AvailableIs(size: nat, head: nat, tail: nat)
    ensures Available(size, head, tail) == if head >= tail then head - tail else size - tail + head
  {
  }

  lemma SmallRemainder(i: nat, n: nat)
    requires i < n
    ensures (i + 0) % n == i
  {
  }

  /** The two copies of a read: up to the end of memory, then from its start. */
  lemma ReadOff(buf: Bytes, head: nat, tail: nat, len: nat)
    requires head < |buf| && tail < |buf| && len <= Available(|buf|, head, tail)
    ensures len - (|buf| - tail) <= |buf|
    ensures Contents(buf, head, tail)[..len] ==
            if len > |buf| - tail then buf[tail..] + buf[..len - (|buf| - tail)] else buf[tail..tail + len]
  {
  }

  class LogBuffer {
    const buf: array<Byte>
    var head: nat
    var tail: nat

    constructor (size: nat)
      requires 0 < size
      ensures Valid() && Unread() == [] && buf.Length == size
    {
      buf := new Byte[size](_ => 0);
      head, tail := 0, 0;
    }

    ghost predicate Valid() reads this, buf { head < buf.Length && tail < buf.Length }

    ghost function Unread(): Bytes requires Valid() reads this, buf {
      Contents(buf[..], head, tail)
    }

    /** The two copies of `_write`: up to the end of memory, then from its start. */
    method CopyIn(data: Bytes)
      requires Valid() && |data| <= Free(buf.Length, head, tail)
      modifies buf
      ensures |data| <= buf.Length && buf[..] == StoreAt(old(buf[..]), head, data)
    {
      Counts(buf.Length, head, tail);
      var n, toEnd := |data|, buf.Length - head;
      if n > toEnd {
        forall i | 0 <= i < toEnd { buf[head + i] := data[i]; }
        forall i | 0 <= i < n - toEnd { buf[i] := data[toEnd + i]; }
      } else {
        forall i | 0 <= i < n { buf[head + i] := data[i]; }
      }
    }

    /** `_write`: takes what fits and says how much that was. */
    method Write(fd: int, ptr: Bytes) returns (n: int)
      requires Valid()
      modifies this`head, buf
      ensures Valid()
      ensures fd > 2 ==> n == -1 && Unread() == old(Unread())
      ensures fd <= 2 ==> n == Min(|ptr|, buf.Length - 1 - |old(Unread())|)
                          && 0 <= n && Unread() == old(Unread()) + ptr[..n]
      ensures fd <= 2 ==> n <= buf.Length && head == (old(head) + n) % buf.Length
                          && buf[..] == StoreAt(old(buf[..]), old(head), ptr[..n])
    {
      hide Contents, Stored, StoreAt;
      if fd > 2 {
        return -1;
      }
      ghost var b := buf[..];
      Counts(buf.Length, head, tail);
      var free := if tail > head then tail - head - 1 else buf.Length - head + tail - 1;
      n := if |ptr| < free then |ptr| else free;
      CopyIn(ptr[..n]);
      StoreAtStores(b, head, tail, ptr[..n]);
      StoredAppends(b, buf[..], head, tail, ptr[..n]);
      ghost var b' := buf[..];
      head := (head + n) % buf.Length;
      assert buf[..] == b';
    }

    /** `mculog_read`: hands over the oldest bytes and forgets them, unless copying them to
        user space faults. */
    method Read(count: nat, faults: bool) returns (out: Bytes, fault: bool)
      requires Valid()
      modifies this`tail
      ensures Valid()
      ensures fault == (faults && Min(count, |old(Unread())|) > 0)
      ensures fault ==> out == [] && Unread() == old(Unread())
      ensures !fault ==> var len := Min(count, |old(Unread())|);
                         out == old(Unread())[..len] && Unread() == old(Unread())[len..]
      ensures tail == (old(tail) + |out|) % buf.Length
    {
      hide Contents, Available, Slot;
      ghost var c := Unread();
      Counts(buf.Length, head, tail);
      var avail := if head >= tail then head - tail else buf.Length - tail + head;
      SmallRemainder(tail, buf.Length);
      assert avail == Available(buf.Length, head, tail) by { AvailableIs(buf.Length, head, tail); }
      if avail == 0 {
        return [], false;
      }
      var len := if count < avail then count else avail;
      var toEnd := buf.Length - tail;
      ReadOff(buf[..], head, tail, len);
      if faults && len > 0 {
        return [], true;
      }
      if len > toEnd {
        out := buf[tail..] + buf[..len - toEnd];
      } else {
        out := buf[tail..tail + len];
      }
      assert out == c[..len];
      TakenDrops(buf[..], head, tail, len);
      tail := (tail + len) % buf.Length;
      fault := false;
    }
  }
}
