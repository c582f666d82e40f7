/** Whole calls of the log ring's two functions: what a read or write delivers although the other side goes on in
    between, and that each, running alone, is the function as written. */
module LogTransfers {
  import opened LogRing

  /** The state after more steps of either side. */
  function From(s: State, steps: seq<Step>): (s': State)
    requires InRange(s)
    ensures InRange(s') && |s'.buf| == |s.buf|
  {
    if steps == [] then s else Do(From(s, steps[..|steps| - 1]), steps[|steps| - 1])
  }

  lemma FromSnoc(s: State, steps: seq<Step>, step: Step)
    requires InRange(s)
    ensures From(s, steps + [step]) == Do(From(s, steps), step)
  {
    assert (steps + [step])[..|steps|] == steps;
  }

  lemma {:induction false} RunFrom(memory: Bytes, before: seq<Step>, steps: seq<Step>)
    requires 0 < |memory|
    ensures Run(memory, before + steps) == From(Run(memory, before), steps)
  {
    hide Do;
    if steps == [] {
      assert before + steps == before;
    } else {
      RunFrom(memory, before, steps[..|steps| - 1]);
      assert (before + steps)[..|before + steps| - 1] == before + steps[..|steps| - 1];
    }
  }

  // --- Reading ------------------------------------------------------------------------------

  /** Steps that may fall into a read: anything the writer does, and the read's own copying. */
  predicate InRead(step: Step) { step.WriteBegin? || step.WriteByte? || step.WriteEnd? || step.ReadByte? }

  /** In the middle of a read: what is to be delivered stands fast, every byte copied is there. */
  lemma {:induction false} ReadGoesOn(s: State, steps: seq<Step>)
    requires Inv(s) && s.reader.Reading? && forall step <- steps :: InRead(step)
    ensures var m := From(s, steps);
            && Inv(m) && m.reader.Reading? && m.reader.len == s.reader.len
            && m.delivered == s.delivered && s.accepted <= m.accepted
            && forall i: nat :: i < s.reader.len && (ReadByte(i) in steps || i in s.reader.out) ==> i in m.reader.out
  {
    hide LogRing.Unread, WriterInv, ReaderInv, Do, Available, Free, Slot;
    if steps != [] {
      var before, step := steps[..|steps| - 1], steps[|steps| - 1];
      assert steps == before + [step];
      ReadGoesOn(s, before);
      StepKeeps(From(s, before), step);
      ReadStep(From(s, before), step);
    }
  }

  lemma ReadStep(m: State, step: Step)
    requires Inv(m) && m.reader.Reading? && InRead(step)
    ensures var m' := Do(m, step);
            && m'.reader.Reading? && m'.reader.len == m.reader.len
            && m'.delivered == m.delivered && m.accepted <= m'.accepted
            && (forall i :: i in m.reader.out ==> i in m'.reader.out)
            && (step.ReadByte? && step.i < m.reader.len ==> step.i in m'.reader.out)
  {
  }

  /** A read that begins when n bytes are accepted and not delivered takes the smaller of n and count, and when it has
      copied them all, in any order and whatever the writer does in between, has delivered exactly the next so many. */
  lemma ReadDelivers(memory: Bytes, before: seq<Step>, count: nat, during: seq<Step>)
    requires 0 < |memory| && Run(memory, before).reader.Waiting?
    requires |Run(memory, before).delivered| < |Run(memory, before).accepted|
    requires forall step <- during :: InRead(step)
    requires forall i: nat ::
               i < Min(count, |Run(memory, before).accepted| - |Run(memory, before).delivered|) ==>
               ReadByte(i) in during
    ensures var s, s' := Run(memory, before), Run(memory, before + [ReadBegin(count)] + during + [ReadEnd]);
            var d := |s.delivered|;
            s'.reader.Waiting? && s'.delivered == s.delivered + s.accepted[d..][..Min(count, |s.accepted| - d)]
  {
    hide Run, From, Do, Inv;
    var s, begin, end := Run(memory, before), ReadBegin(count), [ReadEnd];
    RunKeeps(memory, before);
    var s1 := Do(s, begin);
    ReadBegins(s, count);
    StepKeeps(s, begin);
    ReadGoesOn(s1, during);
    var m := From(s1, during);
    ReadEnds(m);
    OutputIsNext(m);
    ThreeRuns(memory, before, begin, during, ReadEnd);
    NextBytes(s, s1, m);
  }

  lemma ThreeRuns(memory: Bytes, before: seq<Step>, begin: Step, during: seq<Step>, end: Step)
    requires 0 < |memory|
    ensures Run(memory, before + [begin] + during + [end]) == Do(From(Do(Run(memory, before), begin), during), end)
  {
    hide Do;
    RunFrom(memory, before, [begin]);
    RunFrom(memory, before + [begin], during);
    RunFrom(memory, before + [begin] + during, [end]);
    FromSnoc(Run(memory, before), [], begin);
    FromSnoc(Run(memory, before + [begin] + during), [], end);
    assert [] + [begin] == [begin] && [] + [end] == [end];
  }

  lemma ReadBegins(s: State, count: nat)
    requires Inv(s) && s.reader.Waiting?
    ensures |s.delivered| <= |s.accepted|
    ensures var s1, n := Do(s, ReadBegin(count)), |s.accepted| - |s.delivered|;
            if n == 0 then s1 == s
            else s1 == s.(reader := s1.reader) && s1.reader.Reading? && s1.reader.len == Min(count, n)
                 && s1.reader.out == map[]
  {
  }

  lemma ReadEnds(m: State)
    requires Inv(m) && m.reader.Reading? && forall i: nat :: i < m.reader.len ==> i in m.reader.out
    ensures Fetched(m.reader)
    ensures Do(m, ReadEnd) == m.(tail := (m.tail + m.reader.len) % |m.buf|,
                                 delivered := m.delivered + Output(m.reader), reader := Waiting)
  {
  }

  lemma NextBytes(s: State, s1: State, m: State)
    requires s1.delivered == s.delivered == m.delivered && s1.accepted == s.accepted <= m.accepted
    requires s.delivered <= s.accepted && m.reader.Reading? && Fetched(m.reader)
    requires |s.delivered| + m.reader.len <= |s.accepted|
    requires Output(m.reader) == m.accepted[|m.delivered|..][..m.reader.len]
    ensures Output(m.reader) == s.accepted[|s.delivered|..][..m.reader.len]
  {
  }

  /** With nothing to read a read ends at once, and one whose copy faults leaves everything to be read again. */
  lemma ReadsNothing(memory: Bytes, before: seq<Step>, count: nat)
    requires 0 < |memory|
    ensures var s := Run(memory, before);
            && (s.reader.Waiting? && s.delivered == s.accepted ==> Do(s, ReadBegin(count)) == s)
            && Do(s, ReadFault) == s.(reader := Waiting)
  {
    hide Run;
    RunKeeps(memory, before);
    if Run(memory, before).reader.Waiting? {
      ReadBegins(Run(memory, before), count);
    }
  }

  // --- Writing ------------------------------------------------------------------------------

  /** Steps that may fall into a write. */
  predicate InWrite(step: Step) {
    step.ReadBegin? || step.ReadByte? || step.ReadEnd? || step.ReadFault? || step.WriteByte?
  }

  lemma {:induction false} WriteGoesOn(s: State, steps: seq<Step>)
    requires Inv(s) && s.writer.Writing? && forall step <- steps :: InWrite(step)
    ensures var m := From(s, steps);
            && Inv(m) && m.writer.Writing? && m.writer.data == s.writer.data && m.accepted == s.accepted
            && forall i: nat ::
                 i < |s.writer.data| && (WriteByte(i) in steps || i in s.writer.done) ==> i in m.writer.done
  {
    hide LogRing.Unread, WriterInv, ReaderInv, Do, Available, Free, Slot;
    if steps != [] {
      var before, step := steps[..|steps| - 1], steps[|steps| - 1];
      assert steps == before + [step];
      WriteGoesOn(s, before);
      StepKeeps(From(s, before), step);
      WriteStep(From(s, before), step);
    }
  }

  lemma WriteStep(m: State, step: Step)
    requires Inv(m) && m.writer.Writing? && InWrite(step)
    ensures var m' := Do(m, step);
            && m'.writer.Writing? && m'.writer.data == m.writer.data && m'.accepted == m.accepted
            && (forall i :: i in m.writer.done ==> i in m'.writer.done)
            && (step.WriteByte? && step.i < |m.writer.data| ==> step.i in m'.writer.done)
  {
  }

  /** A write that has stored every byte it found room for, in any order and whatever the reader does in between, has
      had exactly those accepted. */
  lemma WriteAccepts(memory: Bytes, before: seq<Step>, ptr: Bytes, during: seq<Step>)
    requires 0 < |memory| && Run(memory, before).writer.AtRest?
    requires forall step <- during :: InWrite(step)
    requires forall i: nat ::
               i < Min(|ptr|, |memory| - 1 - (|Run(memory, before).accepted| - |Run(memory, before).delivered|)) ==>
               WriteByte(i) in during
    ensures var s, s' := Run(memory, before), Run(memory, before + [WriteBegin(ptr)] + during + [WriteEnd]);
            var room := |memory| - 1 - (|s.accepted| - |s.delivered|);
            s'.writer.AtRest? && 0 <= room && s'.accepted == s.accepted + ptr[..Min(|ptr|, room)]
  {
    hide Run, From, Inv;
    var s, begin := Run(memory, before), WriteBegin(ptr);
    RunKeeps(memory, before);
    WriteTakesWhatFits(memory, before, ptr);
    StepKeeps(s, begin);
    WriteGoesOn(Do(s, begin), during);
    ThreeRuns(memory, before, begin, during, WriteEnd);
  }

  // --- Each function alone -----------------------------------------------------------------------

  function ReadBytes(n: nat): seq<Step> { seq(n, i requires 0 <= i < n => ReadByte(i)) }

  function WriteBytes(n: nat): seq<Step> { seq(n, i requires 0 <= i < n => WriteByte(i)) }

  function ReadCall(count: nat, n: nat): seq<Step> { [ReadBegin(count)] + ReadBytes(n) + [ReadEnd] }

  function WriteCall(ptr: Bytes, n: nat): seq<Step> { [WriteBegin(ptr)] + WriteBytes(n) + [WriteEnd] }

  /** Copying out of the ring changes nothing shared. */
  lemma {:induction false} OnlyReads(s: State, n: nat)
    requires InRange(s)
    ensures From(s, ReadBytes(n)) == s.(reader := From(s, ReadBytes(n)).reader)
  {
    if n > 0 {
      OnlyReads(s, n - 1);
      assert ReadBytes(n)[..n - 1] == ReadBytes(n - 1);
    }
  }

  /** Copying into it changes the slots from `head` on. */
  lemma {:induction false} OnlyWrites(s: State, n: nat)
    requires InRange(s) && s.writer.Writing? && n <= |s.writer.data| <= |s.buf|
    ensures var m := From(s, WriteBytes(n));
            m == s.(buf := StoreAt(s.buf, s.head, s.writer.data[..n]), writer := m.writer)
            && m.writer.Writing? && m.writer.data == s.writer.data
  {
    var m := From(s, WriteBytes(n));
    if n == 0 {
      assert StoreAt(s.buf, s.head, []) == s.buf;
    } else {
      OnlyWrites(s, n - 1);
      assert WriteBytes(n)[..n - 1] == WriteBytes(n - 1);
      StoreOneMore(s.buf, s.head, s.writer.data, n - 1);
    }
  }

  /** The memory the two sides share. */
  ghost predicate Same(b: LogBuffer, s: State) reads b, b.buf {
    b.buf[..] == s.buf && b.head == s.head && b.tail == s.tail
  }

  /** `mculog_read` undisturbed does to the ring what its steps do in the machine. */
  method ReadAlone(b: LogBuffer, count: nat, ghost memory: Bytes, ghost before: seq<Step>) returns (out: Bytes)
    requires b.Valid() && 0 < |memory| && Same(b, Run(memory, before)) && Run(memory, before).reader.Waiting?
    modifies b`tail
    ensures b.Valid()
    ensures var s := Run(memory, before);
            var s' := Run(memory, before + ReadCall(count, |out|));
            && Same(b, s') && s'.reader.Waiting? && s'.delivered == s.delivered + out && s'.accepted == s.accepted
            && |out| == Min(count, |s.accepted| - |s.delivered|)
  {
    hide Run, From, Do, Contents, Inv;
    var fault;
    ContentsArePending(memory, before);
    out, fault := b.Read(count, false);
    ReadCallState(memory, before, count, |out|);
  }

  lemma ReadCallState(memory: Bytes, before: seq<Step>, count: nat, n: nat)
    requires 0 < |memory| && Run(memory, before).reader.Waiting?
    requires |Run(memory, before).delivered| <= |Run(memory, before).accepted|
    requires n == Min(count, |Run(memory, before).accepted| - |Run(memory, before).delivered|)
    ensures var s, s' := Run(memory, before), Run(memory, before + ReadCall(count, n));
            s' == s.(tail := (s.tail + n) % |s.buf|, delivered := s.delivered + s.accepted[|s.delivered|..][..n])
  {
    hide Run, From, Do, Inv;
    var s, during := Run(memory, before), ReadBytes(n);
    RunKeeps(memory, before);
    ReadBegins(s, count);
    ThreeRuns(memory, before, ReadBegin(count), during, ReadEnd);
    assert before + ReadCall(count, n) == before + [ReadBegin(count)] + during + [ReadEnd];
    if |s.delivered| < |s.accepted| {
      var s1 := Do(s, ReadBegin(count));
      OnlyReads(s1, n);
      forall i: nat | i < n ensures ReadByte(i) in during {
        assert during[i] == ReadByte(i);
      }
      StepKeeps(s, ReadBegin(count));
      ReadGoesOn(s1, during);
      ReadEnds(From(s1, during));
      ReadDelivers(memory, before, count, during);
    } else {
      NothingRead(s, during);
    }
  }

  lemma NothingRead(s: State, steps: seq<Step>)
    requires Inv(s) && s.reader.Waiting? && |s.delivered| == |s.accepted| && steps == []
    ensures Do(From(s, steps), ReadEnd) == s && (s.tail + 0) % |s.buf| == s.tail
  {
    SmallRemainder(s.tail, |s.buf|);
  }

  /** So does `_write`. */
  method WriteAlone(b: LogBuffer, fd: int, ptr: Bytes, ghost memory: Bytes, ghost before: seq<Step>) returns (n: nat)
    requires b.Valid() && 0 < |memory| && Same(b, Run(memory, before)) && Run(memory, before).writer.AtRest? && fd <= 2
    modifies b`head, b.buf
    ensures b.Valid() && n <= |ptr|
    ensures var s := Run(memory, before);
            var s' := Run(memory, before + WriteCall(ptr, n));
            && Same(b, s') && s'.writer.AtRest? && s'.accepted == s.accepted + ptr[..n] && s'.delivered == s.delivered
  {
    hide Run, From, Do, Contents, Inv, StoreAt;
    ContentsArePending(memory, before);
    n := b.Write(fd, ptr);
    WriteCallState(memory, before, ptr, n);
  }

  lemma WriteCallState(memory: Bytes, before: seq<Step>, ptr: Bytes, n: nat)
    requires 0 < |memory| && Run(memory, before).writer.AtRest?
    requires n == Min(|ptr|, |memory| - 1 - (|Run(memory, before).accepted| - |Run(memory, before).delivered|))
    ensures var s, s' := Run(memory, before), Run(memory, before + WriteCall(ptr, n));
            && n <= |s.buf|
            && s' == s.(buf := StoreAt(s.buf, s.head, ptr[..n]), head := (s.head + n) % |s.buf|,
                        accepted := s.accepted + ptr[..n])
  {
    hide Run, From, Inv, StoreAt;
    var s, during := Run(memory, before), WriteBytes(n);
    RunKeeps(memory, before);
    WriteTakesWhatFits(memory, before, ptr);
    var s1 := Do(s, WriteBegin(ptr));
    StepKeeps(s, WriteBegin(ptr));
    RoomWithin(s);
    OnlyWrites(s1, n);
    assert ptr[..n][..n] == ptr[..n];
    forall i: nat | i < n ensures WriteByte(i) in during {
      assert during[i] == WriteByte(i);
    }
    WriteGoesOn(s1, during);
    ThreeRuns(memory, before, WriteBegin(ptr), during, WriteEnd);
    assert before + WriteCall(ptr, n) == before + [WriteBegin(ptr)] + during + [WriteEnd];
  }

  lemma RoomWithin(s: State)
    requires Inv(s)
    ensures |s.buf| - 1 - (|s.accepted| - |s.delivered|) < |s.buf|
  {
  }
}
