/** The connection's handlers as they update their fields, each proved to take the step of TcpOutput. */
module TcpConnections {
  import opened TcpOutput

  class TcpConnection {
    var phase: Phase
    var writing: bool
    var reading: bool
    var out: Bytes
    var limit: nat
    var policy: Policy
    var marks: Marks
    var paused: bool
    ghost var handed: Bytes
    ghost var shut: bool
    ghost var lost: bool

    ghost function Value(): Conn
      reads this
    {
      Conn(phase, writing, reading, out, limit, policy, marks, paused, handed, shut, lost)
    }

    constructor (limit: nat, policy: Policy)
      ensures Value() == Established(limit, policy)
    {
      phase, writing, reading, out := Connected, false, true, [];
      this.limit, this.policy := limit, policy;
      marks, paused := Marks(0, 0), false;
      handed, shut, lost := [], false, false;
    }

    method HandleClose()
      modifies `phase, `writing, `reading
      ensures Value() == Closed(old(Value()))
    {
      if phase.Disconnected? {
        return;
      }
      phase := Disconnected;
      writing, reading := false, false;
    }

    method MaybePauseReadForFlowControl()
      modifies `reading, `paused
      ensures Value() == MaybePause(old(Value()))
    {
      if marks.high == 0 || paused || |out| < marks.high {
        return;
      }
      if reading {
        reading := false;
      }
      paused := true;
    }

    method MaybeResumeReadForFlowControl()
      modifies `reading, `paused
      ensures Value() == MaybeResume(old(Value()))
    {
      if marks.high == 0 || !paused || |out| > marks.low {
        return;
      }
      if !reading {
        reading := true;
      }
      paused := false;
    }

    /** Appends unless the limit would be passed; an overflow is dealt with by the policy. */
    method HandleOutputBufferAppend(data: Bytes) returns (ok: bool)
      modifies `out, `phase, `writing, `reading, `lost
      ensures ok == (|old(out)| + |data| <= limit)
      ensures Value() == if ok then old(Value()).(out := old(out) + data) else Overflow(old(Value()))
    {
      if |out| + |data| > limit {
        lost := true;
        if policy.CloseConnection? {
          HandleClose();
        }
        return false;
      }
      out := out + data;
      ok := true;
    }

    method AppendAndWatch(data: Bytes)
      modifies `out, `phase, `writing, `reading, `lost, `paused
      ensures Value() == Enqueue(old(Value()), data)
    {
      var ok := HandleOutputBufferAppend(data);
      if !ok {
        return;
      }
      if !writing {
        writing := true;
      }
      MaybePauseReadForFlowControl();
    }

    method SendInLoop(data: Bytes, answer: Answer)
      modifies this
      ensures Value() == TcpOutput.SendInLoop(old(Value()), data, answer)
    {
      if phase.Disconnected? || data == [] {
        return;
      }
      if !writing && out == [] {
        match answer {
          case Took(n) =>
            var written := Least(n, |data|);
            handed := handed + data[..written];
            if written < |data| {
              AppendAndWatch(data[written..]);
            }
          case WouldBlock => AppendAndWatch(data);
          case Failed => HandleClose();
        }
        return;
      }
      AppendAndWatch(data);
    }

    method ShutdownInLoop()
      modifies `shut
      ensures Value() == ShutInLoop(old(Value()))
    {
      if phase.Disconnected? {
        return;
      }
      if !writing && out == [] {
        shut := true;
      }
    }

    /** Writes while the kernel takes bytes; afterwards the rest of the step depends on what is left. */
    method WriteOut(answers: seq<Answer>)
      requires !phase.Disconnected?
      modifies this
      ensures Value() == Drain(old(Value()), answers)
    {
      hide MaybeResume;
      hide Closed;
      var i := 0;
      while i < |answers| && out != []
        invariant 0 <= i <= |answers| && !phase.Disconnected?
        invariant Drain(old(Value()), answers) == Drain(Value(), answers[i..])
      {
        assert answers[i..][1..] == answers[i + 1..];
        match answers[i] {
          case Took(n) =>
            if n == 0 {
              HandleClose();
              return;
            }
            var k := Least(n, |out|);
            handed := handed + out[..k];
            out := out[k..];
            MaybeResumeReadForFlowControl();
          case WouldBlock => return;
          case Failed =>
            HandleClose();
            return;
        }
        i := i + 1;
      }
    }

    method HandleWrite(answers: seq<Answer>)
      requires writing ==> !phase.Disconnected?
      modifies this
      ensures Value() == TcpOutput.HandleWrite(old(Value()), answers)
    {
      if !writing {
        return;
      }
      WriteOut(answers);
      if out != [] || phase.Disconnected? {
        return;
      }
      writing := false;
      MaybeResumeReadForFlowControl();
      if phase.Disconnecting? {
        ShutdownInLoop();
      }
    }

    method EnableAutoReadFlowControl(high: nat, low: nat)
      modifies `marks, `paused
      ensures Value() == Enable(old(Value()), high, low)
    {
      if high == 0 {
        marks, paused := Marks(0, 0), false;
        return;
      }
      marks := Marks(high, if low >= high then high / 2 else low);
    }
  }
}
