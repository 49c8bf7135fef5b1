/** The output side of a connection: what is handed to the kernel, what waits in the output buffer, and how the
    backlog pauses and resumes reading. The kernel's answers are part of each event. */
module TcpOutput {
  import opened Words

  type Bytes = seq<Byte>

  datatype Phase = Connected | Disconnecting | Disconnected

  datatype Policy = Ignore | CloseConnection | ReportError

  /** Marks for pausing and resuming reads; a high mark of 0 means flow control is off. */
  datatype Marks = Marks(high: nat, low: nat)

  /** `handed` is what the kernel has taken, `shut` that the write side of the socket was shut down, and `lost`
      that bytes given to an in-loop send were thrown away by an overflow. */
  datatype Conn = Conn(
    phase: Phase, writing: bool, reading: bool, out: Bytes, limit: nat, policy: Policy,
    marks: Marks, paused: bool, handed: Bytes, shut: bool, lost: bool)

  function Established(limit: nat, policy: Policy): Conn {
    Conn(Connected, false, true, [], limit, policy, Marks(0, 0), false, [], false, false)
  }

  /** Answer of the kernel to one write. */
  datatype Answer = Took(n: nat) | WouldBlock | Failed

  datatype Event =
    | Send(data: Bytes, answer: Answer)
    | Writable(answers: seq<Answer>)
    | RequestShutdown
    | ShutdownInLoop
    | Close
    | EnableFlow(high: nat, low: nat)
    | StartRead
    | StopRead

  // ----- steps -----

  function Closed(c: Conn): Conn {
    if c.phase.Disconnected? then c else c.(phase := Disconnected, writing := false, reading := false)
  }

  function MaybePause(c: Conn): Conn {
    if c.marks.high == 0 || c.paused || |c.out| < c.marks.high then c else c.(reading := false, paused := true)
  }

  function MaybeResume(c: Conn): Conn {
    if c.marks.high == 0 || !c.paused || |c.out| > c.marks.low then c else c.(reading := true, paused := false)
  }

  /** Appends to the output buffer and asks for write events, or deals with the overflow. */
  function Enqueue(c: Conn, data: Bytes): Conn {
    if |c.out| + |data| > c.limit then Overflow(c)
    else MaybePause(c.(out := c.out + data, writing := true))
  }

  function Overflow(c: Conn): Conn {
    var d := c.(lost := true);
    if c.policy.CloseConnection? then Closed(d) else d
  }

  function Least(a: nat, b: nat): nat {
    if a < b then a else b
  }

  function SendInLoop(c: Conn, data: Bytes, answer: Answer): Conn {
    if c.phase.Disconnected? || data == [] then c
    else if !c.writing && c.out == [] then
      match answer
      case Took(n) =>
        var k := Least(n, |data|);
        var d := c.(handed := c.handed + data[..k]);
        if k < |data| then Enqueue(d, data[k..]) else d
      case WouldBlock => Enqueue(c, data)
      case Failed => Closed(c)
    else Enqueue(c, data)
  }

  function ShutInLoop(c: Conn): Conn {
    if !c.phase.Disconnected? && !c.writing && c.out == [] then c.(shut := true) else c
  }

  /** The writes of one write event: each takes some bytes and may resume reading. */
  function Drain(c: Conn, answers: seq<Answer>): Conn
    decreases |answers|
  {
    if c.out == [] || answers == [] || c.phase.Disconnected? then c
    else
      match answers[0]
      case Took(n) =>
        if n == 0 then Closed(c)
        else
          var k := Least(n, |c.out|);
          Drain(MaybeResume(c.(handed := c.handed + c.out[..k], out := c.out[k..])), answers[1..])
      case WouldBlock => c
      case Failed => Closed(c)
  }

  function HandleWrite(c: Conn, answers: seq<Answer>): Conn {
    if !c.writing then c
    else
      var d := Drain(c, answers);
      if d.out != [] || d.phase.Disconnected? then d
      else
        var e := MaybeResume(d.(writing := false));
        if e.phase.Disconnecting? then ShutInLoop(e) else e
  }

  function Enable(c: Conn, high: nat, low: nat): Conn {
    if high == 0 then c.(marks := Marks(0, 0), paused := false)
    else c.(marks := Marks(high, if low >= high then high / 2 else low))
  }

  function Step(c: Conn, e: Event): Conn {
    match e
    case Send(data, answer) => SendInLoop(c, data, answer)
    case Writable(answers) => HandleWrite(c, answers)
    case RequestShutdown => if c.phase.Connected? then c.(phase := Disconnecting) else c
    case ShutdownInLoop => ShutInLoop(c)
    case Close => Closed(c)
    case EnableFlow(high, low) => Enable(c, high, low)
    case StartRead => c.(reading := true, paused := false)
    case StopRead => c.(reading := false)
  }

  function Run(c: Conn, es: seq<Event>): Conn {
    if es == [] then c else Step(Run(c, es[..|es| - 1]), es[|es| - 1])
  }

  function Sent(es: seq<Event>): Bytes {
    if es == [] then []
    else Sent(es[..|es| - 1]) + (if es[|es| - 1].Send? then es[|es| - 1].data else [])
  }

  // ----- conservation -----

  /** Until the connection is gone: everything sent is handed over or waits, in order, unless an overflow threw
      some away; and write interest is on exactly while bytes wait. */
  ghost predicate Conserved(c: Conn, sent: Bytes) {
    && (c.lost && c.policy.CloseConnection? ==> c.phase.Disconnected?)
    && (!c.phase.Disconnected? ==>
          && (c.writing <==> c.out != [])
          && (!c.lost ==> c.handed + c.out == sent)
          && (c.lost ==> |c.handed + c.out| < |sent|))
  }

  lemma EnqueueConserves(c: Conn, sent: Bytes, data: Bytes)
    requires Conserved(c, sent) && !c.phase.Disconnected? && data != []
    ensures Conserved(Enqueue(c, data), sent + data)
  {
    assert (c.handed + c.out) + data == c.handed + (c.out + data);
  }

  /** Handing over a part and queueing the rest. */
  lemma PartConserves(c: Conn, sent: Bytes, data: Bytes, k: nat)
    requires Conserved(c, sent) && !c.phase.Disconnected? && c.out == [] && !c.writing && k <= |data|
    ensures Conserved(c.(handed := c.handed + data[..k]), sent + data[..k])
  {
    assert c.handed + [] == c.handed;
  }

  lemma SendConserves(c: Conn, sent: Bytes, data: Bytes, answer: Answer)
    requires Conserved(c, sent)
    ensures Conserved(SendInLoop(c, data, answer), sent + data)
  {
    if data == [] {
      assert sent + data == sent;
    } else if !c.phase.Disconnected? {
      if !c.writing && c.out == [] && answer.Took? {
        var k := Least(answer.n, |data|);
        PartConserves(c, sent, data, k);
        assert sent + data[..k] + data[k..] == sent + data;
        if k < |data| {
          EnqueueConserves(c.(handed := c.handed + data[..k]), sent + data[..k], data[k..]);
        }
      } else {
        EnqueueConserves(c, sent, data);
      }
    }
  }

  lemma {:induction false} DrainConserves(c: Conn, answers: seq<Answer>, sent: Bytes)
    requires || Conserved(c, sent)
             || (!c.phase.Disconnected? && c.writing && c.out == [] && Conserved(c.(writing := false), sent))
    requires c.writing || c.phase.Disconnected?
    ensures var d := Drain(c, answers);
            && (Conserved(d, sent) || (!d.phase.Disconnected? && d.out == [] && Conserved(d.(writing := false), sent)))
            && (d.writing || d.phase.Disconnected?)
            && d.shut == c.shut
    decreases |answers|
  {
    if !(c.out == [] || answers == [] || c.phase.Disconnected?) && answers[0].Took? && answers[0].n > 0 {
      var k := Least(answers[0].n, |c.out|);
      var d := c.(handed := c.handed + c.out[..k], out := c.out[k..]);
      assert (c.handed + c.out[..k]) + c.out[k..] == c.handed + c.out;
      DrainConserves(MaybeResume(d), answers[1..], sent);
    }
  }

  lemma WriteConserves(c: Conn, answers: seq<Answer>, sent: Bytes)
    requires Conserved(c, sent)
    ensures Conserved(HandleWrite(c, answers), sent)
    ensures HandleWrite(c, answers).shut && !c.shut ==> HandleWrite(c, answers).out == []
  {
    if c.writing {
      DrainConserves(c, answers, sent);
    }
  }

  lemma StepConserves(c: Conn, e: Event, sent: Bytes)
    requires Conserved(c, sent)
    ensures Conserved(Step(c, e), sent + (if e.Send? then e.data else []))
    ensures Step(c, e).phase.Disconnected? || !c.phase.Disconnected?
  {
    assert sent + [] == sent;
    match e
    case Send(data, answer) => SendConserves(c, sent, data, answer);
    case Writable(answers) => WriteConserves(c, answers, sent);
    case _ =>
  }

  lemma {:induction false} RunConserves(limit: nat, policy: Policy, es: seq<Event>)
    ensures Conserved(Run(Established(limit, policy), es), Sent(es))
    ensures Run(Established(limit, policy), es).policy == policy
  {
    if es != [] {
      var init := es[..|es| - 1];
      RunConserves(limit, policy, init);
      StepConserves(Run(Established(limit, policy), init), es[|es| - 1], Sent(init));
      PolicyKept(Run(Established(limit, policy), init), es[|es| - 1]);
    }
  }

  lemma PolicyKept(c: Conn, e: Event)
    ensures Step(c, e).policy == c.policy
  {
    if e.Writable? {
      DrainKeeps(c, e.answers);
    }
  }

  lemma {:induction false} DrainKeeps(c: Conn, answers: seq<Answer>)
    ensures var d := Drain(c, answers);
            && d.limit == c.limit && d.policy == c.policy && d.marks == c.marks && d.shut == c.shut && d.lost == c.lost
    decreases |answers|
  {
    if !(c.out == [] || answers == [] || c.phase.Disconnected?) && answers[0].Took? && answers[0].n > 0 {
      var k := Least(answers[0].n, |c.out|);
      DrainKeeps(MaybeResume(c.(handed := c.handed + c.out[..k], out := c.out[k..])), answers[1..]);
    }
  }

  /** With the closing policy, in every run: until the connection is gone, the bytes given to the kernel followed
      by the output buffer are exactly the in-loop sends, and write interest is on exactly while bytes wait. */
  lemma NothingLost(limit: nat, es: seq<Event>)
    ensures var c := Run(Established(limit, CloseConnection), es);
            !c.phase.Disconnected? ==> c.handed + c.out == Sent(es) && (c.writing <==> c.out != [])
  {
    RunConserves(limit, CloseConnection, es);
  }

  /** The bytes of a send that the kernel does not take at once. */
  function Rest(c: Conn, data: Bytes, answer: Answer): Bytes {
    if !c.writing && c.out == [] then
      match answer
      case Took(n) => data[Least(n, |data|)..]
      case WouldBlock => data
      case Failed => []
    else data
  }

  /** A send on a live connection whose remaining bytes do not fit in the output buffer. */
  predicate Overflows(c: Conn, e: Event) {
    e.Send? && !c.phase.Disconnected? && e.data != [] && |c.out| + |Rest(c, e.data, e.answer)| > c.limit
  }

  /** One event throws bytes away if and only if it is a send that meets the overflow guard. */
  lemma StepLoses(c: Conn, e: Event)
    ensures Step(c, e).lost <==> c.lost || Overflows(c, e)
  {
    if e.Writable? {
      DrainKeeps(c, e.answers);
    }
  }

  /** Event i of a run is a send that meets the overflow guard. */
  predicate OverflowsAt(c0: Conn, es: seq<Event>, i: nat) {
    i < |es| && Overflows(Run(c0, es[..i]), es[i])
  }

  lemma OverflowsInit(c0: Conn, es: seq<Event>, i: nat)
    requires es != [] && i != |es| - 1
    ensures OverflowsAt(c0, es, i) <==> OverflowsAt(c0, es[..|es| - 1], i)
  {
    hide Run;
    hide Overflows;
    if i < |es| {
      assert es[..|es| - 1][..i] == es[..i];
    }
  }

  lemma {:induction false} RunLoses(c0: Conn, es: seq<Event>)
    requires !c0.lost
    ensures Run(c0, es).lost <==> exists i :: OverflowsAt(c0, es, i)
  {
    hide Step;
    hide Overflows;
    if es != [] {
      var n := |es| - 1;
      RunLoses(c0, es[..n]);
      StepLoses(Run(c0, es[..n]), es[n]);
      assert OverflowsAt(c0, es, n) <==> Overflows(Run(c0, es[..n]), es[n]);
      assert !OverflowsAt(c0, es[..n], n);
      hide OverflowsAt;
      forall i: nat | i != n ensures OverflowsAt(c0, es, i) <==> OverflowsAt(c0, es[..n], i) {
        OverflowsInit(c0, es, i);
      }
    }
  }

  /** With any policy, bytes are missing if and only if some send met the overflow guard. */
  lemma LostExactly(limit: nat, policy: Policy, es: seq<Event>)
    ensures var c0 := Established(limit, policy);
            var c := Run(c0, es);
            !c.phase.Disconnected? ==>
              (c.handed + c.out == Sent(es) <==> !exists i :: OverflowsAt(c0, es, i))
  {
    hide OverflowsAt;
    RunConserves(limit, policy, es);
    RunLoses(Established(limit, policy), es);
  }

  lemma RunOne(c: Conn, e: Event)
    ensures Run(c, [e]) == Step(c, e)
  {
    assert [e][..0] == [];
  }

  lemma RunMore(c: Conn, es: seq<Event>, e: Event)
    ensures Run(c, es + [e]) == Step(Run(c, es), e)
  {
    assert (es + [e])[..|es|] == es;
  }

  /** Without the closing policy an overflow goes unnoticed: the connection stays up and the bytes are gone. */
  lemma OverflowGoesUnnoticed()
    ensures var c0, e := Established(1, Ignore), Send([7, 7], WouldBlock);
            var c := Run(c0, [e]);
            Overflows(c0, e) && c.phase.Connected? && c.handed + c.out == [] && Sent([e]) == [7, 7]
  {
    RunOne(Established(1, Ignore), Send([7, 7], WouldBlock));
    assert [Send([7, 7], WouldBlock)][..0] == [];
  }

  // ----- what a write event writes -----

  /** A write that took something. */
  predicate Takes(a: Answer) {
    a.Took? && a.n > 0
  }

  /** How many bytes the first writes offer to take, up to the first that takes nothing. */
  function Offered(answers: seq<Answer>): nat {
    if answers == [] || !Takes(answers[0]) then 0 else answers[0].n + Offered(answers[1..])
  }

  /** The writes before this one took something, and left something to write. */
  ghost predicate Attempted(out: Bytes, answers: seq<Answer>, i: nat) {
    i < |answers| && (forall j :: 0 <= j < i ==> Takes(answers[j])) && Offered(answers[..i]) < |out|
  }

  /** A write event that takes nothing, or fails, is the end of the connection. */
  predicate Breaks(a: Answer) {
    a.Failed? || a == Took(0)
  }

  ghost predicate WriteBreaks(out: Bytes, answers: seq<Answer>) {
    exists i: nat :: Attempted(out, answers, i) && Breaks(answers[i])
  }

  lemma AttemptedLater(out: Bytes, answers: seq<Answer>, i: nat)
    requires answers != [] && Takes(answers[0]) && answers[0].n < |out|
    ensures Attempted(out, answers, i + 1) <==> Attempted(out[answers[0].n..], answers[1..], i)
  {
    if i + 1 < |answers| {
      assert answers[..i + 1][1..] == answers[1..][..i];
      assert forall j :: 0 <= j < i ==> answers[1..][j] == answers[j + 1];
      assert forall j :: 1 <= j < i + 1 ==> answers[j] == answers[1..][j - 1];
    }
  }

  lemma NoneAfterAll(out: Bytes, answers: seq<Answer>, i: nat)
    requires answers != [] && out != [] && (!Takes(answers[0]) || answers[0].n >= |out|) && i > 0
    ensures !Attempted(out, answers, i)
  {
    if i < |answers| && Takes(answers[0]) {
      assert answers[..i][0] == answers[0];
    }
  }

  lemma BreaksFirst(out: Bytes, answers: seq<Answer>)
    ensures Attempted(out, answers, 0) <==> answers != [] && out != []
  {
  }

  /** The writes break the connection now, or after the first write. */
  lemma WriteBreaksThen(out: Bytes, answers: seq<Answer>)
    requires out != [] && answers != []
    ensures WriteBreaks(out, answers) <==>
              || Breaks(answers[0])
              || (Takes(answers[0]) && answers[0].n < |out| && WriteBreaks(out[answers[0].n..], answers[1..]))
  {
    BreaksFirst(out, answers);
    if Takes(answers[0]) && answers[0].n < |out| {
      var rest, more := out[answers[0].n..], answers[1..];
      if i: nat :| Attempted(out, answers, i) && Breaks(answers[i]) {
        assert i > 0;
        AttemptedLater(out, answers, i - 1);
        assert Attempted(rest, more, i - 1) && more[i - 1] == answers[i];
      }
      if WriteBreaks(rest, more) {
        var i: nat :| Attempted(rest, more, i) && Breaks(more[i]);
        AttemptedLater(out, answers, i);
        assert Attempted(out, answers, i + 1) && Breaks(answers[i + 1]);
      }
    } else if i: nat :| Attempted(out, answers, i) && Breaks(answers[i]) {
      if i > 0 {
        NoneAfterAll(out, answers, i);
      }
    }
  }

  lemma DrainOne(c: Conn, answers: seq<Answer>)
    requires !c.phase.Disconnected? && c.out != [] && answers != [] && Takes(answers[0])
    ensures var k := Least(answers[0].n, |c.out|);
            Drain(c, answers) ==
              Drain(MaybeResume(c.(handed := c.handed + c.out[..k], out := c.out[k..])), answers[1..])
  {
  }

  lemma DrainStops(c: Conn, answers: seq<Answer>)
    requires c.out == [] || answers == [] || !Takes(answers[0])
    ensures Drain(c, answers).handed == c.handed && Drain(c, answers).out == c.out
  {
  }

  lemma {:induction false} DrainTakes(c: Conn, answers: seq<Answer>)
    requires !c.phase.Disconnected?
    ensures var d, k := Drain(c, answers), Least(Offered(answers), |c.out|);
            d.handed == c.handed + c.out[..k] && d.out == c.out[k..]
    decreases |answers|
  {
    hide Drain;
    if c.out == [] || answers == [] || !Takes(answers[0]) {
      DrainStops(c, answers);
      assert c.handed + c.out[..0] == c.handed && c.out[0..] == c.out;
    } else {
      var n := Least(answers[0].n, |c.out|);
      var d := MaybeResume(c.(handed := c.handed + c.out[..n], out := c.out[n..]));
      DrainOne(c, answers);
      DrainTakes(d, answers[1..]);
      var m := Least(Offered(answers[1..]), |d.out|);
      assert d.handed == c.handed + c.out[..n] && d.out == c.out[n..];
      assert n + m == Least(Offered(answers), |c.out|);
      TakenTogether(c.handed, c.out, n, m);
    }
  }

  lemma {:induction false} DrainBreaks(c: Conn, answers: seq<Answer>)
    requires !c.phase.Disconnected?
    ensures var d := Drain(c, answers);
            && (d.phase.Disconnected? <==> WriteBreaks(c.out, answers))
            && (!d.phase.Disconnected? ==> d.phase == c.phase && d.writing == c.writing)
    decreases |answers|
  {
    if c.out == [] {
      NothingToBreak(answers);
    } else if answers != [] {
      WriteBreaksThen(c.out, answers);
      hide WriteBreaks;
      if Takes(answers[0]) {
        var n := Least(answers[0].n, |c.out|);
        DrainBreaks(MaybeResume(c.(handed := c.handed + c.out[..n], out := c.out[n..])), answers[1..]);
        if n == |c.out| {
          NothingToBreak(answers[1..]);
        }
      }
    }
  }

  /** One write event: exactly the bytes the kernel takes leave the front of the buffer, and the connection goes
      exactly when a write that was attempted failed or took nothing. */
  lemma DrainExactly(c: Conn, answers: seq<Answer>)
    requires !c.phase.Disconnected?
    ensures var d, k := Drain(c, answers), Least(Offered(answers), |c.out|);
            && d.handed == c.handed + c.out[..k] && d.out == c.out[k..]
            && (d.phase.Disconnected? <==> WriteBreaks(c.out, answers))
            && (!d.phase.Disconnected? ==> d.phase == c.phase && d.writing == c.writing)
            && d.limit == c.limit && d.policy == c.policy && d.marks == c.marks && d.shut == c.shut && d.lost == c.lost
  {
    hide Drain;
    hide WriteBreaks;
    DrainTakes(c, answers);
    DrainBreaks(c, answers);
    DrainKeeps(c, answers);
  }

  lemma NothingToBreak(answers: seq<Answer>)
    ensures !WriteBreaks([], answers)
  {
  }

  lemma TakenTogether(handed: Bytes, out: Bytes, n: nat, m: nat)
    requires n <= |out| && m <= |out[n..]|
    ensures handed + out[..n] + out[n..][..m] == handed + out[..n + m] && out[n..][m..] == out[n + m..]
  {
    assert out[..n] + out[n..][..m] == out[..n + m];
  }

  /** A write event that would block changes nothing. */
  lemma BlockedWritesNothing(c: Conn)
    requires !c.phase.Disconnected? && c.out != []
    ensures HandleWrite(c, [WouldBlock]) == c
  {
  }

  // ----- what each event does -----

  /** A send on a live connection with nothing waiting is tried at once. */
  predicate TriesAtOnce(c: Conn, e: Event) {
    e.Send? && !c.phase.Disconnected? && e.data != [] && !c.writing && c.out == []
  }

  predicate Writes(c: Conn, e: Event) {
    e.Writable? && c.writing && !c.phase.Disconnected?
  }

  /** Exactly what an event hands to the kernel: what it takes of a send tried at once, or of the buffer. */
  function Handed(c: Conn, e: Event): Bytes {
    if TriesAtOnce(c, e) && e.answer.Took? then e.data[..Least(e.answer.n, |e.data|)]
    else if Writes(c, e) then c.out[..Least(Offered(e.answers), |c.out|)]
    else []
  }

  /** Exactly which events end the connection. */
  ghost predicate Disconnects(c: Conn, e: Event) {
    || e.Close?
    || (TriesAtOnce(c, e) && e.answer.Failed?)
    || (Overflows(c, e) && c.policy.CloseConnection?)
    || (Writes(c, e) && WriteBreaks(c.out, e.answers))
  }

  lemma StepHands(c: Conn, e: Event)
    ensures Step(c, e).handed == c.handed + Handed(c, e)
    ensures Step(c, e).limit == c.limit && Step(c, e).policy == c.policy
  {
    assert c.handed + [] == c.handed;
    match e
    case Send(data, answer) => SendHands(c, data, answer);
    case Writable(answers) => WriteHands(c, answers);
    case _ =>
  }

  lemma SendHands(c: Conn, data: Bytes, answer: Answer)
    ensures var d, e := SendInLoop(c, data, answer), Send(data, answer);
            d.handed == c.handed + Handed(c, e) && d.limit == c.limit && d.policy == c.policy
  {
    assert c.handed + [] == c.handed;
    assert data[..|data|] == data;
  }

  lemma WriteHands(c: Conn, answers: seq<Answer>)
    ensures var d, e := HandleWrite(c, answers), Writable(answers);
            d.handed == c.handed + Handed(c, e) && d.limit == c.limit && d.policy == c.policy
  {
    assert c.handed + [] == c.handed;
    if c.writing {
      if c.phase.Disconnected? {
        assert Drain(c, answers) == c;
      } else {
        DrainExactly(c, answers);
      }
      hide Drain;
      hide WriteBreaks;
      hide Offered;
    }
  }

  /** What waits afterwards: the buffer less what was handed over, and the rest of a send that fits. */
  lemma StepWaits(c: Conn, e: Event)
    ensures !Step(c, e).phase.Disconnected? ==>
              Step(c, e).out ==
                if e.Send? && e.data != [] && !Overflows(c, e) then c.out + Rest(c, e.data, e.answer)
                else if Writes(c, e) then c.out[|Handed(c, e)|..]
                else c.out
  {
    match e
    case Send(data, answer) =>
      SendWaits(c, data, answer);
      hide SendInLoop;
      hide Rest;
    case Writable(answers) =>
      if Writes(c, e) {
        DrainExactly(c, answers);
        hide Drain;
        hide WriteBreaks;
      }
    case _ =>
  }

  lemma SendWaits(c: Conn, data: Bytes, answer: Answer)
    ensures var d, e := SendInLoop(c, data, answer), Send(data, answer);
            !d.phase.Disconnected? ==>
              d.out == if data != [] && !Overflows(c, e) then c.out + Rest(c, data, answer) else c.out
  {
    assert c.out + [] == c.out;
  }

  lemma StepDisconnects(c: Conn, e: Event)
    ensures Step(c, e).phase.Disconnected? <==> c.phase.Disconnected? || Disconnects(c, e)
    ensures Step(c, e).phase.Disconnecting? <==>
              !Step(c, e).phase.Disconnected? && (c.phase.Disconnecting? || e.RequestShutdown?)
  {
    if Writes(c, e) {
      DrainExactly(c, e.answers);
      hide Drain;
      hide WriteBreaks;
    } else if e.Writable? && c.writing {
      assert Drain(c, e.answers) == c;
    }
  }

  /** Event i of a run ends the connection. */
  ghost predicate DisconnectsAt(c0: Conn, es: seq<Event>, i: nat) {
    i < |es| && Disconnects(Run(c0, es[..i]), es[i])
  }

  lemma DisconnectsInit(c0: Conn, es: seq<Event>, i: nat)
    requires es != [] && i != |es| - 1
    ensures DisconnectsAt(c0, es, i) <==> DisconnectsAt(c0, es[..|es| - 1], i)
  {
    hide Run;
    hide Disconnects;
    if i < |es| {
      assert es[..|es| - 1][..i] == es[..i];
    }
  }

  /** In every run, a connection is gone if and only if one of these happened: it was closed, a write that was
      attempted failed, a write event took nothing, or a send overflowed under the closing policy. */
  lemma {:induction false} DisconnectedExactly(c0: Conn, es: seq<Event>)
    requires !c0.phase.Disconnected?
    ensures Run(c0, es).phase.Disconnected? <==> exists i :: DisconnectsAt(c0, es, i)
  {
    hide Step;
    hide Disconnects;
    if es != [] {
      var n := |es| - 1;
      DisconnectedExactly(c0, es[..n]);
      StepDisconnects(Run(c0, es[..n]), es[n]);
      assert DisconnectsAt(c0, es, n) <==> Disconnects(Run(c0, es[..n]), es[n]);
      assert !DisconnectsAt(c0, es[..n], n);
      hide DisconnectsAt;
      forall i: nat | i != n ensures DisconnectsAt(c0, es, i) <==> DisconnectsAt(c0, es[..n], i) {
        DisconnectsInit(c0, es, i);
      }
    }
  }

  // ----- shutting down -----

  lemma StepShuts(c: Conn, e: Event)
    ensures Step(c, e).shut && !c.shut ==> !Step(c, e).phase.Disconnected? && Step(c, e).out == []
  {
    match e
    case Writable(answers) =>
      if c.writing {
        DrainKeeps(c, answers);
      }
    case _ =>
  }

  /** Flow control sets the marks it is given, the low one below the high one; nothing else touches them. */
  lemma MarksExactly(c: Conn, e: Event)
    ensures var m := Step(c, e).marks;
            && (!e.EnableFlow? ==> m == c.marks)
            && (e.EnableFlow? ==> m.high == e.high)
            && (e.EnableFlow? && e.high > 0 ==>
                  if e.low < e.high then m.low == e.low else e.high - 1 <= 2 * m.low <= e.high)
            && (e.EnableFlow? && e.high == 0 ==> m.low == 0)
  {
    if e.Writable? {
      DrainKeeps(c, e.answers);
    }
  }

  lemma {:induction false} DrainReads(c: Conn, answers: seq<Answer>)
    requires !c.phase.Disconnected?
    ensures var d := Drain(c, answers);
            && (d.paused ==> c.paused)
            && (d.phase.Disconnected? ==> !d.reading && !d.writing)
            && (!d.phase.Disconnected? ==> d.reading == (c.reading || (c.paused && !d.paused)))
    decreases |answers|
  {
    if c.out != [] && answers != [] && answers[0].Took? && answers[0].n > 0 {
      var n := Least(answers[0].n, |c.out|);
      DrainReads(MaybeResume(c.(handed := c.handed + c.out[..n], out := c.out[n..])), answers[1..]);
    }
  }

  lemma SendReads(c: Conn, data: Bytes, answer: Answer)
    requires !c.phase.Disconnected?
    ensures var d := SendInLoop(c, data, answer);
            && (d.phase.Disconnected? ==> !d.reading && !d.writing)
            && (!d.phase.Disconnected? ==> d.reading == (c.reading && (d.paused ==> c.paused)))
  {
  }

  lemma WriteReads(c: Conn, answers: seq<Answer>)
    requires !c.phase.Disconnected?
    ensures var d := HandleWrite(c, answers);
            && (d.phase.Disconnected? ==> !d.reading && !d.writing)
            && (!d.phase.Disconnected? ==> d.paused ==> c.paused)
            && (!d.phase.Disconnected? ==> d.reading == (c.reading || (c.paused && !d.paused)))
  {
    DrainReads(c, answers);
    hide Drain;
  }

  /** A connection that goes stops reading and writing. Otherwise it reads exactly as told by the last start or stop of
      reading, except that reading stops with a pause, and a write event that ends the pause starts it again. */
  lemma ReadsExactly(c: Conn, e: Event)
    requires !c.phase.Disconnected?
    ensures var d := Step(c, e);
            if Disconnects(c, e) then !d.reading && !d.writing
            else d.reading == (if e.StartRead? then true else if e.StopRead? then false
                               else if d.paused && !c.paused then false
                               else if e.Writable? && c.paused && !d.paused then true else c.reading)
  {
    StepDisconnects(c, e);
    hide Disconnects;
    match e
    case Send(data, answer) =>
      SendReads(c, data, answer);
      hide SendInLoop;
    case Writable(answers) =>
      WriteReads(c, answers);
      hide HandleWrite;
    case _ =>
  }

  /** Exactly when the write side is shut: by a shutdown that finds nothing waiting, or by the write event that
      empties the buffer of a connection that is shutting down. */
  lemma ShutsExactly(c: Conn, e: Event)
    ensures Step(c, e).shut <==>
              || c.shut
              || (e.ShutdownInLoop? && !c.phase.Disconnected? && !c.writing && c.out == [])
              || (&& Writes(c, e) && c.phase.Disconnecting? && !Disconnects(c, e)
                  && Offered(e.answers) >= |c.out|)
  {
    if Writes(c, e) {
      DrainExactly(c, e.answers);
      hide Drain;
      hide WriteBreaks;
    } else if e.Writable? && c.writing {
      assert Drain(c, e.answers) == c;
    }
  }

  /** The write side is shut down only when everything sent has been handed over. */
  lemma {:induction false} ShutdownComesLast(limit: nat, es: seq<Event>)
    requires es != []
    ensures var before := Run(Established(limit, CloseConnection), es[..|es| - 1]);
            var after := Run(Established(limit, CloseConnection), es);
            after.shut && !before.shut ==> after.handed == Sent(es)
  {
    var before := Run(Established(limit, CloseConnection), es[..|es| - 1]);
    var after := Run(Established(limit, CloseConnection), es);
    StepShuts(before, es[|es| - 1]);
    NothingLost(limit, es);
    assert after.handed + [] == after.handed;
  }

  /** Once shutting down, the write event that empties the buffer shuts the write side. */
  lemma EmptyingShuts(c: Conn, answers: seq<Answer>)
    requires c.writing && c.phase.Disconnecting?
    ensures var d := HandleWrite(c, answers); d.out == [] && !d.phase.Disconnected? ==> d.shut
  {
    DrainPhase(c, answers);
  }

  lemma {:induction false} DrainPhase(c: Conn, answers: seq<Answer>)
    ensures Drain(c, answers).phase == c.phase || Drain(c, answers).phase.Disconnected?
    decreases |answers|
  {
    if !(c.out == [] || answers == [] || c.phase.Disconnected?) && answers[0].Took? && answers[0].n > 0 {
      var k := Least(answers[0].n, |c.out|);
      DrainPhase(MaybeResume(c.(handed := c.handed + c.out[..k], out := c.out[k..])), answers[1..]);
    }
  }

  // ----- flow control -----

  /** Between steps, with marks set: a paused connection has more than the low mark waiting, does not read, and
      will be woken by a write event; one that is not paused has less than the high mark waiting. */
  ghost predicate Steady(c: Conn) {
    && (c.paused ==> c.marks.high > 0)
    && (c.marks.high > 0 && !c.phase.Disconnected? ==>
          && c.marks.low < c.marks.high
          && (c.paused ==> |c.out| > c.marks.low && c.writing && !c.reading)
          && (!c.paused ==> |c.out| < c.marks.high))
  }

  lemma SendSteady(c: Conn, data: Bytes, answer: Answer)
    requires Steady(c) && (!c.phase.Disconnected? ==> (c.writing <==> c.out != []))
    ensures Steady(SendInLoop(c, data, answer))
  {
    if !c.phase.Disconnected? && data != [] && !c.writing && c.out == [] && answer.Took? {
      var k := Least(answer.n, |data|);
      EnqueueSteady(c.(handed := c.handed + data[..k]), data[k..]);
    } else {
      EnqueueSteady(c, data);
    }
  }

  lemma EnqueueSteady(c: Conn, data: Bytes)
    requires Steady(c)
    ensures Steady(Enqueue(c, data))
  {
  }

  lemma {:induction false} DrainSteady(c: Conn, answers: seq<Answer>)
    requires Steady(c) && (c.writing || c.phase.Disconnected?)
    ensures Steady(Drain(c, answers)) && (Drain(c, answers).writing || Drain(c, answers).phase.Disconnected?)
    ensures Drain(c, answers).marks == c.marks
    decreases |answers|
  {
    if !(c.out == [] || answers == [] || c.phase.Disconnected?) && answers[0].Took? && answers[0].n > 0 {
      var k := Least(answers[0].n, |c.out|);
      DrainSteady(MaybeResume(c.(handed := c.handed + c.out[..k], out := c.out[k..])), answers[1..]);
    }
  }

  lemma WriteSteady(c: Conn, answers: seq<Answer>)
    requires Steady(c)
    ensures Steady(HandleWrite(c, answers))
  {
    if c.writing {
      DrainSteady(c, answers);
    }
  }

  /** Every event keeps the connection steady, with two exceptions that are exact: an explicit startRead, and
      setting the marks, keep it so if and only if the backlog is on the right side of the new marks: above the
      low one while paused, below the high one otherwise. */
  lemma StepSteady(c: Conn, e: Event, sent: Bytes)
    requires Steady(c) && Conserved(c, sent)
    ensures !e.StartRead? && !e.EnableFlow? ==> Steady(Step(c, e))
    ensures e.StartRead? ==>
              (Steady(Step(c, e)) <==> c.marks.high == 0 || c.phase.Disconnected? || |c.out| < c.marks.high)
    ensures e.EnableFlow? ==>
              (Steady(Step(c, e)) <==>
                 || e.high == 0 || c.phase.Disconnected?
                 || if c.paused then |c.out| > Step(c, e).marks.low else |c.out| < e.high)
  {
    match e
    case Send(data, answer) => SendSteady(c, data, answer);
    case Writable(answers) => WriteSteady(c, answers);
    case _ =>
  }

  predicate Plain(es: seq<Event>) {
    forall i :: 0 <= i < |es| ==> !es[i].StartRead? && !es[i].EnableFlow?
  }

  /** Flow control set up on a new connection, and no explicit startRead: steady in every run, so reads are
      never paused without a write event to come. */
  lemma {:induction false} FlowControlSteady(limit: nat, policy: Policy, high: nat, low: nat, es: seq<Event>)
    requires Plain(es)
    ensures Steady(Run(Established(limit, policy), [EnableFlow(high, low)] + es))
    decreases |es|
  {
    var c0 := Established(limit, policy);
    var all := [EnableFlow(high, low)] + es;
    if es == [] {
      assert all[..0] == [] && all[0] == EnableFlow(high, low);
    } else {
      var init := es[..|es| - 1];
      assert all[..|all| - 1] == [EnableFlow(high, low)] + init;
      FlowControlSteady(limit, policy, high, low, init);
      RunConserves(limit, policy, all[..|all| - 1]);
      hide Step;
      hide Conserved;
      StepSteady(Run(c0, all[..|all| - 1]), es[|es| - 1], Sent(all[..|all| - 1]));
    }
  }

  /** Marks set below a backlog that is already there: nothing pauses until the next send. */
  lemma MarksSetLate()
    ensures var c := Run(Established(10, Ignore), [Send([7, 7], WouldBlock), EnableFlow(2, 1)]);
            !Steady(c) && c.reading && !c.paused && |c.out| >= c.marks.high > 0
  {
    var c0, sent := Established(10, Ignore), Send([7, 7], WouldBlock);
    RunOne(c0, sent);
    RunMore(c0, [sent], EnableFlow(2, 1));
    assert [sent] + [EnableFlow(2, 1)] == [sent, EnableFlow(2, 1)];
  }

  // ----- reading -----

  /** Alive, not reading, and not because of flow control: no write event will start reading again. */
  predicate Deaf(c: Conn) {
    !c.phase.Disconnected? && !c.reading && !c.paused
  }

  /** What stops reading for good: an explicit stopRead, or switching flow control off while it has paused. */
  predicate Deafens(c: Conn, e: Event) {
    (e.StopRead? && !c.paused) || (e.EnableFlow? && e.high == 0 && c.paused)
  }

  /** Reading is never paused by flow control that is off, nor on while paused. */
  predicate Sober(c: Conn) {
    c.paused ==> c.marks.high > 0 && !c.reading
  }

  lemma {:induction false} DrainDeaf(c: Conn, answers: seq<Answer>)
    requires Sober(c)
    ensures var d := Drain(c, answers);
            && Sober(d) && d.marks == c.marks && (!c.paused ==> !d.paused)
            && (!d.phase.Disconnected? ==> (Deaf(d) <==> Deaf(c)))
    ensures c.phase.Disconnected? ==> Drain(c, answers) == c
    decreases |answers|
  {
    if !(c.out == [] || answers == [] || c.phase.Disconnected?) && answers[0].Took? && answers[0].n > 0 {
      var k := Least(answers[0].n, |c.out|);
      DrainDeaf(MaybeResume(c.(handed := c.handed + c.out[..k], out := c.out[k..])), answers[1..]);
    }
  }

  lemma SendDeaf(c: Conn, data: Bytes, answer: Answer)
    requires Sober(c)
    ensures var d := SendInLoop(c, data, answer);
            Sober(d) && (Deaf(d) <==> !d.phase.Disconnected? && Deaf(c) && !d.paused)
  {
    if !c.phase.Disconnected? && data != [] {
      var d :=
        if !c.writing && c.out == [] && answer.Took? then c.(handed := SendInLoop(c, data, answer).handed) else c;
      EnqueueDeaf(d, Rest(c, data, answer));
    }
  }

  lemma EnqueueDeaf(c: Conn, data: Bytes)
    requires Sober(c) && !c.phase.Disconnected?
    ensures var d := Enqueue(c, data);
            Sober(d) && (Deaf(d) <==> !d.phase.Disconnected? && Deaf(c) && !d.paused)
  {
  }

  /** After one event the connection is deaf if and only if it is alive and either the event stopped reading, or
      it was deaf before and the event was neither a startRead nor a send that made flow control pause it. */
  lemma StepDeaf(c: Conn, e: Event)
    requires Sober(c)
    ensures var d := Step(c, e);
            && Sober(d)
            && (Deaf(d) <==> !d.phase.Disconnected? && (Deafens(c, e) || (Deaf(c) && !e.StartRead? && !d.paused)))
    ensures c.phase.Disconnected? ==> Step(c, e).phase.Disconnected?
  {
    match e
    case Send(data, answer) => SendDeaf(c, data, answer);
    case Writable(answers) =>
      if c.writing {
        DrainDeaf(c, answers);
      }
    case _ =>
  }

  /** Event j of a run neither starts reading nor leaves it paused. */
  predicate NotWoken(c0: Conn, es: seq<Event>, j: nat)
    requires j < |es|
  {
    !es[j].StartRead? && !Run(c0, es[..j + 1]).paused
  }

  /** Reading was stopped at event i of a run, and nothing has started or paused it since. */
  ghost predicate DeafSince(c0: Conn, es: seq<Event>, i: nat) {
    && i < |es| && Deafens(Run(c0, es[..i]), es[i])
    && forall j :: i < j < |es| ==> NotWoken(c0, es, j)
  }

  lemma NotWokenInit(c0: Conn, es: seq<Event>, j: nat)
    requires j < |es|
    ensures j < |es| - 1 ==> (NotWoken(c0, es, j) <==> NotWoken(c0, es[..|es| - 1], j))
    ensures j == |es| - 1 ==> (NotWoken(c0, es, j) <==> !es[j].StartRead? && !Run(c0, es).paused)
  {
    hide Run;
    if j < |es| - 1 {
      assert es[..|es| - 1][..j + 1] == es[..j + 1];
    } else {
      assert es[..j + 1] == es;
    }
  }

  lemma DeafSinceInit(c0: Conn, es: seq<Event>, i: nat)
    requires i < |es| - 1
    ensures DeafSince(c0, es, i) <==>
              DeafSince(c0, es[..|es| - 1], i) && !es[|es| - 1].StartRead? && !Run(c0, es).paused
  {
    hide Run;
    hide Deafens;
    hide NotWoken;
    var n := |es| - 1;
    assert es[..n][..i] == es[..i];
    forall j | 0 <= j < |es|
      ensures j < n ==> (NotWoken(c0, es, j) <==> NotWoken(c0, es[..n], j))
      ensures j == n ==> (NotWoken(c0, es, j) <==> !es[j].StartRead? && !Run(c0, es).paused)
    {
      NotWokenInit(c0, es, j);
    }
    if DeafSince(c0, es, i) {
      assert NotWoken(c0, es, n);
    }
  }

  /** In every run from a new connection: a live connection is deaf if and only if reading was stopped, by stopRead
      or by switching flow control off while it paused, and nothing has started or paused it since. */
  lemma {:induction false} DeafExactly(limit: nat, policy: Policy, es: seq<Event>)
    ensures var c0 := Established(limit, policy);
            var c := Run(c0, es);
            Sober(c) && (Deaf(c) <==> !c.phase.Disconnected? && exists i :: DeafSince(c0, es, i))
  {
    hide Step;
    hide DeafSince;
    hide Deafens;
    var c0, n := Established(limit, policy), |es| - 1;
    if es == [] {
      NoneDeafYet(c0);
    } else {
      var b, c := Run(c0, es[..n]), Run(c0, es);
      DeafExactly(limit, policy, es[..n]);
      StepDeaf(b, es[n]);
      DeafSinceLast(c0, es);
      forall i: nat | i != n ensures DeafSince(c0, es, i) <==>
          DeafSince(c0, es[..n], i) && !es[n].StartRead? && !c.paused {
        if i < n {
          DeafSinceInit(c0, es, i);
        } else {
          NotSince(c0, es, i);
        }
      }
    }
  }

  lemma NoneDeafYet(c0: Conn)
    ensures !exists i :: DeafSince(c0, [], i)
  {
  }

  lemma NotSince(c0: Conn, es: seq<Event>, i: nat)
    requires es != [] && i >= |es|
    ensures !DeafSince(c0, es, i) && !DeafSince(c0, es[..|es| - 1], i)
  {
  }

  lemma DeafSinceLast(c0: Conn, es: seq<Event>)
    requires es != []
    ensures var n := |es| - 1;
            && (DeafSince(c0, es, n) <==> Deafens(Run(c0, es[..n]), es[n]))
            && !DeafSince(c0, es[..n], n)
  {
  }

  /** Switching flow control off while it paused leaves a connection that never reads again by itself: connected,
      its output all written, and neither reading nor writing. */
  lemma SwitchingOffDeafens()
    ensures var es := [EnableFlow(2, 1), Send([7, 7], WouldBlock), EnableFlow(0, 0), Writable([Took(2)])];
            var c := Run(Established(10, Ignore), es);
            c.phase.Connected? && c.out == [] && !c.reading && !c.writing && !c.paused
  {
    var c0 := Established(10, Ignore);
    var on, sent, off, drained := EnableFlow(2, 1), Send([7, 7], WouldBlock), EnableFlow(0, 0), Writable([Took(2)]);
    RunOne(c0, on);
    RunMore(c0, [on], sent);
    RunMore(c0, [on, sent], off);
    RunMore(c0, [on, sent, off], drained);
    assert [on] + [sent] == [on, sent] && [on, sent] + [off] == [on, sent, off];
    assert [on, sent, off] + [drained] == [on, sent, off, drained];
    var c := Run(c0, [on, sent, off]);
    assert c.writing && c.out == [7, 7];
    assert Drain(c, [Took(2)]) == Drain(c.(handed := c.out, out := []), []) by {
      assert [] + c.out[..2] == c.out && c.out[2..] == [] && [Took(2)][1..] == [];
    }
  }

  /** With flow control off, only startRead or switching it on again ends that. */
  lemma {:induction false} StaysDeaf(c: Conn, es: seq<Event>)
    requires Deaf(c) && c.marks.high == 0 && Plain(es)
    ensures var d := Run(c, es); !d.reading && !d.paused && d.marks.high == 0
  {
    hide Step;
    if es != [] {
      var d := Run(c, es[..|es| - 1]);
      StaysDeaf(c, es[..|es| - 1]);
      StepStaysDeaf(d, es[|es| - 1]);
    }
  }

  lemma StepStaysDeaf(c: Conn, e: Event)
    requires !c.reading && !c.paused && c.marks.high == 0 && !e.StartRead? && !e.EnableFlow?
    ensures var d := Step(c, e); !d.reading && !d.paused && d.marks.high == 0
  {
    if e.Writable? {
      DrainStaysDeaf(c, e.answers);
    }
  }

  lemma {:induction false} DrainStaysDeaf(c: Conn, answers: seq<Answer>)
    requires !c.reading && !c.paused && c.marks.high == 0
    ensures var d := Drain(c, answers); !d.reading && !d.paused && d.marks.high == 0
    decreases |answers|
  {
    if !(c.out == [] || answers == [] || c.phase.Disconnected?) && answers[0].Took? && answers[0].n > 0 {
      var k := Least(answers[0].n, |c.out|);
      DrainStaysDeaf(MaybeResume(c.(handed := c.handed + c.out[..k], out := c.out[k..])), answers[1..]);
    }
  }
}
