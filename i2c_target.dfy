/** The I2C target of test_rpi/src/main.c: the five callbacks the bus driver
    invokes on controller requests, over the file-scope state i2creg, i2cidx
    and i2cbuffer, and the publish step of main's loop that overwrites
    str_data. Every callback and every mutex-guarded copy is one atomic
    step.

    The controller reads with repeated START (section 3.1.4 of the NXP I2C-bus
    specification UM10204, START and STOP conditions): each START of a read
    yields one byte, and the STOP that closes the transfer rewinds the read
    cursor. */
module I2CTarget {
  import opened Common
  import opened CString

  /** The state the callbacks and the publish step share: the selected
      register (i2creg), the read cursor (i2cidx, -1 when no read is in
      progress), the per-transfer snapshot (i2cbuffer) and the published
      record (str_data). */
  datatype Engine = Engine(reg: Byte, idx: int, buffer: seq<Byte>, strData: seq<Byte>)

  /** What holds of that state between any two steps: fixed-size buffers, a
      cursor within -1..7, and a published record in strncpy's padded form
      (it is only ever written by strncpy). */
  ghost predicate Inv(e: Engine)
  {
    |e.buffer| == MsgSize && |e.strData| == MsgSize &&
    -1 <= e.idx < MsgSize &&
    Padded(e.strData)
  }

  /** The state at boot: the default register, no read in progress, and the
      zero-initialised static buffers. */
  function Boot(): (e: Engine)
    ensures Inv(e) && e.reg == RegUptime && e.idx == -1
  {
    Engine(RegUptime, -1, Zeros(MsgSize), Zeros(MsgSize))
  }

  /** write_received_cb: every received byte selects the register; selecting
      the uptime register also rewinds the cursor, any other byte leaves the
      cursor where it was. */
  function OnWriteReceived(e: Engine, val: Byte): (r: Engine)
    requires Inv(e)
    ensures Inv(r)
    ensures r.reg == val && r.buffer == e.buffer && r.strData == e.strData
    ensures val == RegUptime ==> r.idx == -1
    ensures val != RegUptime ==> r.idx == e.idx
  {
    if val == RegUptime then e.(reg := val, idx := -1) else e.(reg := val)
  }

  /** The result of read_requested_cb: its return code, the byte stored
      through `val` (None when `*val` is not written) and the new state. */
  datatype ReadOutcome = ReadOutcome(rc: int, sent: Option<Byte>, next: Engine)

  /** read_requested_cb: an unsupported register fails with -EIO and changes
      nothing; the first read of a transfer snapshots str_data into
      i2cbuffer; each read advances the cursor and serves the byte under it,
      until the read past the last byte ends the transfer with -ENOMEM and
      rewinds the cursor. */
  function OnReadRequested(e: Engine): (r: ReadOutcome)
    requires Inv(e)
    ensures Inv(r.next) && r.next.reg == e.reg && r.next.strData == e.strData
    ensures r.rc == 0 || r.rc == -ENOMEM || r.rc == -EIO
    ensures r.rc == -EIO <==> e.reg != RegUptime
    ensures r.rc == -EIO ==> r.next == e && r.sent.None?
    ensures r.rc == -ENOMEM <==> e.reg == RegUptime && e.idx == MsgSize - 1
    ensures r.rc == -ENOMEM ==> r.next.idx == -1 && r.sent.None?
    ensures r.rc == 0 <==> r.sent.Some?
    ensures r.rc == 0 ==> r.next.idx == e.idx + 1 && r.sent.value == r.next.buffer[r.next.idx]
    ensures e.idx >= 0 ==> r.next.buffer == e.buffer
    ensures e.reg == RegUptime && e.idx < 0 ==> r.next.buffer == e.strData
  {
    if e.reg != RegUptime then ReadOutcome(-EIO, None, e)
    else
      PaddedCopiesToItself(e.strData);
      var buffer := if e.idx < 0 then StrNCpy(e.strData, MsgSize) else e.buffer;
      var idx := e.idx + 1;
      if idx == MsgSize then ReadOutcome(-ENOMEM, None, e.(idx := -1, buffer := buffer))
      else ReadOutcome(0, Some(buffer[idx]), e.(idx := idx, buffer := buffer))
  }

  /** stop_cb: rewind the cursor; nothing else changes. */
  function OnStop(e: Engine): (r: Engine)
    requires Inv(e)
    ensures Inv(r) && r.idx == -1
    ensures r.reg == e.reg && r.buffer == e.buffer && r.strData == e.strData
  {
    e.(idx := -1)
  }

  /** The body of main's loop once a message has been taken from out_msgq:
      strncpy it into str_data under the mutex. */
  function OnPublish(e: Engine, msg: seq<Byte>): (r: Engine)
    requires Inv(e) && |msg| == MsgSize
    ensures Inv(r) && r.strData == StrNCpy(msg, MsgSize)
    ensures r.reg == e.reg && r.idx == e.idx && r.buffer == e.buffer
  {
    StrNCpyPadded(msg, MsgSize);
    e.(strData := StrNCpy(msg, MsgSize))
  }

  /** The requests the controller can make, and the publish step of main's
      loop, which may fall between any two of them. */
  datatype Event =
    | WriteRequested
    | WriteReceived(val: Byte)
    | ReadRequested
    | ReadProcessed
    | Stop
    | Publish(msg: seq<Byte>)

  /** What one step hands back: the return code and the byte sent, if any
      (the publish step returns nothing and is given code 0). */
  datatype Reply = Reply(rc: int, sent: Option<Byte>)

  ghost predicate WellFormed(ev: Event)
  {
    ev.Publish? ==> |ev.msg| == MsgSize
  }

  ghost predicate AllWellFormed(evs: seq<Event>)
  {
    forall i :: 0 <= i < |evs| ==> WellFormed(evs[i])
  }

  /** One atomic step. write_requested_cb always returns 0 and
      read_processed_cb always returns -ENOMEM (repeated-START semantics: a
      continued read always needs a new START); neither changes any
      state. */
  function Step(e: Engine, ev: Event): (r: (Engine, Reply))
    requires Inv(e) && WellFormed(ev)
    ensures Inv(r.0)
    ensures ev.WriteRequested? ==> r == (e, Reply(0, None))
    ensures ev.ReadProcessed? ==> r == (e, Reply(-ENOMEM, None))
  {
    match ev
    case WriteRequested => (e, Reply(0, None))
    case WriteReceived(val) => (OnWriteReceived(e, val), Reply(0, None))
    case ReadRequested =>
      var o := OnReadRequested(e);
      (o.next, Reply(o.rc, o.sent))
    case ReadProcessed => (e, Reply(-ENOMEM, None))
    case Stop => (OnStop(e), Reply(0, None))
    case Publish(msg) => (OnPublish(e, msg), Reply(0, None))
  }

  /** A sequence of steps from `e`: the final state and one reply per step.
      Its contract is the invariant every step keeps, in particular
      -1 <= i2cidx <= 7. */
  function Run(e: Engine, evs: seq<Event>): (r: (Engine, seq<Reply>))
    requires Inv(e) && AllWellFormed(evs)
    ensures Inv(r.0) && |r.1| == |evs|
    ensures Publishes(evs) == 0 ==> r.0.strData == e.strData
    decreases |evs|
  {
    if evs == [] then (e, [])
    else
      var (e1, rep) := Step(e, evs[0]);
      var (e2, reps) := Run(e1, evs[1..]);
      (e2, [rep] + reps)
  }

  /** The bytes a sequence of replies delivered to the controller, in
      order. */
  function Sent(reps: seq<Reply>): seq<Byte>
  {
    if reps == [] then []
    else (if reps[0].sent.Some? then [reps[0].sent.value] else []) + Sent(reps[1..])
  }

  /** The number of read requests in a sequence of events. */
  function Reads(evs: seq<Event>): nat
  {
    if evs == [] then 0 else (if evs[0].ReadRequested? then 1 else 0) + Reads(evs[1..])
  }

  /** The number of publish steps in a sequence of events. */
  function Publishes(evs: seq<Event>): nat
  {
    if evs == [] then 0 else (if evs[0].Publish? then 1 else 0) + Publishes(evs[1..])
  }

  /** Events a read transfer may meet between its START conditions: further
      reads, and publishes of new records by main's loop. */
  ghost predicate ReadsAndPublishes(evs: seq<Event>)
  {
    evs == [] ||
    ((evs[0].ReadRequested? || (evs[0].Publish? && |evs[0].msg| == MsgSize)) &&
     ReadsAndPublishes(evs[1..]))
  }

  ghost predicate AllOk(reps: seq<Reply>)
  {
    forall i :: 0 <= i < |reps| ==> reps[i].rc == 0
  }

  /** Once a transfer is under way, reads keep the uptime register
      selected and the snapshot in place, each advances the cursor by one
      and each returns 0, whatever is published meanwhile. */
  lemma {:induction false} ReadsKeepTransfer(e: Engine, evs: seq<Event>)
    requires Inv(e) && e.reg == RegUptime && e.idx >= 0
    requires ReadsAndPublishes(evs) && e.idx + Reads(evs) < MsgSize
    ensures AllWellFormed(evs)
    ensures Run(e, evs).0.reg == RegUptime && Run(e, evs).0.buffer == e.buffer
    ensures Run(e, evs).0.idx == e.idx + Reads(evs)
    ensures AllOk(Run(e, evs).1)
    decreases |evs|
  {
    if evs != [] {
      var ev := evs[0];
      var e1 := Step(e, ev).0;
      assert Reads(evs) == (if ev.ReadRequested? then 1 else 0) + Reads(evs[1..]);
      TransferStep(e, ev);
      assert ReadsAndPublishes(evs[1..]);
      ReadsKeepTransfer(e1, evs[1..]);
      WellFormedCons(ev, evs[1..]);
      assert evs == [ev] + evs[1..];
      RunCons(e, evs);
      AllOkCons(Step(e, ev).1, Run(e1, evs[1..]).1);
    }
  }

  /** Once a transfer is under way, reads serve consecutive bytes of the
      snapshot, whatever is published meanwhile. */
  lemma {:induction false} ReadsServeSnapshot(e: Engine, evs: seq<Event>)
    requires Inv(e) && e.reg == RegUptime && e.idx >= 0
    requires ReadsAndPublishes(evs) && e.idx + Reads(evs) < MsgSize
    ensures AllWellFormed(evs)
    ensures Sent(Run(e, evs).1) == e.buffer[e.idx + 1 .. e.idx + 1 + Reads(evs)]
    decreases |evs|
  {
    ReadsKeepTransfer(e, evs);
    if evs != [] {
      var ev, rest := evs[0], evs[1..];
      var n := if ev.ReadRequested? then 1 else 0;
      var j := e.idx + 1;
      assert Reads(evs) == n + Reads(rest);
      TransferStep(e, ev);
      var e1, rep := Step(e, ev).0, Step(e, ev).1;
      assert ReadsAndPublishes(rest);
      ReadsServeSnapshot(e1, rest);
      RunCons(e, evs);
      SentCons(rep, Run(e1, rest).1);
      SliceCons(e.buffer, j, n, Reads(rest));
    }
  }

  /** A slice is its first `n` bytes followed by the rest. */
  lemma SliceCons(b: seq<Byte>, j: nat, n: nat, m: nat)
    requires n <= 1 && j + n + m <= |b|
    ensures b[j..j + n + m] == (if n == 1 then [b[j]] else []) + b[j + n..j + n + m]
  {
    if n == 1 {
      assert b[j..j + 1 + m] == [b[j]] + b[j + 1..j + 1 + m];
    }
  }

  /** One step inside a read transfer: a read serves the next byte of the
      snapshot, a publish leaves the transfer alone. */
  lemma TransferStep(e: Engine, ev: Event)
    requires Inv(e) && e.reg == RegUptime && e.idx >= 0
    requires ev.ReadRequested? || (ev.Publish? && |ev.msg| == MsgSize)
    requires ev.ReadRequested? ==> e.idx + 1 < MsgSize
    ensures WellFormed(ev)
    ensures Step(e, ev).0.reg == RegUptime && Step(e, ev).0.buffer == e.buffer
    ensures Step(e, ev).0.idx == e.idx + (if ev.ReadRequested? then 1 else 0)
    ensures Step(e, ev).1 == Reply(0, if ev.ReadRequested? then Some(e.buffer[e.idx + 1]) else None)
  {
  }

  lemma SentCons(rep: Reply, reps: seq<Reply>)
    ensures Sent([rep] + reps) == (if rep.sent.Some? then [rep.sent.value] else []) + Sent(reps)
  {
    assert ([rep] + reps)[1..] == reps;
  }

  lemma RunCons(e: Engine, evs: seq<Event>)
    requires Inv(e) && AllWellFormed(evs) && evs != []
    ensures AllWellFormed(evs[1..])
    ensures Run(e, evs) == (Run(Step(e, evs[0]).0, evs[1..]).0,
                            [Step(e, evs[0]).1] + Run(Step(e, evs[0]).0, evs[1..]).1)
  {
    assert AllWellFormed(evs[1..]);
  }

  lemma RunPrepend(e: Engine, ev: Event, evs: seq<Event>)
    requires Inv(e) && WellFormed(ev) && AllWellFormed(evs)
    ensures AllWellFormed([ev] + evs)
    ensures Run(e, [ev] + evs) == (Run(Step(e, ev).0, evs).0,
                                   [Step(e, ev).1] + Run(Step(e, ev).0, evs).1)
  {
    WellFormedCons(ev, evs);
    assert ([ev] + evs)[0] == ev && ([ev] + evs)[1..] == evs;
    RunCons(e, [ev] + evs);
  }

  /** Torn-free read: from a rewound cursor with the uptime register
      selected, a transfer whose first event is a read and which holds eight
      reads serves exactly the record published at the first read, even when
      new records are published between the reads; all eight reads return 0
      and the ninth read ends the transfer with -ENOMEM, sends no byte and
      rewinds the cursor. */
  lemma TornFreeRead(e: Engine, evs: seq<Event>)
    requires Inv(e) && e.reg == RegUptime && e.idx == -1
    requires |evs| > 0 && evs[0].ReadRequested? && ReadsAndPublishes(evs)
    requires Reads(evs) == MsgSize
    ensures AllWellFormed(evs)
    ensures Sent(Run(e, evs).1) == e.strData && AllOk(Run(e, evs).1)
    ensures Run(e, evs).0.idx == MsgSize - 1 && Run(e, evs).0.reg == RegUptime
    ensures var f := Run(e, evs).0;
      OnReadRequested(f) == ReadOutcome(-ENOMEM, None, f.(idx := -1))
  {
    var rep := Reply(0, Some(e.strData[0]));
    var rest := evs[1..];
    var o := OnReadRequested(e);
    assert o.next.buffer == e.strData && o.next.idx == 0 && o.sent == Some(e.strData[0]);
    var e1 := o.next;
    assert Step(e, evs[0]) == (e1, rep);
    assert ReadsAndPublishes(rest);
    assert Reads(evs) == 1 + Reads(rest);
    ReadsKeepTransfer(e1, rest);
    WellFormedCons(evs[0], rest);
    assert evs == [evs[0]] + rest;
    ReadsServeSnapshot(e1, rest);
    RunCons(e, evs);
    SentCons(rep, Run(e1, rest).1);
    SliceCons(e.strData, 0, 1, MsgSize - 1);
    AllOkCons(rep, Run(e1, rest).1);
  }

  /** `n` read requests in a row. */
  function ReadsOnly(n: nat): (evs: seq<Event>)
    ensures |evs| == n && Reads(evs) == n && Publishes(evs) == 0 && ReadsAndPublishes(evs)
  {
    if n == 0 then [] else [ReadRequested] + ReadsOnly(n - 1)
  }

  /** While an unsupported register is selected, every read fails with -EIO,
      sends nothing and changes nothing. */
  lemma {:induction false} UnsupportedReadsFail(e: Engine, n: nat)
    requires Inv(e) && e.reg != RegUptime
    ensures AllWellFormed(ReadsOnly(n))
    ensures var (f, reps) := Run(e, ReadsOnly(n));
      f == e && Sent(reps) == [] &&
      forall i :: 0 <= i < n ==> reps[i] == Reply(-EIO, None)
  {
    if n > 0 {
      UnsupportedReadsFail(e, n - 1);
      assert ReadsOnly(n)[1..] == ReadsOnly(n - 1);
    }
  }

  /** The uptime transfer a controller performs with repeated START: select
      the uptime register, read eight bytes, STOP. It delivers the published
      record exactly as stored, padding included, and leaves no read in
      progress; this holds wherever the cursor was before. */
  lemma UptimeTransfer(e: Engine)
    requires Inv(e)
    ensures AllWellFormed(UptimeRequest())
    ensures var r := Run(e, UptimeRequest());
      Sent(r.1) == e.strData && AllOk(r.1) &&
      r.0.idx == -1 && r.0.reg == RegUptime && r.0.strData == e.strData
  {
    var tail := ReadsOnly(MsgSize) + [Stop];
    var evs := UptimeRequest();
    var e1 := OnWriteReceived(e, RegUptime);
    EightReadsThenStop(e1);
    RunPrepend(e, WriteReceived(RegUptime), tail);
    assert Step(e, WriteReceived(RegUptime)) == (e1, Reply(0, None));
    var rest := Run(e1, tail).1;
    SentCons(Reply(0, None), rest);
    AllOkCons(Reply(0, None), rest);
  }

  lemma WellFormedCons(ev: Event, evs: seq<Event>)
    requires WellFormed(ev) && AllWellFormed(evs)
    ensures AllWellFormed([ev] + evs)
  {
    forall i | 0 <= i < 1 + |evs|
      ensures WellFormed(([ev] + evs)[i])
    {
      if i > 0 {
        assert ([ev] + evs)[i] == evs[i - 1];
      }
    }
  }

  lemma AllOkCons(rep: Reply, reps: seq<Reply>)
    requires rep.rc == 0 && AllOk(reps)
    ensures AllOk([rep] + reps)
  {
    forall i | 0 <= i < 1 + |reps|
      ensures ([rep] + reps)[i].rc == 0
    {
      if i > 0 {
        assert ([rep] + reps)[i] == reps[i - 1];
      }
    }
  }

  /** The body of an uptime transfer once the register is selected. */
  lemma EightReadsThenStop(e: Engine)
    requires Inv(e) && e.reg == RegUptime && e.idx == -1
    ensures AllWellFormed(ReadsOnly(MsgSize) + [Stop])
    ensures var r := Run(e, ReadsOnly(MsgSize) + [Stop]);
      Sent(r.1) == e.strData && AllOk(r.1) &&
      r.0.idx == -1 && r.0.reg == RegUptime && r.0.strData == e.strData
  {
    var rds := ReadsOnly(MsgSize);
    TornFreeRead(e, rds);
    var r8 := Run(e, rds);
    StopAlone(r8.0);
    RunAppend(e, rds, [Stop]);
    SentAppend(r8.1, [Reply(0, None)]);
    SentCons(Reply(0, None), []);
    AllOkSnoc(r8.1, Reply(0, None));
  }

  /** A lone STOP rewinds the cursor and returns 0. */
  lemma StopAlone(e: Engine)
    requires Inv(e)
    ensures AllWellFormed([Stop])
    ensures Run(e, [Stop]) == (OnStop(e), [Reply(0, None)])
  {
    assert AllWellFormed([]);
    RunPrepend(e, Stop, []);
    assert [Stop] + [] == [Stop];
    assert Step(e, Stop) == (OnStop(e), Reply(0, None));
    assert Run(OnStop(e), []) == (OnStop(e), []);
    assert [Reply(0, None)] + [] == [Reply(0, None)];
  }

  lemma AllOkSnoc(reps: seq<Reply>, rep: Reply)
    requires AllOk(reps) && rep.rc == 0
    ensures AllOk(reps + [rep])
  {
    forall i | 0 <= i < |reps| + 1
      ensures (reps + [rep])[i].rc == 0
    {
      if i < |reps| {
        assert (reps + [rep])[i] == reps[i];
      }
    }
  }

  /** The request sequence of an uptime read with repeated START: select
      the uptime register, eight single-byte reads, STOP. */
  function UptimeRequest(): (evs: seq<Event>)
    ensures |evs| == MsgSize + 2
  {
    [WriteReceived(RegUptime)] + (ReadsOnly(MsgSize) + [Stop])
  }

  /** STOP is idempotent, and the first read after it takes a fresh snapshot
      and serves its byte 0. */
  lemma StopRewinds(e: Engine)
    requires Inv(e) && e.reg == RegUptime
    ensures OnStop(OnStop(e)) == OnStop(e)
    ensures var o := OnReadRequested(OnStop(e));
      o.rc == 0 && o.sent == Some(e.strData[0]) && o.next.idx == 0 && o.next.buffer == e.strData
  {
  }

  /** Running two sequences one after the other is running their
      concatenation. */
  lemma {:induction false} RunAppend(e: Engine, a: seq<Event>, b: seq<Event>)
    requires Inv(e) && AllWellFormed(a) && AllWellFormed(b)
    ensures AllWellFormed(a + b)
    ensures Run(e, a + b) == (Run(Run(e, a).0, b).0, Run(e, a).1 + Run(Run(e, a).0, b).1)
    decreases |a|
  {
    assert AllWellFormed(a + b);
    if a == [] {
      assert a + b == b;
      assert Run(e, a) == (e, []);
      assert [] + Run(e, b).1 == Run(e, b).1;
    } else {
      var a0, a' := a[0], a[1..];
      assert a == [a0] + a' && a + b == [a0] + (a' + b);
      assert WellFormed(a0) && AllWellFormed(a');
      var e1, rep := Step(e, a0).0, Step(e, a0).1;
      RunAppend(e1, a', b);
      RunPrepend(e, a0, a' + b);
      RunPrepend(e, a0, a');
      var ra, f := Run(e1, a').1, Run(e1, a').0;
      assert [rep] + (ra + Run(f, b).1) == ([rep] + ra) + Run(f, b).1;
    }
  }

  lemma {:induction false} SentAppend(a: seq<Reply>, b: seq<Reply>)
    ensures Sent(a + b) == Sent(a) + Sent(b)
    decreases |a|
  {
    if a != [] {
      assert (a + b)[1..] == a[1..] + b;
      SentAppend(a[1..], b);
    } else {
      assert a + b == b;
    }
  }

  /** The file-scope state of main.c as the firmware holds it: the two
      8-byte static arrays are updated in place. */
  class Target {
    var reg: Byte
    var idx: int
    var buffer: array<Byte>
    var strData: array<Byte>

    ghost function State(): Engine
      reads this, buffer, strData
    {
      Engine(reg, idx, buffer[..], strData[..])
    }

    ghost predicate Valid()
      reads this, buffer, strData
    {
      buffer.Length == MsgSize && strData.Length == MsgSize && buffer != strData &&
      Inv(State())
    }

    /** The static initialisation: I2C_REG_DEFAULT, i2cidx = -1, zeroed
        buffers. */
    constructor ()
      ensures Valid() && State() == Boot()
      ensures fresh(buffer) && fresh(strData)
    {
      reg := RegUptime;
      idx := -1;
      buffer := new Byte[MsgSize](_ => 0);
      strData := new Byte[MsgSize](_ => 0);
    }

    /** write_requested_cb. */
    method WriteRequested() returns (rc: int)
      ensures rc == 0
    {
      rc := 0;
    }

    /** write_received_cb. */
    method WriteReceived(val: Byte) returns (rc: int)
      requires Valid()
      modifies this
      ensures Valid() && buffer == old(buffer) && strData == old(strData)
      ensures rc == 0 && State() == OnWriteReceived(old(State()), val)
    {
      reg := val;
      if val == RegUptime {
        idx := -1;
      }
      rc := 0;
    }

    /** read_requested_cb; `val` is None when `*val` is left unwritten. The
        snapshot is strncpy under str_data_mutex. */
    method ReadRequested() returns (rc: int, val: Option<Byte>)
      requires Valid()
      modifies this`idx, buffer
      ensures Valid()
      ensures var o := OnReadRequested(old(State()));
        State() == o.next && rc == o.rc && val == o.sent
    {
      if reg != RegUptime {
        return -EIO, None;
      }
      if idx < 0 {
        StrNCpyInto(buffer, strData, MsgSize);
      }
      idx := idx + 1;
      if idx == MsgSize {
        idx := -1;
        return -ENOMEM, None;
      }
      rc, val := 0, Some(buffer[idx]);
    }

    /** read_processed_cb. */
    method ReadProcessed() returns (rc: int)
      ensures rc == -ENOMEM
    {
      rc := -ENOMEM;
    }

    /** stop_cb. */
    method Stop() returns (rc: int)
      requires Valid()
      modifies this`idx
      ensures Valid() && rc == 0 && State() == OnStop(old(State()))
    {
      idx := -1;
      rc := 0;
    }

    /** The publish step of main's loop: strncpy the received message into
        str_data under str_data_mutex. */
    method Publish(msg: array<Byte>)
      requires Valid() && msg.Length == MsgSize && msg != strData
      modifies strData
      ensures Valid() && State() == OnPublish(old(State()), old(msg[..]))
    {
      StrNCpyInto(strData, msg, MsgSize);
      StrNCpyPadded(msg[..], MsgSize);
    }
  }
}
