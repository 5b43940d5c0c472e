/** The path of one uptime value through test_rpi: rendered by the
    processing thread, put on out_msgq, taken and published into str_data by
    main's loop, and read back by an I2C controller. */
module Pipeline {
  import opened Common
  import opened CString
  import opened Processing
  import opened I2CTarget
  import MsgQueue

  /** The published record for value `n`: its decimal text, cut to seven
      characters, padded with NUL to the 8-byte field. */
  function Field(n: nat): (f: seq<Byte>)
    ensures |f| == MsgSize
  {
    Truncated(n) + Zeros(MsgSize - |Truncated(n)|)
  }

  /** Publishing the rendered data_out leaves in str_data the value's text
      followed only by NUL bytes: strncpy drops the stale tail that
      snprintf left behind the terminator. */
  lemma PublishedRecord(prev: seq<Byte>, n: nat)
    requires |prev| == MsgSize && n <= IntMax
    ensures StrNCpy(Rendered(prev, n), MsgSize) == Field(n)
  {
    var r := Rendered(prev, n);
    var k := |Truncated(n)|;
    StrNLenFirstNul(r, MsgSize, k);
    StrNCpyShape(r, MsgSize);
  }

  /** The published record holds a terminated C string; up to 9999999 it is
      the full decimal text, which reads back as the value. */
  lemma {:induction false} FieldReadsBack(n: nat)
    ensures Padded(Field(n)) && 0 in Field(n)
    ensures CStr(Field(n)) == Truncated(n)
    ensures n <= 9999999 ==> CStr(Field(n)) == Decimal(n) && Value(CStr(Field(n))) == n
  {
    var f := Field(n);
    var t := Truncated(n);
    StrNLenFirstNul(f, |f|, |t|);
    assert f[|t|] == 0;
    NoTruncation(n);
    ValueOfDecimal(n);
    assert forall i :: 0 <= i < |t| ==> f[i] == t[i] && IsDigit(t[i]);
    assert forall j :: |t| <= j < |f| ==> f[j] == 0;
  }

  /** End to end: the value taken by the processing thread, put on an empty
      out_msgq, taken by main's loop and published, is what the next uptime
      transfer (select register, eight reads, STOP) delivers, whatever the
      engine's state and data_out's stale bytes were. */
  lemma ValueReachesController(e: Engine, prev: seq<Byte>, n: nat)
    requires Inv(e) && |prev| == MsgSize && n <= IntMax
    ensures var msg := MsgQueue.Take(MsgQueue.TryPut(None, Rendered(prev, n))).0;
      |msg| == MsgSize &&
      Sent(Run(OnPublish(e, msg), UptimeRequest()).1) == Field(n) &&
      AllOk(Run(OnPublish(e, msg), UptimeRequest()).1)
  {
    var msg := Rendered(prev, n);
    PublishedRecord(prev, n);
    UptimeTransfer(OnPublish(e, msg));
  }

  /** The record for 42 is the two characters '4' '2' and six NUL bytes,
      and that is exactly what the controller reads. */
  lemma Scenario42(e: Engine, prev: seq<Byte>)
    requires Inv(e) && |prev| == MsgSize
    ensures Field(42) == [52, 50, 0, 0, 0, 0, 0, 0]
    ensures Sent(Run(OnPublish(e, Rendered(prev, 42)), UptimeRequest()).1)
         == [52, 50, 0, 0, 0, 0, 0, 0]
  {
    FieldOf42();
    ValueReachesController(e, prev, 42);
    assert MsgQueue.Take(MsgQueue.TryPut(None, Rendered(prev, 42))).0 == Rendered(prev, 42);
  }

  lemma FieldOf42()
    ensures Field(42) == [52, 50, 0, 0, 0, 0, 0, 0]
  {
    assert Decimal(4) == [52];
    assert Decimal(42) == Decimal(4) + [50];
    assert Truncated(42) == [52, 50];
  }

  /** An eight-digit uptime (past 115 days) loses its last digit: the
      controller reads 1234567 for 12345678. */
  lemma TruncatedUptime()
    ensures Field(12345678) == [49, 50, 51, 52, 53, 54, 55, 0]
    ensures Value(CStr(Field(12345678))) == 1234567
  {
    var d7 := [49, 50, 51, 52, 53, 54, 55];
    DecimalOf12345678();
    assert Truncated(12345678) == d7;
    assert Field(12345678) == d7 + [0];
    FieldReadsBack(12345678);
    ValueOfDecimal(1234567);
  }

  lemma DecimalOf12345678()
    ensures Decimal(1234567) == [49, 50, 51, 52, 53, 54, 55]
    ensures Decimal(12345678) == [49, 50, 51, 52, 53, 54, 55, 56]
  {
    assert Decimal(1) == [49];
    assert Decimal(12) == Decimal(1) + [50];
    assert Decimal(123) == Decimal(12) + [51];
    assert Decimal(1234) == Decimal(123) + [52];
    assert Decimal(12345) == Decimal(1234) + [53];
    assert Decimal(123456) == Decimal(12345) + [54];
    assert Decimal(1234567) == Decimal(123456) + [55];
    assert Decimal(12345678) == Decimal(1234567) + [56];
  }

  /** A controller's uptime read against the target, as the i2cuptime
      shell command issues it: select the uptime register, eight reads each
      with its own START, STOP. It returns the bytes read, which are the
      published record. */
  method ReadUptime(target: Target) returns (bytes: seq<Byte>)
    requires target.Valid()
    modifies target, target.buffer
    ensures target.Valid() && target.idx == -1 && target.reg == RegUptime
    ensures target.strData == old(target.strData) && bytes == old(target.strData[..])
  {
    var rc := target.WriteReceived(RegUptime);
    bytes := [];
    var count := 0;
    while count < MsgSize
      invariant 0 <= count <= MsgSize && target.Valid()
      invariant target.reg == RegUptime && target.idx == count - 1
      invariant target.strData == old(target.strData) && target.buffer == old(target.buffer)
      invariant target.strData[..] == old(target.strData[..])
      invariant count > 0 ==> target.buffer[..] == target.strData[..]
      invariant bytes == target.strData[..count]
    {
      ghost var before := target.State();
      var val;
      rc, val := target.ReadRequested();
      assert val == OnReadRequested(before).sent == Some(target.strData[count]);
      bytes := bytes + [val.value];
      count := count + 1;
    }
    rc := target.Stop();
  }

  /** debounce_expired once the debounce delay has passed: if the button is
      still pressed, try-put the uptime in seconds on in_msgq. A pending
      value is kept and the new one dropped; a released button sends
      nothing. */
  function DebounceExpired(inq: Option<nat>, pressed: bool, uptime: nat): (r: Option<nat>)
    ensures !pressed ==> r == inq
    ensures pressed ==> r.Some? && (inq.None? ==> r.value == uptime) && (inq.Some? ==> r == inq)
  {
    if pressed then MsgQueue.TryPut(inq, uptime) else inq
  }

  /** The firmware from boot, as a client of the two classes: a press held
      past the debounce delay queues the uptime `n`, the processing thread
      renders it and puts data_out on out_msgq, main's loop takes the
      message and publishes it, and a controller reads the uptime register.
      The controller receives the published record for `n`. */
  method PressAndRead(n: nat) returns (bytes: seq<Byte>)
    requires n <= IntMax
    ensures bytes == Field(n)
  {
    var target := new Target();
    var worker := new Processor();
    worker.inq := DebounceExpired(worker.inq, true, n);
    worker.Iterate();
    assert worker.outq == Some(Rendered(Zeros(MsgSize), n));
    var taken := MsgQueue.Take(worker.outq);
    var msg := taken.0;
    worker.outq := taken.1;
    var local := new Byte[MsgSize](k requires 0 <= k < MsgSize => msg[k]);
    assert local[..] == msg;
    target.Publish(local);
    PublishedRecord(Zeros(MsgSize), n);
    bytes := ReadUptime(target);
  }
}
