/** The processing thread of test_rpi/src/processing.c: each value taken
    from the input queue is rendered with snprintf(data_out, 8, "%d", data)
    into the static 8-byte data_out, and data_out is then put on the output
    queue without waiting. */
module Processing {
  import opened Common
  import opened CString
  import MsgQueue

  predicate IsDigit(b: Byte)
  {
    Zero <= b < Zero + 10
  }

  predicate AllDigits(s: seq<Byte>)
  {
    forall i :: 0 <= i < |s| ==> IsDigit(s[i])
  }

  /** What `%d` prints for a non-negative value: its decimal digits, most
      significant first, with no leading zero, and "0" for zero. */
  function Decimal(n: nat): (s: seq<Byte>)
    ensures 1 <= |s| && AllDigits(s)
    ensures s[0] == Zero <==> n == 0
    ensures n == 0 ==> s == [Zero]
  {
    if n < 10 then [Zero + n] else Decimal(n / 10) + [Zero + n % 10]
  }

  /** The number a string of decimal digits denotes. */
  function Value(s: seq<Byte>): nat
    requires AllDigits(s)
  {
    if s == [] then 0 else Value(s[..|s| - 1]) * 10 + (s[|s| - 1] - Zero)
  }

  /** A canonical decimal numeral: digits only, and no leading zero unless
      it is "0". */
  predicate Canonical(s: seq<Byte>)
  {
    1 <= |s| && AllDigits(s) && (s[0] == Zero ==> |s| == 1)
  }

  /** Reading the printed digits back gives the value printed. */
  lemma {:induction false} ValueOfDecimal(n: nat)
    ensures Value(Decimal(n)) == n
  {
    if n >= 10 {
      var d := Decimal(n);
      ValueOfDecimal(n / 10);
      assert d[..|d| - 1] == Decimal(n / 10);
    }
  }

  /** Every canonical numeral is what `%d` prints for its value, so
      Decimal is a bijection between values and canonical numerals. */
  lemma {:induction false} DecimalOfValue(s: seq<Byte>)
    requires Canonical(s)
    ensures Decimal(Value(s)) == s
    decreases |s|
  {
    if |s| > 1 {
      var p := s[..|s| - 1];
      assert Canonical(p);
      ValuePositive(p);
      DecimalOfValue(p);
      assert s == p + [s[|s| - 1]];
    } else {
      assert s[..0] == [];
    }
  }

  /** A numeral that does not start with '0' denotes a positive value. */
  lemma {:induction false} ValuePositive(s: seq<Byte>)
    requires 1 <= |s| && AllDigits(s) && s[0] != Zero
    ensures Value(s) >= 1
    decreases |s|
  {
    if |s| > 1 {
      ValuePositive(s[..|s| - 1]);
    } else {
      assert s[..0] == [];
    }
  }

  function Pow10(k: nat): (p: nat)
    ensures p >= 1
  {
    if k == 0 then 1 else 10 * Pow10(k - 1)
  }

  /** `n` prints in at most `k` characters exactly when n < 10^k. */
  lemma {:induction false} DecimalLength(n: nat, k: nat)
    requires k >= 1
    ensures |Decimal(n)| <= k <==> n < Pow10(k)
    decreases n
  {
    if n >= 10 {
      if k == 1 {
        assert |Decimal(n)| >= 2;
      } else {
        DecimalLength(n / 10, k - 1);
        assert n / 10 < Pow10(k - 1) <==> n < 10 * Pow10(k - 1);
      }
    } else {
      assert Pow10(k) >= 10 by {
        assert Pow10(k) == 10 * Pow10(k - 1);
      }
    }
  }

  /** The 8-byte buffer keeps 7 characters and the terminator, so the text
      is cut exactly when the value exceeds 9999999. */
  lemma NoTruncation(n: nat)
    ensures |Decimal(n)| <= MsgSize - 1 <==> n <= 9999999
  {
    DecimalLength(n, 7);
    assert Pow10(7) == 10000000;
  }

  /** The characters snprintf(data_out, 8, "%d", n) keeps: at most seven. */
  function Truncated(n: nat): (t: seq<Byte>)
    ensures |t| == Min(|Decimal(n)|, MsgSize - 1)
    ensures t == Decimal(n)[..|t|] && AllDigits(t)
  {
    Decimal(n)[..Min(|Decimal(n)|, MsgSize - 1)]
  }

  /** data_out after snprintf(data_out, 8, "%d", n) over its previous
      contents `prev`: the text, a NUL, and whatever the buffer held beyond
      the NUL (the buffer is static, so those bytes are stale). */
  function Rendered(prev: seq<Byte>, n: nat): (r: seq<Byte>)
    requires |prev| == MsgSize && n <= IntMax
    ensures |r| == MsgSize
    ensures CStr(r) == Truncated(n)
    ensures r[|Truncated(n)|] == 0
    ensures r[|Truncated(n)| + 1..] == prev[|Truncated(n)| + 1..]
  {
    var t := Truncated(n);
    var r := t + [0] + prev[|t| + 1..];
    StrNLenFirstNul(r, |r|, |t|);
    r
  }

  /** The state of data_process: the static data_out and the two queues it
      is given, in_msgq (p1) and out_msgq (p2). */
  class Processor {
    var dataOut: array<Byte>
    var inq: Option<nat>
    var outq: Option<seq<Byte>>

    ghost predicate Valid()
      reads this
    {
      dataOut.Length == MsgSize
    }

    constructor ()
      ensures Valid() && fresh(dataOut)
      ensures dataOut[..] == Zeros(MsgSize) && inq == None && outq == None
    {
      dataOut := new Byte[MsgSize](_ => 0);
      inq, outq := None, None;
    }

    /** One pass of the loop in data_process, once k_msgq_get has a value:
        take it, render it into data_out in place, and try-put the whole
        8-byte data_out on the output queue. A full output queue keeps its
        pending message and this one is dropped. */
    method Iterate()
      requires Valid() && inq.Some? && inq.value <= IntMax
      modifies this`inq, this`outq, dataOut
      ensures Valid() && inq == None
      ensures dataOut[..] == Rendered(old(dataOut[..]), old(inq.value))
      ensures outq == MsgQueue.TryPut(old(outq), dataOut[..])
    {
      var data := MsgQueue.Take(inq).0;
      inq := None;
      assert data == old(inq.value);
      var text := Decimal(data);
      var k := Min(|text|, MsgSize - 1);
      for j := 0 to k
        invariant dataOut[..j] == text[..j]
        invariant forall i :: j <= i < MsgSize ==> dataOut[i] == old(dataOut[i])
        invariant inq == None && outq == old(outq)
      {
        dataOut[j] := text[j];
      }
      dataOut[k] := 0;
      assert dataOut[..] == Rendered(old(dataOut[..]), data) by {
        assert Truncated(data) == text[..k];
        assert dataOut[..] == dataOut[..k] + [0] + dataOut[k + 1..];
        assert dataOut[k + 1..] == old(dataOut[..])[k + 1..];
      }
      outq := MsgQueue.TryPut(outq, dataOut[..]);
    }
  }
}
