/** start_core1 in blinky_two_cores/src/main.c: core 0 launches core 1
    through the RP2040 bootrom protocol (section 2.8.2 of the RP2040
    datasheet, "Launching code on processor core 1"). It sends six command
    words one at a time over the inter-core mailbox and waits for each echo;
    an exact echo moves on to the next word, anything else restarts the
    sequence from the first word. The received words are an input
    sequence. */
module Core1Launch {

  /** A 32-bit mailbox word. The loop compares the uint32_t command word
      with the int it received, which C converts to unsigned, so the two are
      compared as 32-bit words. */
  type Word = w: int | 0 <= w < 0x1_0000_0000

  /** The command sequence: 0, 0, 1, the vector table, the initial stack
      pointer and the entry point of core 1. */
  function LaunchCommands(vectorTable: Word, stackPtr: Word, entry: Word): (cmd: seq<Word>)
    ensures |cmd| == 6 && cmd[..3] == [0, 0, 1]
  {
    [0, 0, 1, vectorTable, stackPtr, entry]
  }

  /** The index `i` of the loop after it has consumed the echoes `ws`, in
      order. At |cmd| the loop has exited and later words are not read. */
  function Index(cmd: seq<Word>, ws: seq<Word>): (i: nat)
    ensures i <= |cmd|
    decreases |ws|
  {
    if ws == [] then 0
    else
      var i := Index(cmd, ws[..|ws| - 1]);
      if i == |cmd| then i
      else if cmd[i] == ws[|ws| - 1] then i + 1
      else 0
  }

  /** The loop was still running before each of the words `ws`: it had not
      reached |cmd| on any proper prefix. */
  ghost predicate Running(cmd: seq<Word>, ws: seq<Word>)
  {
    forall j :: 0 <= j < |ws| ==> Index(cmd, ws[..j]) < |cmd|
  }

  /** While the loop runs, the last `i` words received are exactly the
      first `i` command words. */
  lemma {:induction false} EchoedPrefix(cmd: seq<Word>, ws: seq<Word>)
    requires Running(cmd, ws)
    ensures Index(cmd, ws) <= |ws|
    ensures ws[|ws| - Index(cmd, ws)..] == cmd[..Index(cmd, ws)]
    decreases |ws|
  {
    if ws != [] {
      var p := ws[..|ws| - 1];
      assert Running(cmd, p) by {
        forall j | 0 <= j < |p|
          ensures Index(cmd, p[..j]) < |cmd|
        {
          assert p[..j] == ws[..j];
        }
      }
      EchoedPrefix(cmd, p);
      assert ws[..|p|] == p;
      var i := Index(cmd, p);
      if cmd[i] == ws[|ws| - 1] {
        assert ws[|ws| - (i + 1)..] == p[|p| - i..] + [ws[|ws| - 1]];
        assert cmd[..i + 1] == cmd[..i] + [cmd[i]];
      }
    }
  }

  /** The loop exits only after the full command sequence was echoed: the
      last |cmd| words received are the commands, in order. */
  lemma LaunchedOnlyAfterFullEcho(cmd: seq<Word>, ws: seq<Word>)
    requires Running(cmd, ws) && Index(cmd, ws) == |cmd|
    ensures |ws| >= |cmd| && ws[|ws| - |cmd|..] == cmd
  {
    EchoedPrefix(cmd, ws);
  }

  /** A mismatch forgets all earlier progress: whatever comes after it is
      handled exactly as by a loop that has just started. */
  lemma {:induction false} MismatchRestarts(cmd: seq<Word>, p: seq<Word>, w: Word, q: seq<Word>)
    requires Index(cmd, p) < |cmd| && cmd[Index(cmd, p)] != w
    ensures Index(cmd, p + [w] + q) == Index(cmd, q)
    decreases |q|
  {
    if q == [] {
      assert (p + [w] + q)[..|p|] == p;
    } else {
      var q' := q[..|q| - 1];
      MismatchRestarts(cmd, p, w, q');
      assert (p + [w] + q)[..|p + [w] + q| - 1] == p + [w] + q';
    }
  }

  /** Each exact echo advances the index by one: after the echoes of the
      next `m` commands the loop is `m` words further on. */
  lemma {:induction false} EchoesAdvance(cmd: seq<Word>, p: seq<Word>, m: nat)
    requires Index(cmd, p) + m <= |cmd|
    ensures Index(cmd, p + cmd[Index(cmd, p)..Index(cmd, p) + m]) == Index(cmd, p) + m
  {
    var i := Index(cmd, p);
    if m == 0 {
      assert p + cmd[i..i] == p;
    } else {
      EchoesAdvance(cmd, p, m - 1);
      var ws := p + cmd[i..i + m];
      assert ws[..|ws| - 1] == p + cmd[i..i + m - 1];
    }
  }

  /** From any point where the loop is at index `i`, the echoes of the
      remaining commands cmd[i..] complete the launch, and the loop does not
      exit before the last of them. */
  lemma EchoesComplete(cmd: seq<Word>, p: seq<Word>)
    requires Index(cmd, p) < |cmd|
    ensures Index(cmd, p + cmd[Index(cmd, p)..]) == |cmd|
    ensures forall j :: |p| <= j < |p| + |cmd| - Index(cmd, p) ==>
      Index(cmd, (p + cmd[Index(cmd, p)..])[..j]) < |cmd|
  {
    var i := Index(cmd, p);
    EchoesAdvance(cmd, p, |cmd| - i);
    assert cmd[i..i + (|cmd| - i)] == cmd[i..];
    forall j | |p| <= j < |p| + |cmd| - i
      ensures Index(cmd, (p + cmd[i..])[..j]) < |cmd|
    {
      EchoesAdvance(cmd, p, j - |p|);
      assert (p + cmd[i..])[..j] == p + cmd[i..i + (j - |p|)];
    }
  }

  /** start_core1 over the echoes the mailbox delivers. Each iteration sends
      cmd[i] and consumes one echo; the loop exits when i reaches 6. `sent`
      is the words sent, one per echo consumed; when the echoes run out
      before the launch completes, the firmware would block in k_msgq_get
      for ever, and the method returns with i < 6. */
  method StartCore1(vectorTable: Word, stackPtr: Word, entry: Word, echoes: seq<Word>)
    returns (i: nat, sent: seq<Word>)
    ensures |sent| <= |echoes| && i <= 6
    ensures i == 6 || |sent| == |echoes|
    ensures i == Index(LaunchCommands(vectorTable, stackPtr, entry), echoes[..|sent|])
    ensures forall j :: 0 <= j < |sent| ==>
      Index(LaunchCommands(vectorTable, stackPtr, entry), echoes[..j]) < 6 &&
      sent[j] == LaunchCommands(vectorTable, stackPtr, entry)[Index(LaunchCommands(vectorTable, stackPtr, entry), echoes[..j])]
    ensures i == 6 ==>
      (|sent| >= 6 && echoes[|sent| - 6..|sent|] == LaunchCommands(vectorTable, stackPtr, entry))
  {
    var cmd := LaunchCommands(vectorTable, stackPtr, entry);
    i, sent := 0, [];
    while i < |cmd| && |sent| < |echoes|
      invariant |sent| <= |echoes|
      invariant i == Index(cmd, echoes[..|sent|])
      invariant forall j :: 0 <= j < |sent| ==>
        Index(cmd, echoes[..j]) < |cmd| && sent[j] == cmd[Index(cmd, echoes[..j])]
      decreases |echoes| - |sent|
    {
      var n := |sent|;
      sent := sent + [cmd[i]];
      var recv := echoes[n];
      i := if cmd[i] == recv then i + 1 else 0;
      assert echoes[..n + 1][..n] == echoes[..n];
    }
    if i == |cmd| {
      var ws := echoes[..|sent|];
      assert Running(cmd, ws) by {
        forall j | 0 <= j < |ws|
          ensures Index(cmd, ws[..j]) < |cmd|
        {
          assert ws[..j] == echoes[..j];
        }
      }
      LaunchedOnlyAfterFullEcho(cmd, ws);
    }
  }
}
