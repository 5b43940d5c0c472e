# zephyrtests: I2C uptime target, uptime formatter and core-1 launch

This project is a Dafny model of the sequential logic in two Zephyr
firmware samples for the RP2040.

**test_rpi.** A button press, after debouncing, queues the system uptime
in seconds on `in_msgq`. The processing thread (`data_process`) renders
the value with `snprintf(data_out, 8, "%d", data)` into a static 8-byte
buffer and try-puts the buffer on the one-slot `out_msgq`. `main`'s loop
takes each message and publishes it into `str_data` with `strncpy` under a
mutex. An I2C controller reads the published record through five target
callbacks over `i2creg`, `i2cidx` and `i2cbuffer`:

- Selecting register 0 (`I2C_REG_UPTIME`) rewinds the read cursor.
- The first read of a transfer snapshots `str_data`.
- Each read with its own START serves one byte.
- The read past the eighth byte ends the transfer with `-ENOMEM`.
- STOP rewinds the cursor.
- Any other register fails reads with `-EIO`.

**blinky_two_cores.** `start_core1` launches core 1 with the RP2040
bootrom handshake (section 2.8.2 of the RP2040 datasheet, "Launching code
on processor core 1"). It sends six command words over the inter-core
mailbox. An exact echo advances to the next word and any other reply
restarts from the first.

Modules:

- `Common`: `PROC_MSG_SIZE`, the register enum, the errno values, `Byte`
  and `Option`.
- `CString`: `strnlen` and `strncpy`. `strncpy` is a function, and also an
  in-place method over arrays proved against that function.
- `MsgQueue`: a capacity-1 `k_msgq` with `K_NO_WAIT` put and blocking get.
- `I2CTarget`: the callbacks as pure transitions of an `Engine` value, runs
  of controller events, and the class `Target` whose fields and arrays the
  methods update in place. Each method is proved against its transition.
- `Processing`: `%d` rendering, snprintf truncation, and the class
  `Processor` whose `Iterate` writes `data_out` in place.
- `Pipeline`: the end-to-end path from a rendered value to the bytes the
  controller reads.
- `Core1Launch`: the `start_core1` loop over a sequence of received
  echoes.

## Model

| member | source | states |
|---|---|---|
| CString.StrNCpy | test_rpi/src/main.c:227 | strncpy(dst, src, n) stores exactly n bytes; which bytes is stated by StrNCpyAt and StrNCpyShape |
| CString.StrNCpyAt | test_rpi/src/main.c:227 | byte i of strncpy(src, n) is src[i] before the first NUL of the first n bytes and NUL from there on |
| CString.StrNCpyShape | test_rpi/src/main.c:227 | strncpy's n bytes are the source's C string followed by NUL padding; with no NUL in range, the first n source bytes and no terminator |
| CString.StrNCpyPadded | test_rpi/src/main.c:227 | whatever the source, every byte of strncpy's result from its first NUL on is NUL |
| CString.PaddedCopiesToItself | test_rpi/src/main.c:93 | a buffer is NUL-padded exactly when strncpy copies it onto itself unchanged |
| CString.StrNCpyIdempotent | test_rpi/src/main.c:93 | copying a strncpy result again with the same bound changes nothing |
| CString.StrNCpyKeepsCStr | test_rpi/src/main.c:227 | when the source's string ends within n bytes, the copy holds the same C string |
| CString.StrNCpyInto | test_rpi/src/main.c:93 | the in-place copy (copy to the first NUL, then zero-fill) leaves dst[..n] equal to the strncpy function's result and dst[n..] untouched |
| MsgQueue.TryPut | test_rpi/src/processing.c:38 | a put with K_NO_WAIT fills an empty slot with the message; on a full slot it keeps the pending message and drops the new one |
| MsgQueue.Take | test_rpi/src/main.c:224 | taking from a full slot empties it, and putting the taken message back restores the queue |
| I2CTarget.Boot | test_rpi/src/main.c:46-48 | the boot state satisfies the invariant, with the uptime register selected and no read in progress |
| I2CTarget.OnWriteReceived | test_rpi/src/main.c:63-71 | every received byte selects the register; the uptime register rewinds the cursor; any other byte leaves the cursor and both buffers as they were |
| I2CTarget.OnReadRequested | test_rpi/src/main.c:84-105 | -EIO exactly when the register is unsupported, with nothing changed and no byte; -ENOMEM exactly at cursor 7, which rewinds to -1 and sends nothing; otherwise 0, the cursor advances and the byte under it is sent; the snapshot is taken only when the cursor is negative, and it then equals str_data; the invariant -1 <= i2cidx <= 7 is kept |
| I2CTarget.OnStop | test_rpi/src/main.c:122-127 | STOP rewinds the cursor and changes nothing else |
| I2CTarget.OnPublish | test_rpi/src/main.c:224-228 | str_data becomes the strncpy of the message, which keeps it NUL-padded; the I2C state is untouched |
| I2CTarget.Step | test_rpi/src/main.c:53-57 | write_requested_cb returns 0 and read_processed_cb returns -ENOMEM, and neither changes any state; every step keeps the invariant |
| I2CTarget.Run | test_rpi/src/main.c:47 | from any state satisfying the invariant, every sequence of callbacks and publishes keeps -1 <= i2cidx <= 7 and the buffer sizes; with no publish, str_data is unchanged |
| I2CTarget.ReadsKeepTransfer | test_rpi/src/main.c:90-104 | inside a transfer, reads interleaved with publishes keep the register and the snapshot, advance the cursor once per read and all return 0 |
| I2CTarget.ReadsServeSnapshot | test_rpi/src/main.c:90-104 | inside a transfer, reads serve consecutive bytes of the snapshot, whatever is published meanwhile |
| I2CTarget.TornFreeRead | test_rpi/src/main.c:90-101 | from a rewound cursor, eight reads interleaved with any publishes deliver exactly the str_data present at the first read, all with 0; the ninth read returns -ENOMEM, sends nothing and rewinds |
| I2CTarget.UnsupportedReadsFail | test_rpi/src/main.c:86-87 | with an unsupported register, any number of reads each return -EIO, send nothing and leave the state unchanged |
| I2CTarget.UptimeTransfer | test_rpi/src/main.c:63-127 | selecting the uptime register, eight reads and STOP deliver str_data exactly, padding included, all with 0, and leave no read in progress, wherever the cursor was before |
| I2CTarget.EightReadsThenStop | test_rpi/src/main.c:84-127 | from a rewound cursor, eight reads and STOP deliver str_data with every reply 0 and end rewound |
| I2CTarget.StopRewinds | test_rpi/src/main.c:122-127 | a second STOP is a no-op, and the next read takes a fresh snapshot and serves its byte 0 |
| I2CTarget.RunAppend | test_rpi/src/main.c:53-127 | running two event sequences in turn is running their concatenation |
| I2CTarget.SentAppend | test_rpi/src/main.c:101 | the bytes sent by concatenated reply sequences are the concatenation of the bytes each sent |
| I2CTarget.Target.constructor | test_rpi/src/main.c:26-48 | fresh arrays in the boot state |
| I2CTarget.Target.WriteRequested | test_rpi/src/main.c:53-57 | always returns 0 |
| I2CTarget.Target.WriteReceived | test_rpi/src/main.c:63-71 | returns 0 and the new state is OnWriteReceived of the old one |
| I2CTarget.Target.ReadRequested | test_rpi/src/main.c:84-105 | return code, byte sent and new state are those of OnReadRequested on the old state; the snapshot is the in-place strncpy |
| I2CTarget.Target.ReadProcessed | test_rpi/src/main.c:112-116 | always returns -ENOMEM |
| I2CTarget.Target.Stop | test_rpi/src/main.c:122-127 | returns 0 and the new state is OnStop of the old one |
| I2CTarget.Target.Publish | test_rpi/src/main.c:226-228 | str_data is overwritten in place and the new state is OnPublish of the old state and message |
| Processing.Decimal | test_rpi/src/processing.c:36 | `%d` text is non-empty and all digits, and starts with '0' exactly when the value is 0 (then it is "0") |
| Processing.ValueOfDecimal | test_rpi/src/processing.c:36 | reading the printed digits back gives the value printed |
| Processing.DecimalOfValue | test_rpi/src/processing.c:36 | every canonical numeral is what `%d` prints for its value, so printing is a bijection onto canonical numerals |
| Processing.ValuePositive | test_rpi/src/processing.c:36 | a numeral without a leading '0' denotes a positive value |
| Processing.DecimalLength | test_rpi/src/processing.c:36 | a value prints in at most k characters exactly when it is below 10^k |
| Processing.NoTruncation | test_rpi/src/processing.c:36 | the text fits the 8-byte buffer with its terminator exactly when the value is at most 9999999 |
| Processing.Truncated | test_rpi/src/processing.c:36 | snprintf keeps min(length, 7) characters, a prefix of the full text |
| Processing.Rendered | test_rpi/src/processing.c:16-36 | data_out after snprintf is 8 bytes whose C string is the kept text, with a NUL after it and the previous iteration's bytes beyond that |
| Processing.Processor.Iterate | test_rpi/src/processing.c:29-39 | one pass takes the input value, leaves data_out equal to Rendered of its old contents and tries to put the whole 8-byte buffer on the output queue |
| Processing.Processor.constructor | test_rpi/src/processing.c:16 | the static data_out starts as eight zero bytes, and both queues start empty |
| Pipeline.Field | test_rpi/src/main.c:227 | the published record is 8 bytes |
| Pipeline.PublishedRecord | test_rpi/src/main.c:227 | publishing a rendered data_out leaves the value's kept text followed only by NUL bytes, whatever the stale tail was |
| Pipeline.FieldReadsBack | test_rpi/src/processing.c:36 | the published record is NUL-padded and terminated; up to 9999999 its C string is the full decimal text and reads back as the value |
| Pipeline.ValueReachesController | test_rpi/src/processing.c:36-38 | a value rendered, queued on an empty out_msgq, taken and published is what the next uptime transfer delivers, all with 0, whatever the prior engine state and stale bytes |
| Pipeline.Scenario42 | test_rpi/src/processing.c:36 | the record for 42 is '4' '2' and six NUL bytes, and the controller reads exactly that |
| Pipeline.TruncatedUptime | test_rpi/src/processing.c:36 | 12345678 is published as "1234567" and reads back as 1234567 |
| Pipeline.ReadUptime | test_rpi/src/main.c:84-127 | eight reads of the uptime register on a Target and a STOP return the current str_data and leave no read in progress |
| Pipeline.DebounceExpired | test_rpi/src/main.c:146-154 | a press still held queues the uptime on an empty in_msgq, a pending value is kept and the new one dropped, and a released button queues nothing |
| Pipeline.PressAndRead | test_rpi/src/main.c:175-229 | from boot, a held press with uptime n followed by one processing pass, one publish and an uptime transfer gives the controller exactly the published record for n |
| Core1Launch.LaunchCommands | blinky_two_cores/src/main.c:65-69 | the command sequence has six words and starts 0, 0, 1 |
| Core1Launch.Index | blinky_two_cores/src/main.c:79 | the loop index after any sequence of echoes stays within 0..6 |
| Core1Launch.EchoedPrefix | blinky_two_cores/src/main.c:72-80 | while the loop runs, the last i echoes received are exactly the first i command words |
| Core1Launch.LaunchedOnlyAfterFullEcho | blinky_two_cores/src/main.c:72-80 | the loop reaches 6 only when the last six echoes are the six commands in order |
| Core1Launch.MismatchRestarts | blinky_two_cores/src/main.c:79 | after a mismatch, later echoes are handled exactly as by a loop that has just started |
| Core1Launch.EchoesAdvance | blinky_two_cores/src/main.c:79 | each exact echo advances the index by one |
| Core1Launch.EchoesComplete | blinky_two_cores/src/main.c:72-80 | from any index, echoing the remaining commands completes the launch, and the loop does not exit before the last of them |
| Core1Launch.StartCore1 | blinky_two_cores/src/main.c:63-81 | each iteration sends cmd[i] for the current index and consumes one echo; the index is the one the echoes so far determine and stays within 0..6; the loop ends only at 6 or when the echoes run out; at 6 the last six echoes are the commands |

## Left out

- Kernel machinery is not modelled: threads, `k_mutex_lock`/`k_mutex_unlock`, blocking `k_msgq_get` and thread creation (test_rpi/src/main.c:21-27, 212-229). Each callback, each mutex-guarded copy and each queue operation is one atomic step, and a queue is a one-slot `Option`.
- Pipeline.DebounceExpired: the work-queue rescheduling and the 30 ms delay of `button_pressed` (test_rpi/src/main.c:156-171) are kernel timing and are not modelled. The GPIO level and `k_uptime_seconds()` are parameters. `pressed` stands for the test at main.c:152, which is also true when `gpio_pin_get_dt` returns a negative errno, so a failed GPIO read counts as a press.
- Device bring-up, devicetree lookups, logging and the error returns of `main` (test_rpi/src/main.c:175-210) are I/O plumbing and are not modelled.
- test_rpi/src/emul.c is not part of this model. It drives unseen emulator drivers, and how `i2c_transfer` maps onto the callbacks is not visible. `UptimeRequest` is a sequence the callbacks may see for an i2cuptime request with repeated START: select register 0, eight reads, STOP. It omits the `write_requested_cb` that opens the write and any `read_processed_cb`; `Step` states that neither changes any state.
- Processing.Processor.Iterate: values above INT_MAX are excluded by a precondition. The source passes an `unsigned int` to `%d`, which prints those values as negative numbers.
- Processing.Rendered: same INT_MAX precondition, for the same reason.
- Core1Launch.StartCore1: when the echoes run out, the firmware blocks for ever in `k_msgq_get`. The method returns instead, with the index below 6 and every echo consumed.
- Core1Launch.StartCore1: the actual addresses of the vector table, core-1 stack and entry point are parameters.
- Core1Launch.StartCore1: the `printf` calls and `ipm_send` are I/O. `sent` records the words sent, in order.
- The rest of blinky_two_cores/src/main.c (LED toggling, `core1_entry`, `busy_wait`, the IPM callback and its four-slot queue, lines 24-61 and 83-122) is hardware I/O and cross-core concurrency, and is not modelled.
- `Byte` models a C `char` cell by its byte value 0..255. The firmware only copies and compares these bytes, so signedness does not matter.

## Behaviour as written

Two behaviours of the firmware that a reader might not expect. The model keeps both as the code has them.

- **A full `out_msgq` drops the new message.** `k_msgq_put` with `K_NO_WAIT` on the full one-slot `out_msgq` (test_rpi/src/processing.c:38) returns at once and discards the new message. The pending, older message is kept. `MsgQueue.TryPut` and `Pipeline.DebounceExpired` follow the code.
- **Long uptimes are cut to seven digits.** Uptimes above 9999999 seconds (about 115 days) do not fit the 8-byte buffer with its terminator, and snprintf keeps only the first seven digits. An eight-digit value loses one digit, a nine-digit value two. `Processing.NoTruncation` states the exact bound, and `Pipeline.TruncatedUptime` shows 12345678 read back as 1234567. The model keeps this behaviour as written.
