# asic_diag in Dafny

A verified model of the asic_diag Linux PCI diagnostic driver. The driver keeps three pieces of
per-device state:

- a register window;
- a 1024-byte event FIFO filled by the interrupt handler;
- an `is_open` flag for its single character-device session.

It also keeps, on the PCI side, a stack of resources that `probe` acquires one by one and gives
back on failure or at `remove`.

The model is in nine modules:

- `Types`: byte and u32 ranges, errno values, register offsets, `Option` and `Result`.
- `LittleEndian`: the byte order of every multi-byte value the FIFO carries. Little-endian is an
  assumption about the target, as on x86 and on little-endian ARM.
- `Text`: hex digits, `%08x`-style fixed-width hex, and `%u` decimal, each with its read-back
  value.
- `Kstrtox`: base-16 `kstrtoull`, `kstrtoul` and `kstrtou32`. These follow the kernel library's
  rules:
  - an optional `+`, then an optional `0x` or `0X`;
  - then at least one hex digit, then at most one trailing newline;
  - `-ERANGE` when the digits overflow 64 bits;
  - `kstrtou32` also gives `-ERANGE` for a value of 2^32 or more.
  The kernel's lib/kstrtox.c is not part of this model.
- `Kfifo`: the observable behaviour of the byte kfifo. `kfifo_in` copies as much as fits; the
  short count is returned and the driver ignores it. `kfifo_out` takes as much as is there.
- `Events`: `struct event_entry` (three u32 fields, 12 bytes), the complete records a byte
  string holds, and the text of the debugfs listing.
- `Sysfs`: the four register attributes, the text a register read renders, and the
  render-then-parse round trip.
- `AsicDiag`: class `Device`, with fields `regs`, `fifo` and `isOpen`, and methods for the
  interrupt handler, `open`, `release`, `read`, `write`, the debugfs drain and the two sysfs
  accessors. Each spin-locked region is one method call.
- `Lifecycle`: class `PciDev`, which holds the resources and a log of every acquisition and
  release. It has `Probe` with its goto-unwind labels, and `Remove`. A `ProbeEnv` value says
  which kernel call fails; the trace functions and lemmas state the resource discipline.

A tenth module, `Scenarios`, chains the `Device` methods the way a user of the device files
would: release then open, two listings in a row, and show then store.

`Device.Valid` says the FIFO never holds more than 1024 bytes and always holds whole 4-byte
status words. Because of that, the handler's push is all-or-nothing.

The handler queues the raw 4-byte status word, but `read` and the listing dequeue 12-byte
records. The model keeps the FIFO at byte level and proves the consequence:

- each complete group of three queued status words becomes one record, with timestamp, type
  and data taken from those words, and the one or two words after the last group form no record
  (`AsicDiag.RecordsOfWords`);
- a lone status word is never readable as a record (`Device.Read` then returns `-EAGAIN` and
  discards it).

A handler that pushed whole 12-byte records would avoid this mismatch. This driver does not,
and the model follows the driver.

`probe` is one function in the source. Its body is modelled as `Probe`, `MapRegisters` and
`SetUpEvents`, split at the step after enabling the device and the step after mapping the
registers. They run in sequence, and each `Err*` method is one goto label that falls through to
the next.

## Model

| member | source | states |
|---|---|---|
| AsicDiag.Device.Isr | src/asic_diag.c:111-129 | Status bit 0 clear: returns IRQ_NONE and changes neither registers nor FIFO. Bit 0 set: returns IRQ_HANDLED, writes 1 to offset 0x00 and changes no other register, and the FIFO becomes the kfifo_in result, i.e. the old FIFO followed by the 4 status bytes if there is room, else unchanged; the FIFO stays within 1024 bytes |
| AsicDiag.WordPushIsWhole | src/asic_diag.c:122 | On a FIFO of whole words below capacity the 4-byte push goes in whole; on a full FIFO nothing goes in; the result is still whole words |
| AsicDiag.ReadAfterWrite | src/sysfs_interface.c:12-29 | `ReadReg` models ioread32 of the register window (also src/asic_diag.c:117) over plain storage: after iowrite32 of a value at an offset (line 29), ioread32 there (line 12) gives that value, and every other offset reads as before |
| AsicDiag.EventPending | src/asic_diag.c:118 | An event is pending exactly when `status & 0x1` is 1 in 32-bit arithmetic |
| AsicDiag.StatusBytes | src/asic_diag.c:114-122 | The 4 bytes kfifo_in copies from `u32 status` decode back to the status value |
| AsicDiag.Device.constructor | src/asic_diag.h:33-42 | A fresh device: the given register window, an empty FIFO, not open |
| AsicDiag.Device.Open | src/pcie_events.c:10-21 | Already open: returns -EBUSY and stays open. Closed: returns 0 and becomes open |
| AsicDiag.Device.Release | src/pcie_events.c:23-28 | Always returns 0 and leaves the device closed |
| AsicDiag.Device.Read | src/pcie_events.c:30-52 | count < 12: -EINVAL, FIFO untouched. Fewer than 12 bytes queued: -EAGAIN, and the bytes kfifo_out copied are gone (FIFO empty). Otherwise exactly the oldest 12 bytes are removed and the rest keeps its order; the result is -EFAULT when the copy to user fails, else 12 with the entry those bytes decode to |
| AsicDiag.Device.Write | src/pcie_events.c:54-69 | count != 4: -EINVAL, no register written. Copy fault: -EFAULT, no register written. Otherwise writes the value to offset 0x04 only and returns 4 |
| AsicDiag.Device.EventsShow | src/pcie_events.c:72-86 | The output is one line per complete 12-byte record of the old FIFO, in FIFO order, and the FIFO is left empty, a trailing partial record included |
| AsicDiag.DrainStep | src/pcie_events.c:79 | Taking one more whole record off the front of what remains splits the FIFO contents as taken, record, rest, and keeps the taken part a whole number of records |
| AsicDiag.Device.ShowRegister | src/sysfs_interface.c:3-14 | Name not valid hex: -EINVAL and no text. Otherwise the register at the parsed offset as "0x" + 8 hex digits + newline, with the length 11 returned |
| AsicDiag.Device.StoreRegister | src/sysfs_interface.c:16-31 | Name or value fails to parse: -EINVAL, registers unchanged. Otherwise the parsed value is written to exactly the parsed offset, every other offset is unchanged, and count is returned |
| AsicDiag.WordsAppend | src/asic_diag.c:122 | Queuing one more status word appends its 4 bytes to the FIFO contents |
| AsicDiag.Triples | src/pcie_events.c:4-8 | Grouping status words three at a time gives one entry per group |
| AsicDiag.ThreeWordsOneRecord | src/pcie_events.c:4-8 | Three status words queued by the handler make exactly one record: (timestamp, type, data) = (first, second, third word) |
| AsicDiag.Words | src/asic_diag.c:122 | The FIFO contents after the handler queued n status words into a FIFO that never filled are 4n bytes |
| AsicDiag.RecordsOfWordTriples | src/pcie_events.c:42 | A FIFO holding a multiple of three handler-queued status words reads as one record per three words, in order |
| AsicDiag.WordsConcat | src/asic_diag.c:122 | Queuing two runs of status words queues their bytes one after the other |
| AsicDiag.RecordsOfWords | src/pcie_events.c:42 | A FIFO filled only by the handler, with any number of status words, reads as one record per complete group of three words, in order; the one or two trailing words form no record |
| Kfifo.In | src/asic_diag.c:122 | kfifo_in: never exceeds the capacity; the queued bytes are unchanged; what is appended is the longest prefix of the data that fits; a short copy means the FIFO is now full |
| Kfifo.Out | src/pcie_events.c:42 | kfifo_out: the bytes taken and the bytes left make up the old FIFO, and min(n, length) bytes are taken |
| Kfifo.InFits | src/asic_diag.c:122 | With room for all the data, the push appends all of it |
| Kfifo.InFull | src/asic_diag.c:122 | On a full FIFO the push copies nothing and changes nothing |
| LittleEndian.Decode | src/pcie_events.c:4-8 | Decoding n bytes gives a value below 256^n |
| LittleEndian.Encode | src/pcie_events.c:4-8 | Encoding to n bytes gives exactly n bytes |
| LittleEndian.DecodeEncode | src/pcie_events.c:4-8 | A value below 256^n survives encoding to n bytes and decoding |
| LittleEndian.EncodeDecode | src/pcie_events.c:4-8 | Any byte string survives decoding and re-encoding |
| Events.EncodeEntry | src/pcie_events.c:4-8 | An event_entry occupies 12 bytes |
| Events.DecodeEntry | src/pcie_events.c:42 | The entry read from 12 bytes encodes back to exactly those bytes |
| Events.EntryRoundTrip | src/pcie_events.c:4-8 | Reading back the bytes of an entry gives the entry |
| Events.Records | src/pcie_events.c:79 | A byte string holds floor(length / 12) complete records |
| Events.RecordsOfOne | src/pcie_events.c:79 | 12 bytes hold exactly the one entry they decode to |
| Events.RecordsAppend | src/pcie_events.c:79 | The records of whole records followed by more bytes are the records of each part, in order |
| Events.RecordsOfEncoded | src/pcie_events.c:79 | Concatenated encodings of entries read back as those entries |
| Events.RecordsIgnorePartial | src/pcie_events.c:79 | A trailing partial record adds no record |
| Events.Line | src/pcie_events.c:80-81 | Each listing line ends with a newline |
| Events.LineHasOneNewline | src/pcie_events.c:80-81 | "Time: %u, Type: %u, Data: 0x%08x\n" holds exactly one newline |
| Events.Listing | src/pcie_events.c:79-82 | The seq_printf output of the drain loop, one line per record oldest first; it is empty exactly when there is no record |
| Events.ListingLineCount | src/pcie_events.c:79-82 | The listing has exactly one line per record |
| Events.ListingAppend | src/pcie_events.c:79-82 | The listing of two runs of records is their listings one after the other |
| Events.ListingOfOneMore | src/pcie_events.c:79-82 | One more whole record appends exactly its line |
| Events.CountAppend | src/pcie_events.c:80-81 | Counting a character over a concatenation adds the two counts |
| Kstrtox.HexRun | src/sysfs_interface.c:9 | The leading hex-digit run: every character in it is a hex digit and it stops at the first character that is not |
| Kstrtox.Kstrtoull | src/sysfs_interface.c:9 | A parsed value fits in 64 bits; every failure is -EINVAL or -ERANGE |
| Kstrtox.Kstrtoul | src/sysfs_interface.c:9-10 | The attribute-name parse of show and store (also line 23): it accepts and rejects exactly what the 64-bit parse does, a parsed value fits in 64 bits, and every failure is -EINVAL or -ERANGE |
| Kstrtox.AcceptedIsWellFormed | src/sysfs_interface.c:23-27 | Every accepted text splits as optional '+', optional 0x/0X, one or more hex digits and at most one newline, and the result is the value of those digits; with ParseWellFormed, the parse accepts exactly the well-formed texts |
| Kstrtox.OverflowRejected | src/sysfs_interface.c:26-27 | Hex digits whose value is 2^64 or more give -ERANGE, whatever follows them |
| Kstrtox.TrailingJunkRejected | src/sysfs_interface.c:26-27 | Digits that fit followed by anything other than nothing or one newline (such as "0x1z" or "1\n\n") give -EINVAL |
| Kstrtox.Kstrtou32 | src/sysfs_interface.c:26 | Succeeds exactly when the 64-bit parse succeeds with a value below 2^32, and gives that value; every failure is -EINVAL or -ERANGE |
| Kstrtox.ParseWellFormed | src/sysfs_interface.c:26 | Every well-formed text (optional '+', optional 0x/0X, one or more hex digits whose value fits in 64 bits, optional newline) is accepted with the value of its digits |
| Kstrtox.NoDigitsRejected | src/sysfs_interface.c:9-10 | A text with no hex digit after the sign and prefix is rejected with -EINVAL |
| Text.HexDigits | src/sysfs_interface.c:13 | Fixed-width hex has exactly that many lowercase hex digits |
| Text.Hex8 | src/sysfs_interface.c:13 | %08x gives exactly 8 lowercase hex digits |
| Text.HexDigitsValue | src/sysfs_interface.c:13 | A value below 16^width, printed in that many hex digits, reads back as itself |
| Text.Hex8Value | src/sysfs_interface.c:13 | %08x of a u32 reads back as the same value |
| Text.Decimal | src/pcie_events.c:80-81 | %u prints at least one decimal digit, with no leading zero except for 0 itself |
| Text.DecimalValue | src/pcie_events.c:80-81 | %u reads back as the same value |
| Sysfs.RegisterText | src/sysfs_interface.c:13 | "0x%08x\n" is 11 characters: "0x", 8 lowercase hex digits that read back as the value, and a newline |
| Sysfs.RegisterTextParses | src/sysfs_interface.c:26 | What show_register renders, given to the value parser of store_register, is the same value |
| Sysfs.NameParses | src/sysfs_interface.c:9 | An offset below 256 printed as two hex digits parses back to itself |
| Sysfs.AttributeOffsets | src/sysfs_interface.c:37-46 | There are four attributes, 00, 04, 08 and 0c, and their names parse to the offsets 0x00, 0x04, 0x08 and 0x0C of the status, control, data and interrupt-mask registers |
| Sysfs.AttributeNamesAreOffsets | src/sysfs_interface.c:37-40 | Each attribute name is its register offset printed as two lowercase hex digits |
| Sysfs.ControlOneText | src/sysfs_interface.c:26-29 | "0x1" parses to 1, and 1 is shown as "0x00000001\n" |
| Lifecycle.Acquisitions | src/asic_diag.c:41-80 | One acquisition action per resource, in the same order |
| Lifecycle.Releases | src/asic_diag.c:85-95 | One release action per resource, in the same order |
| Lifecycle.Reverse | src/asic_diag.c:85-95 | The resources in reverse order |
| Lifecycle.Acquirable | src/asic_diag.c:41-80 | The number of resources acquired before the first failing step, at most 6 |
| Lifecycle.ProbeReturn | src/asic_diag.c:34-95 | Probe returns 0 exactly when the allocation and all six steps succeed; -ENOMEM when the allocation, the register mapping or the debugfs directory fails |
| Lifecycle.ReplayAppend | src/asic_diag.c:85-95 | Replaying two logs in turn is replaying their concatenation |
| Lifecycle.AcquireAll | src/asic_diag.c:41-80 | Acquiring distinct fresh resources pushes them onto the held stack in order |
| Lifecycle.ReleaseAll | src/asic_diag.c:85-95 | Releasing held resources most recent first pops them all, never breaking the stack discipline |
| Lifecycle.Unwind | src/asic_diag.c:85-95 | Acquiring resources and releasing them in reverse leaves the held stack as it was |
| Lifecycle.DistinctPrefix | src/asic_diag.c:41-80 | No resource appears twice in the acquisition order |
| Lifecycle.ProbeBalanced | src/asic_diag.c:41-95 | A successful probe holds every resource in the order enable, regions, iomap, FIFO, IRQ, debugfs. A failed probe holds none, having released each acquired resource in reverse order, with no out-of-order release |
| Lifecycle.ProbeTrace | src/asic_diag.c:41-95 | On success probe performs the six acquisitions in order; on failure it acquires the first k resources and then releases each, the i-th acquired at the mirrored position i from the end, so the trace has length 2k |
| Lifecycle.RemoveTrace | src/asic_diag.c:102-107 | Remove performs six releases, the i-th releasing the resource acquired (5 - i)-th |
| Lifecycle.RemoveBalanced | src/asic_diag.c:102-107 | Remove releases every resource in exactly the reverse of acquisition order and leaves none held |
| Lifecycle.RemoveKeepsIrqCovered | src/asic_diag.c:102-107 | Throughout remove, the FIFO is held whenever the IRQ line is: the IRQ is freed before the FIFO |
| Lifecycle.ProbeKeepsIrqCovered | src/asic_diag.c:60-95 | Throughout probe and its unwinding, the FIFO is held whenever the IRQ line is |
| Lifecycle.UnwindCovered | src/asic_diag.c:85-95 | Acquiring the first k resources and unwinding them never holds the IRQ line without the FIFO |
| Lifecycle.CoveredAcquisitions | src/asic_diag.c:41-80 | Acquiring in order from any prefix never holds the IRQ line without the FIFO |
| Lifecycle.CoveredReleases | src/asic_diag.c:85-95 | Releasing a prefix most recent first never holds the IRQ line without the FIFO |
| Lifecycle.PciDev.Acquire | src/asic_diag.c:41-80 | Acquiring a resource not held pushes it, logs it, and keeps the log consistent with the held stack |
| Lifecycle.PciDev.Release | src/asic_diag.c:85-95 | Only the most recently acquired resource may be released; it is popped and logged |
| Lifecycle.PciDev.Probe | src/asic_diag.c:29-96 | Returns ProbeReturn(env) and logs ProbeTrace(env): on success every resource is held, a device with an empty FIFO over the mapped window is returned, and nothing else is returned; on failure nothing is held and no device is returned |
| Lifecycle.PciDev.MapRegisters | src/asic_diag.c:47-58 | With the device enabled, the regions and the register mapping follow and then the rest of probe, unwinding on failure, with the same return value and log as probe |
| Lifecycle.PciDev.SetUpEvents | src/asic_diag.c:60-80 | With the registers mapped, the FIFO, the IRQ line and debugfs follow, unwinding on failure, with the same return value and log as probe |
| Lifecycle.PciDev.ErrIrq | src/asic_diag.c:85-86 | With the first five resources held, releases them all, the IRQ line first |
| Lifecycle.PciDev.ErrFifo | src/asic_diag.c:87-88 | With the first four resources held, releases them all, the FIFO first |
| Lifecycle.PciDev.ErrUnmap | src/asic_diag.c:89-90 | With the first three resources held, releases them all, the mapping first |
| Lifecycle.PciDev.ErrRelease | src/asic_diag.c:91-92 | With the first two resources held, releases them, the regions first |
| Lifecycle.PciDev.ErrDisable | src/asic_diag.c:93-95 | With only device enable held, releases it |
| Lifecycle.PciDev.Remove | src/asic_diag.c:98-109 | From a fully probed device, logs RemoveTrace() (debugfs, IRQ, FIFO, mapping, regions, enable) and leaves nothing held |
| Scenarios.ReopenAfterRelease | src/pcie_events.c:23-27 | Release then open always succeeds and leaves the device open |
| Scenarios.OpenTwice | src/pcie_events.c:15-20 | On a closed device the first open succeeds and a second returns -EBUSY |
| Scenarios.ListTwice | src/pcie_events.c:78-83 | With no interrupt in between, a second listing is empty |
| Scenarios.ShowThenStore | src/sysfs_interface.c:12-30 | Storing what a register attribute shows back into that attribute returns 11 and leaves the register as it was |
| Scenarios.StoreOneShowControl | src/sysfs_interface.c:26-29 | Storing "0x1" into attribute 04 and then showing it gives "0x00000001\n" |

## Left out

- Spinlocks and interrupt disabling: each locked region of the handler, `read` and the listing
  is one atomic method call. Concurrency between them is not modelled.
- `copy_to_user` and `copy_from_user` are a boolean `fault` input. In `Device.Read` the entry is
  already dequeued when the fault happens, as in the source.
- kfifo's ring-index arithmetic and `kfifo_alloc`'s rounding. The FIFO is a sequence with the
  observable copy-what-fits semantics, and its capacity stays 1024 because 1024 is a power of
  two.
- Hardware behaviour of register accesses. The register window is a plain map in which an
  offset never written reads as 0. Write-one-to-clear on the status register, MMIO ordering, and
  shows or stores at offsets outside the mapped BAR are not modelled. MAX_REGISTERS is not used
  by the source.
- `AsicDiag.Device.ShowRegister` and `AsicDiag.Device.StoreRegister` take the offset from
  `kstrtoul` as an unbounded natural below 2^64, on a 64-bit `unsigned long`. Pointer
  arithmetic on `regs` is not modelled.
- Module and PCI registration, the PCI ID table and the `file_operations` tables.
- debugfs and sysfs file plumbing: `asic_diag_events_open`, `seq_file` buffering, and creating
  and removing the sysfs group. The listing is returned as one string. This hides a
  consequence of single_open's retry, which the kernel's seq_file code (not part of this model)
  performs: when the output overflows the first page, seq_read runs the show callback again with
  a bigger buffer, and since `asic_diag_events_show` has already drained the FIFO the retry
  prints nothing. A listing over 4096 bytes, about 78 or more lines of at most 53 characters,
  would reach the reader empty; the FIFO can hold 85 records. The model's `EventsShow` returns
  the full listing in that case. `asic_diag_debugfs_init`
  is the probe step that may fail with `-ENOMEM`.
- `asic_diag_sysfs_init` is never called by probe in the source, so the attribute group is not
  part of the resources in `Lifecycle`.
- `pcie_events.c` finds the device in `asic_diag_open` through a `cdev` member that
  `struct asic_diag_dev` does not declare, and probe never registers a character device. The
  model gives the session operations the `Device` directly.
- The timestamp and event-type fields: no code sets them. When they are read, they hold whatever
  status words came first (`AsicDiag.RecordsOfWords`).
- dev_err and dev_info logging.
- Strings are sequences of characters. A NUL byte inside an attribute name or a stored buffer is
  not modelled.
- tests/test_driver.c: a harness that opens and reads the four register attributes, writes
  random values as "0x%08x" (no newline) to attribute `04`, and reads the debugfs listing. It has
  no logic of its own.
