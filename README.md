# aesd char driver — a Dafny model

This project models the file operations of the aesd character device
(`aesd-char-driver/main.c`). The device keeps the last ten
newline-terminated write sequences ("records") in a ring of ten slots. A
write adds its bytes to a working entry. When the working entry's last byte
is a newline, the entry is promoted into the ring; if the ring is full, the
oldest record is overwritten. A reader sees the resident records, oldest
first, as one byte stream. `llseek` moves within that stream, and the
`AESDCHAR_IOCSEEKTO` ioctl moves to byte `o` of record `i`.

The project has three modules:

- `AesdLog` (`log.dfy`) holds the log as pure values and the lemmas that say
  what the values mean:
  - the records, their total size and their concatenation;
  - translating a byte position into a record and an offset;
  - the bytes a read returns;
  - promotion into a bounded ring;
  - successful writes, as transitions of a `LogState` (records plus working
    entry).
- `AesdCircularBuffer` (`circular_buffer.dfy`) is the ring
  `struct aesd_circular_buffer`, written as a class over an array of ten
  slots with `in_offs`, `out_offs`, `full` and `entry_count`. It also models
  `add_entry` and `find_entry_offset_for_fpos`, the two helpers the driver
  calls. The file `aesd-circular-buffer.c` that defines them is not part of
  this model, so their bodies are written from the behaviour the driver
  relies on.
- `AesdChar` (`aesdchar.dfy`) is the device `struct aesd_dev` as a class
  holding the ring and the working entry, with `aesd_read`, `aesd_write`,
  `aesd_llseek` and `aesd_ioctl` as methods. Each method is proved against
  the functions of `AesdLog`.

Outside effects become parameters:

- `interrupted` is the outcome of `mutex_lock_interruptible`.
- `allocOk` is the outcome of `krealloc`.
- `userReadable` and `userWritable` say how many bytes of the caller's buffer
  `copy_from_user` and `copy_to_user` can reach.
- The ioctl argument is `None` when copying it in faults.
- `struct file`'s `f_pos` is passed in and handed back.
- A C return of `-e` is `Err(e)`; a non-negative return `v` is `Ok(v)`.

The promotion test at main.c:115 looks only at the last byte of the working
entry, so a newline inside a write does not end a record. `"a\nb"` stays in
the working entry, and a later `"\n"` promotes `"a\nb\n"` as one record.
`Accept`, `PromoteIfComplete` and `Write` follow that test for every
non-empty working entry. For an empty entry they model the evidently
intended behaviour (nothing is promoted) rather than the out-of-bounds read
the code performs; see "## Findings".

## Model

| member | source | states |
|---|---|---|
| `AesdChar.AesdDev.Read` | aesd-char-driver/main.c:48-83 | Cases by outcome. Interrupted: ERESTARTSYS and the position is kept. Otherwise the bytes are those of the record holding byte `fPos`, from there to at most `count` bytes and never past that record's end. With no such record, 0 bytes and no error. If the user buffer cannot take the bytes: EFAULT and the position is kept. On success the position advances by the bytes returned. The device is not changed. |
| `AesdChar.AesdDev.Append` | aesd-char-driver/main.c:97-113 | A failed krealloc gives ENOMEM and changes nothing. A faulting copy gives EFAULT: the allocation holds the entry, the bytes copied and zeroes, and the size is unchanged. A complete copy gives `count`, and the entry becomes the old entry followed by the bytes. |
| `AesdChar.AesdDev.PromoteIfComplete` | aesd-char-driver/main.c:115-124 | Afterwards the ring plus the working entry equal `Accept` of the old records with the grown entry. When the entry does not end in a newline, the ring and the entry are untouched. |
| `AesdChar.AesdDev.Write` | aesd-char-driver/main.c:85-127 | Interrupted gives ERESTARTSYS; a failed krealloc gives ENOMEM. Both leave the device unchanged. EFAULT leaves the ring and the working entry's bytes unchanged. Success returns `count`, and the new ring and working entry are `Accept(old view, bytes)`. A write that does not complete a record leaves the ring untouched. The device invariant is kept in every case. |
| `AesdChar.AesdDev.SizeBefore` | aesd-char-driver/main.c:141-143 | The slot-by-slot sum from `out_offs` equals the total size of the `num` oldest resident records. This is the llseek FOREACH total and, with main.c:189-191, the ioctl prefix sum. |
| `AesdChar.AesdDev.Llseek` | aesd-char-driver/main.c:129-162 | Interrupted gives ERESTARTSYS. Otherwise the target is `offset`, `fPos + offset` or `total + offset`, where `total` is the resident size. A target in `[0, total]` is returned and becomes the position; any other target gives EINVAL and the position is kept. |
| `AesdChar.AesdDev.Ioctl` | aesd-char-driver/main.c:164-180 | A wrong type or a number above the maximum gives ENOTTY. Any other command than SEEKTO gives EINVAL. An unreadable argument gives EFAULT. SEEKTO otherwise behaves as `SeekToDone`. |
| `AesdChar.AesdDev.SeekToCommand` | aesd-char-driver/main.c:181-195 | Interrupted gives ERESTARTSYS. A command index that is not resident, or an offset not inside that record, gives EINVAL and the position is kept. Otherwise it returns 0, and the position becomes the size of the older records plus the offset. That position addresses exactly byte `offset` of record `index`. |
| `AesdChar.SeekEndThenCur` | aesd-char-driver/main.c:145-161 | `seek(END, 0)` returns the total resident size, and a following `seek(CUR, 0)` returns the same position. |
| `AesdChar.SeekToThenRead` | aesd-char-driver/main.c:48-83 | After SEEKTO to byte `o` of record `i`, a read returns that record's bytes from `o` on, clamped to `count` and to the record's end. |
| `AesdChar.ZeroByteWriteReadsBeforeBuffer` | aesd-char-driver/main.c:97-115 | On any device whose working entry is empty, a zero-byte write that gets past the lock and krealloc returns 0. It leaves size 0 in a zero-size allocation, and the index `size - 1` that the promotion test as written reads lies outside that allocation. |
| `AesdCircularBuffer.AesdCircularBuffer.AddEntry` | aesd-char-driver/main.c:116-121 | The record is stored at `in_offs`, and `in_offs` advances one slot, wrapping. When the ring was full, `out_offs` advances too and `entry_count` stays N; otherwise `entry_count` grows by one. `full` holds exactly when the cursors meet. The resident records become `AddRecord` of the old ones. |
| `AesdCircularBuffer.AesdCircularBuffer.FindEntryOffsetForFpos` | aesd-char-driver/main.c:62-68 | The result is the record and offset that hold byte `charOffset` of the resident records, oldest first, or none when no record does. This includes a negative position. |
| `AesdCircularBuffer.ContentsAt` | aesd-char-driver/main.c:141-143 | The i-th slot from `out_offs`, wrapped, holds the i-th oldest resident record. |
| `AesdCircularBuffer.FullOverwritesOldest` | aesd-char-driver/main.c:116-119 | When the ring is full, the slot at `in_offs` that is freed and reused holds the oldest resident record. |
| `AesdCircularBuffer.ResidentAdd` | aesd-char-driver/main.c:121 | Storing after the newest slot, and advancing `out_offs` when full, turns the resident records into `AddRecord` of the old ones. |
| `AesdCircularBuffer.AdvanceCursors` | aesd-char-driver/main.c:121 | After a store, `in_offs` is again `entry_count` slots past `out_offs`. The cursors meet exactly when the ring has become full. |
| `AesdCircularBuffer.ResidentAt` | aesd-char-driver/main.c:185 | Resident record `i` is in slot `(out_offs + i) mod N`. |
| `AesdCircularBuffer.WrapIsMod` | aesd-char-driver/main.c:185 | The slot arithmetic equals the driver's `% AESDCHAR_MAX_WRITE_OPERATIONS_SUPPORTED`. |
| `AesdLog.FindFposAt` | aesd-char-driver/main.c:62 | Byte `o` of record `i` is found at the cumulative offset `size(records before i) + o`. |
| `AesdLog.FindFposSound` | aesd-char-driver/main.c:62 | A found position lies exactly `offset` bytes past the start of record `index`. |
| `AesdLog.FindFposNoneIff` | aesd-char-driver/main.c:63-68 | No record holds the position exactly when it is negative or at least the total size. |
| `AesdLog.ReadLength` | aesd-char-driver/main.c:69-71 | The clamped count is at most `count` and never runs past the record's end. It equals `count` unless it stops at that end. |
| `AesdLog.ReadAtEmptyIff` | aesd-char-driver/main.c:62-80 | A read returns nothing exactly when the position is negative or at or past the end of data, or when `count` is 0. |
| `AesdLog.ReadAtRecord` | aesd-char-driver/main.c:69-72 | A read at the offset of byte `o` of record `i` returns that record's bytes from `o` on, clamped. |
| `AesdLog.TotalSizeIsLength` | aesd-char-driver/main.c:141-143 | The total size is the length of the concatenated records. |
| `AesdLog.TotalSizeAppend` | aesd-char-driver/main.c:189-191 | Sizes add up over a concatenation of record lists. |
| `AesdLog.Accept` | aesd-char-driver/main.c:112-124 | The log stays well formed: at most N newline-terminated records, and a working entry without a final newline. A newline-terminated entry becomes the newest record and the working entry empties. Otherwise the records are unchanged and the entry grows by the bytes. |
| `AesdLog.AcceptConserves` | aesd-char-driver/main.c:105-121 | While a slot is free, the records followed by the working entry are the old ones followed by the written bytes, so no byte is lost. |
| `AesdLog.AcceptNothing` | aesd-char-driver/main.c:112-115 | A write of zero bytes onto a well-formed log changes nothing. |
| `AesdLog.AccumulateUntilNewline` | aesd-char-driver/main.c:105-124 | While no write ends a record, the ring is untouched and the working entry is the concatenation of all the writes. |
| `AesdLog.AcceptWholeRecords` | aesd-char-driver/main.c:115-121 | Newline-terminated writes, one per call, are promoted in turn. |
| `AesdLog.AddAllKeepsNewest` | aesd-char-driver/main.c:116-121 | After any promotions the ring holds the newest N of everything promoted, oldest first. |
| `AesdLog.LastNAfterNPromotions` | aesd-char-driver/main.c:116-121 | After at least N promotions, the ring holds exactly the last N promoted records, in order. |
| `AesdLog.EvictionAfterNPlusOneWrites` | aesd-char-driver/main.c:115-121 | N + 1 newline-terminated writes into an empty device evict the first record and keep the other N in order. |
| `AesdLog.PartialWritesExample` | aesd-char-driver/main.c:105-124 | Writing `"ab"`, `"cd"` and `"ef\n"` in turn gives the single record `"abcdef\n"`. |
| `AesdLog.AddRecord` | aesd-char-driver/main.c:121 | The promoted record is the newest, and the ring grows by one up to N. |

## Left out

- Module life cycle: `aesd_open`, `aesd_release`, `aesd_setup_cdev`, `aesd_init_module` and `aesd_cleanup_module` (main.c:31-46, 198-265) register the device and free memory. Only the zeroed initial state is modelled, as the constructors.
- Mutex: there is no concurrency in the model. Calls run one at a time, and an interrupted lock is the `interrupted` parameter.
- The missing `mutex_unlock` on llseek's EINVAL path (main.c:156-157) is not modelled, because the model has no lock to leave held.
- `kfree` of the overwritten record (main.c:118-119) and every other `kfree` are left out, because memory ownership is not modelled. `FullOverwritesOldest` states that the freed slot holds the oldest record.
- Memory left uninitialised by `krealloc` is modelled as zeroes until the copy overwrites it. The model is the same whatever those bytes are, because they lie beyond the working entry's size.
- Only `SEEK_SET`, `SEEK_CUR` and `SEEK_END` are modelled. For any other `whence`, `new_pos` is read uninitialised (main.c:145-155).
- Integer widths: `size_t` and `loff_t` are unbounded integers here, so 64-bit overflow of sums and positions is not modelled. A negative `f_pos` handed to the ring lookup (a huge `size_t` there) finds no record, and that is modelled.
- The ioctl constants come from `aesd_ioctl.h`, which is not part of this model. The values used are magic 0x16, maximum number 1, and `_IOWR(0x16, 1, 8-byte struct)` = 0xC0081601.
- `aesd-circular-buffer.c` is not part of this model. `AddEntry` and `FindEntryOffsetForFpos` state the behaviour the driver relies on, and `AESD_CIRCULAR_BUFFER_FOREACH` is modelled as a walk over the resident slots from `out_offs`.
- Logging (`PDEBUG`, `printk`) is left out.

## Findings

| source | as written | input that shows it | evidently intended | confidence | as-written member | corrected member |
|---|---|---|---|---|---|---|
| aesd-char-driver/main.c:115 | the promotion test reads `buffptr[size - 1]` with no check that `size > 0` | `write(fd, buf, 0)` on a device whose working entry is empty (the initial state, or after any promotion): `size - 1` is -1, so the test reads the byte before the zero-size allocation that krealloc returned (checked non-NULL at main.c:98) | a zero-byte write changes nothing | medium, not executed | `AesdChar.ZeroByteWriteReadsBeforeBuffer` | `AesdLog.AcceptNothing` |
