/** The file operations of the aesd character device (aesd-char-driver/main.c)
 *  over one device: the ring of records, the working entry that collects
 *  bytes until a newline arrives, and the file position each call is given.
 *
 *  A call's outcome is a Status: Ok(v) where the C function returns v >= 0,
 *  Err(e) where it returns -e.  The mutex, the allocator and the user-copy
 *  primitives are not modelled; their outcomes arrive as parameters:
 *  `interrupted` (mutex_lock_interruptible was interrupted), `allocOk`
 *  (krealloc succeeded), and `userReadable` / `userWritable` (how many bytes
 *  of the caller's buffer copy_from_user / copy_to_user can reach before
 *  faulting).
 */
module AesdChar {
  import opened AesdLog
  import opened AesdCircularBuffer

  datatype Errno = ERESTARTSYS | ENOMEM | EFAULT | EINVAL | ENOTTY

  datatype Status = Ok(value: int) | Err(errno: Errno)

  /** The three whence values llseek handles. */
  datatype Whence = SeekSet | SeekCur | SeekEnd

  /** struct aesd_seekto_ioctl: a command index and an offset inside it. */
  datatype SeekTo = SeekTo(writeCmdNum: nat, writeCmdOffset: nat)

  /** AESD_IOC_MAGIC, AESDCHAR_IOC_MAXNR and AESDCHAR_IOCSEEKTO, which is
   *  _IOWR(AESD_IOC_MAGIC, 1, struct aesd_seekto_ioctl) for an 8-byte struct. */
  const IocMagic: nat := 0x16
  const IocMaxNr: nat := 1
  const IocSeekTo: nat := 0xC008_1601

  /** _IOC_TYPE and _IOC_NR of a command number. */
  function IocType(cmd: nat): nat { (cmd / 0x100) % 0x100 }
  function IocNr(cmd: nat): nat { cmd % 0x100 }

  /** The position llseek aims for before it is checked against [0, total]. */
  function SeekTarget(whence: Whence, fPos: int, offset: int, total: nat): int
  {
    match whence
    case SeekSet => offset
    case SeekCur => fPos + offset
    case SeekEnd => total + offset
  }

  /** `n` NUL bytes: what copy_from_user leaves where it could not copy. */
  function Zeros(n: nat): seq<char>
  {
    seq(n, _ => '\0')
  }

  /** The working entry's bytes survive the grow and the copy; a complete
   *  copy leaves exactly the entry followed by the new bytes. */
  lemma CopyKeepsEntry(entry: seq<char>, bytes: seq<char>, copied: nat)
    requires copied <= |bytes|
    ensures (entry + Zeros(|bytes|))[..|entry|] == entry
    ensures var b := entry + bytes[..copied] + Zeros(|bytes| - copied);
            |b| == |entry| + |bytes| && b[..|entry|] == entry &&
            (copied == |bytes| ==> b == entry + bytes)
  {
    var b := entry + bytes[..copied] + Zeros(|bytes| - copied);
    assert b[..|entry|] == entry;
    if copied == |bytes| {
      assert bytes[..copied] == bytes;
      assert Zeros(0) == [];
    }
  }

  class AesdDev {
    /** circular_buffer: the ring of resident records. */
    const buffer: AesdCircularBuffer
    /** working_entry.buffptr: the allocation the working entry lives in. */
    var workBuf: seq<char>
    /** working_entry.size: how many bytes of workBuf the entry holds. */
    var workSize: nat

    ghost predicate Valid()
      reads this, buffer, buffer.entry
    {
      buffer.Valid() && workSize <= |workBuf| &&
      WellFormed(LogState(buffer.Contents(), workBuf[..workSize]))
    }

    /** The bytes of the working entry. */
    ghost function Working(): seq<char>
      reads this
      requires workSize <= |workBuf|
    {
      workBuf[..workSize]
    }

    /** The resident records and the working entry. */
    ghost function View(): LogState
      reads this, buffer, buffer.entry
      requires Valid()
    {
      LogState(buffer.Contents(), Working())
    }

    /** The device as aesd_init_module leaves it after its memset. */
    constructor ()
      ensures Valid() && fresh(buffer) && fresh(buffer.entry)
      ensures View() == EmptyLog() && workBuf == [] && workSize == 0
    {
      buffer := new AesdCircularBuffer();
      workBuf, workSize := [], 0;
    }

    /** aesd_read: find the record holding byte fPos and copy out at most
     *  `count` bytes of it, never past its end.  No record there is end of
     *  file: 0 bytes and no error.  The device is not changed. */
    method Read(fPos: int, count: nat, interrupted: bool, userWritable: nat)
      returns (ret: Status, data: seq<char>, newFPos: int)
      requires Valid()
      ensures interrupted ==> ret == Err(ERESTARTSYS) && data == [] && newFPos == fPos
      ensures !interrupted ==>
                var bytes := ReadAt(buffer.Contents(), fPos, count);
                if userWritable < |bytes| then ret == Err(EFAULT) && data == [] && newFPos == fPos
                else ret == Ok(|bytes|) && data == bytes && newFPos == fPos + |bytes|
    {
      if interrupted {
        return Err(ERESTARTSYS), [], fPos;
      }
      var found := buffer.FindEntryOffsetForFpos(fPos);
      if found.None? {
        return Ok(0), [], fPos;
      }
      var entry := buffer.entry[Wrap(buffer.outOffs + found.value.index)];
      ContentsAt(buffer, found.value.index);
      var entryOffset := found.value.offset;
      var n := ReadLength(count, |entry|, entryOffset);
      assert ReadAt(buffer.Contents(), fPos, count) == entry[entryOffset..entryOffset + n];
      if userWritable < n {
        return Err(EFAULT), [], fPos;
      }
      return Ok(n), entry[entryOffset..entryOffset + n], fPos + n;
    }

    /** The append half of aesd_write: krealloc the working entry to
     *  size + count, then copy_from_user the caller's bytes to its tail.  A
     *  failed krealloc changes nothing; a faulting copy leaves the grown
     *  allocation holding what it copied and zeroes, and the size as it was. */
    method Append(bytes: seq<char>, allocOk: bool, userReadable: nat) returns (ret: Status)
      requires workSize <= |workBuf|
      modifies this
      ensures workSize <= |workBuf|
      ensures !allocOk ==> ret == Err(ENOMEM) && workBuf == old(workBuf) && workSize == old(workSize)
      ensures allocOk && userReadable < |bytes| ==>
                ret == Err(EFAULT) && workSize == old(workSize) &&
                workBuf == old(Working()) + bytes[..userReadable] + Zeros(|bytes| - userReadable)
      ensures allocOk && userReadable >= |bytes| ==>
                ret == Ok(|bytes|) && workBuf == old(Working()) + bytes && workSize == |workBuf|
    {
      if !allocOk {
        return Err(ENOMEM);
      }
      ghost var entry := Working();
      // krealloc keeps the entry's bytes; the copy below writes every byte
      // of the new tail.
      workBuf := workBuf[..workSize] + Zeros(|bytes|);
      var copied := if userReadable < |bytes| then userReadable else |bytes|;
      CopyKeepsEntry(entry, bytes, copied);
      workBuf := workBuf[..workSize] + bytes[..copied] + Zeros(|bytes| - copied);
      if copied < |bytes| {
        return Err(EFAULT);
      }
      workSize := workSize + |bytes|;
      return Ok(|bytes|);
    }

    /** The promotion half of aesd_write: when the working entry's last byte
     *  is a newline, hand it to the ring (whose full-ring eviction drops the
     *  oldest record) and start an empty working entry. */
    method PromoteIfComplete()
      requires buffer.Valid() && workSize == |workBuf|
      requires WellFormed(LogState(buffer.Contents(), []))
      modifies this, buffer, buffer.entry
      ensures Valid()
      ensures View() == Accept(LogState(old(buffer.Contents()), []), old(workBuf))
      ensures !EndsRecord(old(workBuf)) ==>
                unchanged(buffer, buffer.entry) && workBuf == old(workBuf) && workSize == old(workSize)
    {
      ghost var s := LogState(buffer.Contents(), []);
      assert s.working + workBuf == workBuf;
      if workSize > 0 && workBuf[workSize - 1] == '\n' {
        buffer.AddEntry(workBuf);
        workBuf, workSize := [], 0;
      } else {
        assert workBuf[..workSize] == workBuf;
      }
    }

    /** aesd_write: grow the working entry by the caller's bytes; when its
     *  last byte is then a newline, promote it into the ring (overwriting the
     *  oldest record when the ring is full) and start an empty entry. */
    method Write(bytes: seq<char>, interrupted: bool, allocOk: bool, userReadable: nat)
      returns (ret: Status)
      requires Valid()
      modifies this, buffer, buffer.entry
      ensures Valid()
      ensures interrupted || !allocOk ==>
                ret == (if interrupted then Err(ERESTARTSYS) else Err(ENOMEM)) &&
                workBuf == old(workBuf) && workSize == old(workSize) &&
                unchanged(buffer, buffer.entry)
      ensures !interrupted && allocOk && userReadable < |bytes| ==>
                ret == Err(EFAULT) && unchanged(buffer, buffer.entry) &&
                workSize == old(workSize) && Working() == old(Working()) &&
                workBuf == old(Working()) + bytes[..userReadable] + Zeros(|bytes| - userReadable)
      ensures !interrupted && allocOk && userReadable >= |bytes| ==>
                ret == Ok(|bytes|) && View() == Accept(old(View()), bytes)
      ensures !interrupted && allocOk && userReadable >= |bytes| &&
              !EndsRecord(old(Working()) + bytes) ==>
                unchanged(buffer, buffer.entry) && workBuf == old(Working()) + bytes
    {
      if interrupted {
        return Err(ERESTARTSYS);
      }
      ghost var before := View();
      ret := Append(bytes, allocOk, userReadable);
      if ret.Err? {
        assert LogState(buffer.Contents(), workBuf[..workSize]) == before by {
          CopyKeepsEntry(before.working, bytes, if userReadable < |bytes| then userReadable else |bytes|);
        }
        return;
      }
      assert WellFormed(LogState(buffer.Contents(), []));
      assert [] + workBuf == workBuf;
      PromoteIfComplete();
    }

    /** The sum of the sizes of the `num` oldest resident records, adding
     *  them up slot by slot from out_offs: the AESD_CIRCULAR_BUFFER_FOREACH
     *  total of aesd_llseek and the prefix sum of aesd_ioctl. */
    method SizeBefore(num: nat) returns (total: nat)
      requires buffer.Valid() && num <= buffer.entryCount
      ensures total == TotalSize(buffer.Contents()[..num])
    {
      ghost var cs := buffer.Contents();
      total := 0;
      var i := 0;
      while i < num
        invariant 0 <= i <= num
        invariant total == TotalSize(cs[..i])
      {
        ContentsAt(buffer, i);
        TotalSizeStep(cs, i);
        total := total + |buffer.entry[Wrap(buffer.outOffs + i)]|;
        i := i + 1;
      }
    }

    /** aesd_llseek: add up the resident record sizes, then move to offset,
     *  fPos + offset or total + offset; a target outside [0, total] is
     *  refused and the position kept. */
    method Llseek(fPos: int, offset: int, whence: Whence, interrupted: bool)
      returns (ret: Status, newFPos: int)
      requires Valid()
      ensures interrupted ==> ret == Err(ERESTARTSYS) && newFPos == fPos
      ensures !interrupted ==>
                var total := TotalSize(buffer.Contents());
                var target := SeekTarget(whence, fPos, offset, total);
                if 0 <= target <= total then ret == Ok(target) && newFPos == target
                else ret == Err(EINVAL) && newFPos == fPos
    {
      if interrupted {
        return Err(ERESTARTSYS), fPos;
      }
      var totalSize := SizeBefore(buffer.entryCount);
      assert buffer.Contents()[..buffer.entryCount] == buffer.Contents();
      var newPos;
      match whence {
        case SeekSet => newPos := offset;
        case SeekCur => newPos := fPos + offset;
        case SeekEnd => newPos := totalSize + offset;
      }
      if newPos < 0 || newPos > totalSize {
        return Err(EINVAL), fPos;
      }
      return Ok(newPos), newPos;
    }

    /** aesd_ioctl: only AESDCHAR_IOCSEEKTO is served; its argument must be
     *  readable from the caller (None when copy_from_user faults). */
    method Ioctl(fPos: int, cmd: nat, arg: Option<SeekTo>, interrupted: bool)
      returns (ret: Status, newFPos: int)
      requires Valid()
      ensures IocType(cmd) != IocMagic || IocNr(cmd) > IocMaxNr ==>
                ret == Err(ENOTTY) && newFPos == fPos
      ensures IocType(cmd) == IocMagic && IocNr(cmd) <= IocMaxNr && cmd != IocSeekTo ==>
                ret == Err(EINVAL) && newFPos == fPos
      ensures cmd == IocSeekTo && arg.None? ==> ret == Err(EFAULT) && newFPos == fPos
      ensures cmd == IocSeekTo && arg.Some? ==> SeekToDone(fPos, arg.value, interrupted, ret, newFPos)
    {
      if IocType(cmd) != IocMagic || IocNr(cmd) > IocMaxNr {
        return Err(ENOTTY), fPos;
      }
      if cmd != IocSeekTo {
        return Err(EINVAL), fPos;
      }
      if arg.None? {
        return Err(EFAULT), fPos;
      }
      ret, newFPos := SeekToCommand(fPos, arg.value, interrupted);
    }

    /** The outcome of AESDCHAR_IOCSEEKTO once its argument is read: move to
     *  byte writeCmdOffset of the resident record writeCmdNum (0 is the
     *  oldest), which must exist. */
    ghost predicate SeekToDone(fPos: int, seekTo: SeekTo, interrupted: bool, ret: Status, newFPos: int)
      reads this, buffer, buffer.entry
      requires Valid()
    {
      var cs := buffer.Contents();
      var num, off := seekTo.writeCmdNum, seekTo.writeCmdOffset;
      if interrupted then ret == Err(ERESTARTSYS) && newFPos == fPos
      else if num >= |cs| || off >= |cs[num]| then ret == Err(EINVAL) && newFPos == fPos
      else ret == Ok(0) && newFPos == TotalSize(cs[..num]) + off &&
           FindFpos(cs, newFPos) == Some(EntryPos(num, off))
    }

    /** The AESDCHAR_IOCSEEKTO half of aesd_ioctl, after the argument is
     *  copied in: take the lock, check the command index and offset, and set
     *  the position to the sum of the sizes of the older records plus the
     *  offset. */
    method SeekToCommand(fPos: int, seekTo: SeekTo, interrupted: bool)
      returns (ret: Status, newFPos: int)
      requires Valid()
      ensures SeekToDone(fPos, seekTo, interrupted, ret, newFPos)
    {
      if interrupted {
        return Err(ERESTARTSYS), fPos;
      }
      if seekTo.writeCmdNum < buffer.entryCount {
        ContentsAt(buffer, seekTo.writeCmdNum);
      }
      if seekTo.writeCmdNum >= buffer.entryCount ||
         seekTo.writeCmdOffset >= |buffer.entry[Wrap(buffer.outOffs + seekTo.writeCmdNum)]| {
        return Err(EINVAL), fPos;
      }
      var newFpos := SizeBefore(seekTo.writeCmdNum);
      newFpos := newFpos + seekTo.writeCmdOffset;
      FindFposAt(buffer.Contents(), seekTo.writeCmdNum, seekTo.writeCmdOffset);
      return Ok(0), newFpos;
    }
  }

  /** seek(END, 0) lands on the total resident size, and seek(CUR, 0) from
   *  there stays put. */
  method SeekEndThenCur(dev: AesdDev, fPos: int) returns (first: Status, second: Status, pos: int)
    requires dev.Valid()
    ensures first == Ok(TotalSize(dev.buffer.Contents())) && second == first
    ensures pos == TotalSize(dev.buffer.Contents())
  {
    var atEnd;
    first, atEnd := dev.Llseek(fPos, 0, SeekEnd, false);
    second, pos := dev.Llseek(atEnd, 0, SeekCur, false);
  }

  /** Seeking by command to byte `o` of record `i` and then reading returns
   *  the bytes of record `i` from `o` on, up to `count` of them. */
  method SeekToThenRead(dev: AesdDev, i: nat, o: nat, count: nat) returns (data: seq<char>)
    requires dev.Valid() && i < |dev.buffer.Contents()| && o < |dev.buffer.Contents()[i]|
    ensures var r := dev.buffer.Contents()[i];
            data == r[o..o + (if count < |r| - o then count else |r| - o)]
  {
    var seekRet, pos := dev.Ioctl(0, IocSeekTo, Some(SeekTo(i, o)), false);
    ReadAtRecord(dev.buffer.Contents(), i, o, count);
    var readRet, bytes, after := dev.Read(pos, count, false, count);
    data := bytes;
  }

  /** The promotion test as main.c line 115 writes it reads byte size - 1 of
   *  the working entry whatever the size; this is the index it reads. */
  function PromoteTestIndexAsWritten(size: nat): int
  {
    size - 1
  }

  /** A write of zero bytes while the working entry is empty (the initial
   *  state, and the state after any promotion) that gets past the lock and
   *  krealloc: the entry keeps size 0 in a zero-size allocation, so the
   *  index the promotion test as written reads lies outside that allocation.
   *  PromoteIfComplete tests `workSize > 0` first. */
  method ZeroByteWriteReadsBeforeBuffer(dev: AesdDev) returns (ret: Status, index: int)
    requires dev.Valid() && dev.workSize == 0
    modifies dev
    ensures ret == Ok(0)
    ensures dev.workSize == 0 && dev.workBuf == []
    ensures index == PromoteTestIndexAsWritten(dev.workSize)
    ensures !(0 <= index < |dev.workBuf|)
  {
    ret := dev.Append([], true, 0);
    index := PromoteTestIndexAsWritten(dev.workSize);
  }
}
