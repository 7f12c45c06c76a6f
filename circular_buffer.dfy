/** The ring of record slots (struct aesd_circular_buffer) and the two helpers
 *  the driver calls on it, aesd_circular_buffer_add_entry and
 *  aesd_circular_buffer_find_entry_offset_for_fpos, plus the resident-slot
 *  walk AESD_CIRCULAR_BUFFER_FOREACH.  The file that defines them,
 *  aesd-circular-buffer.c, is not part of this model: the bodies below are
 *  written from the contracts the driver relies on, and those contracts are
 *  assumptions about that file, not statements about code that is cited.
 */
module AesdCircularBuffer {
  import opened AesdLog

  /** Slot arithmetic modulo N for a sum of two slot indices or of an index
   *  and a count, written without the division. */
  function Wrap(a: nat): (r: nat)
    requires a < 2 * N
    ensures r < N && (r == a || r + N == a)
  {
    if a < N then a else a - N
  }

  /** Wrap is the driver's `% AESDCHAR_MAX_WRITE_OPERATIONS_SUPPORTED`. */
  lemma WrapIsMod(a: nat)
    requires a < 2 * N
    ensures Wrap(a) == a % N
  {
  }

  /** The records resident in `slots`, oldest first: `count` slots starting
   *  at `outOffs` and wrapping round the end of the ring. */
  function Resident(slots: seq<Record>, outOffs: nat, count: nat): (r: seq<Record>)
    requires |slots| == N && outOffs < N && count <= N
    ensures |r| == count
  {
    if count == 0 then [] else Resident(slots, outOffs, count - 1) + [slots[Wrap(outOffs + count - 1)]]
  }

  /** The i-th oldest resident record is in slot out_offs + i, wrapped. */
  lemma {:induction false} ResidentAt(slots: seq<Record>, outOffs: nat, count: nat, i: nat)
    requires |slots| == N && outOffs < N && i < count <= N
    ensures Resident(slots, outOffs, count)[i] == slots[Wrap(outOffs + i)]
  {
    if i < count - 1 {
      ResidentAt(slots, outOffs, count - 1, i);
    }
  }

  /** Overwriting a slot outside the resident window changes nothing. */
  lemma ResidentFrame(slots: seq<Record>, outOffs: nat, count: nat, j: nat, e: Record)
    requires |slots| == N && outOffs < N && count < N && j == Wrap(outOffs + count)
    ensures Resident(slots[j := e], outOffs, count) == Resident(slots, outOffs, count)
  {
    var before, after := Resident(slots, outOffs, count), Resident(slots[j := e], outOffs, count);
    forall i | 0 <= i < count
      ensures after[i] == before[i]
    {
      ResidentAt(slots, outOffs, count, i);
      ResidentAt(slots[j := e], outOffs, count, i);
    }
  }

  /** Storing into the slot after the newest record, when one is free,
   *  appends to the resident records. */
  lemma ResidentAddFree(slots: seq<Record>, outOffs: nat, count: nat, e: Record)
    requires |slots| == N && outOffs < N && count < N
    ensures Resident(slots[Wrap(outOffs + count) := e], outOffs, count + 1)
            == Resident(slots, outOffs, count) + [e]
  {
    ResidentFrame(slots, outOffs, count, Wrap(outOffs + count), e);
  }

  /** Storing into the oldest slot of a full ring and advancing the read
   *  cursor drops the oldest record and appends the new one. */
  lemma ResidentAddFull(slots: seq<Record>, outOffs: nat, e: Record)
    requires |slots| == N && outOffs < N
    ensures Resident(slots[outOffs := e], Wrap(outOffs + 1), N)
            == Resident(slots, outOffs, N)[1..] + [e]
  {
    var before := Resident(slots, outOffs, N);
    var after := Resident(slots[outOffs := e], Wrap(outOffs + 1), N);
    forall i | 0 <= i < N
      ensures after[i] == (before[1..] + [e])[i]
    {
      ResidentAt(slots[outOffs := e], Wrap(outOffs + 1), N, i);
      if i < N - 1 {
        ResidentAt(slots, outOffs, N, i + 1);
      }
    }
  }

  /** add_entry on the slot values: store into the slot after the newest
   *  record (the oldest one when the ring is full) and advance the read
   *  cursor when full; the resident records are then the promoted ones. */
  lemma ResidentAdd(slots: seq<Record>, outOffs: nat, count: nat, e: Record,
                    slots': seq<Record>, outOffs': nat, count': nat)
    requires |slots| == N && outOffs < N && count <= N
    requires slots' == slots[Wrap(outOffs + count) := e]
    requires outOffs' == if count == N then Wrap(outOffs + 1) else outOffs
    requires count' == if count == N then N else count + 1
    ensures Resident(slots', outOffs', count') == AddRecord(Resident(slots, outOffs, count), e)
  {
    if count == N {
      ResidentAddFull(slots, outOffs, e);
    } else {
      ResidentAddFree(slots, outOffs, count, e);
    }
  }

  /** The cursor arithmetic of add_entry: after storing at out_offs +
   *  entry_count, the write cursor is again entry_count slots past the read
   *  cursor, and the two meet exactly when the ring has become full. */
  lemma AdvanceCursors(outOffs: nat, count: nat)
    requires outOffs < N && count <= N
    ensures var nextOut := if count == N then Wrap(outOffs + 1) else outOffs;
            var nextCount := if count == N then N else count + 1;
            Wrap(Wrap(outOffs + count) + 1) == Wrap(nextOut + nextCount) &&
            (Wrap(Wrap(outOffs + count) + 1) == nextOut <==> nextCount == N)
  {
  }

  class AesdCircularBuffer {
    /** entry[]: the N slots; a slot holds a record's bytes (buffptr, size). */
    const entry: array<Record>
    var inOffs: nat
    var outOffs: nat
    var full: bool
    var entryCount: nat

    ghost predicate Valid()
      reads this, entry
    {
      entry.Length == N && inOffs < N && outOffs < N && entryCount <= N &&
      (full <==> entryCount == N) &&
      inOffs == Wrap(outOffs + entryCount)
    }

    /** The resident records in chronological order. */
    ghost function Contents(): seq<Record>
      reads this, entry
      requires Valid()
    {
      Resident(entry[..], outOffs, entryCount)
    }

    /** The zeroed buffer of aesd_init_module's memset: empty slots, both
     *  cursors at 0, not full. */
    constructor ()
      ensures Valid() && fresh(entry)
      ensures inOffs == 0 && outOffs == 0 && !full && entryCount == 0
      ensures Contents() == []
    {
      entry := new Record[N](_ => []);
      inOffs, outOffs, full, entryCount := 0, 0, false, 0;
    }

    /** aesd_circular_buffer_add_entry: store at in_offs, advance in_offs; when
     *  the ring was full, out_offs advances too, so the oldest record is
     *  overwritten. */
    method AddEntry(e: Record)
      requires Valid()
      modifies this, entry
      ensures Valid()
      ensures entry[..] == old(entry[..])[old(inOffs) := e]
      ensures inOffs == Wrap(old(inOffs) + 1)
      ensures outOffs == if old(full) then Wrap(old(outOffs) + 1) else old(outOffs)
      ensures full == (inOffs == outOffs)
      ensures entryCount == if old(full) then N else old(entryCount) + 1
      ensures Contents() == AddRecord(old(Contents()), e)
    {
      ghost var slots, o, c := entry[..], outOffs, entryCount;
      var wasFull, at := full, inOffs;
      entry[at] := e;
      assert entry[..] == slots[at := e];
      var nextIn := Wrap(at + 1);
      var nextOut := if wasFull then Wrap(outOffs + 1) else outOffs;
      var count := if wasFull then entryCount else entryCount + 1;
      AdvanceCursors(o, c);
      inOffs, outOffs, entryCount, full := nextIn, nextOut, count, nextIn == nextOut;
      ResidentAdd(slots, o, c, e, entry[..], outOffs, entryCount);
    }

    /** aesd_circular_buffer_find_entry_offset_for_fpos: walk the resident
     *  records oldest first, accumulating sizes, to the one that holds
     *  byte `charOffset`.  A negative position (a loff_t that becomes a huge
     *  size_t) lies beyond every record. */
    method FindEntryOffsetForFpos(charOffset: int) returns (r: Option<EntryPos>)
      requires Valid()
      ensures r == FindFpos(Contents(), charOffset)
    {
      ghost var cs := Contents();
      if charOffset < 0 {
        FindFposNoneIff(cs, charOffset);
        return None;
      }
      var i, acc := 0, 0;
      while i < entryCount
        invariant 0 <= i <= entryCount
        invariant acc == TotalSize(cs[..i]) && acc <= charOffset
      {
        var size := |entry[Wrap(outOffs + i)]|;
        ContentsAt(this, i);
        if charOffset < acc + size {
          assert FindFpos(cs, charOffset) == Some(EntryPos(i, charOffset - acc)) by {
            FindFposAt(cs, i, charOffset - acc);
          }
          return Some(EntryPos(i, charOffset - acc));
        }
        TotalSizeStep(cs, i);
        acc := acc + size;
        i := i + 1;
      }
      assert FindFpos(cs, charOffset) == None by {
        assert cs[..i] == cs;
        FindFposNoneIff(cs, charOffset);
      }
      return None;
    }
  }

  /** AESD_CIRCULAR_BUFFER_FOREACH's i-th resident slot, out_offs + i
   *  wrapped, holds the i-th oldest record. */
  lemma ContentsAt(b: AesdCircularBuffer, i: nat)
    requires b.Valid() && i < b.entryCount
    ensures b.Contents()[i] == b.entry[Wrap(b.outOffs + i)]
  {
    ResidentAt(b.entry[..], b.outOffs, b.entryCount, i);
  }

  /** When the ring is full the write cursor sits on the read cursor, so the
   *  slot add_entry overwrites holds the oldest resident record. */
  lemma FullOverwritesOldest(b: AesdCircularBuffer)
    requires b.Valid() && b.full
    ensures b.inOffs == b.outOffs
    ensures b.entry[b.inOffs] == b.Contents()[0]
  {
    ContentsAt(b, 0);
  }
}
