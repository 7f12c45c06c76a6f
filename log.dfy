/** The record log that the aesd character device exposes, as pure values.
 *
 *  A record is the byte string of one newline-terminated write sequence.  The
 *  resident records are kept oldest first; the logical address space is their
 *  concatenation.  The device methods in module AesdChar are proved against
 *  the functions here, and the lemmas here say what those functions mean.
 */
module AesdLog {

  datatype Option<T> = None | Some(value: T)

  /** AESDCHAR_MAX_WRITE_OPERATIONS_SUPPORTED: the number of ring slots. */
  const N: nat := 10

  type Record = seq<char>

  /** Sum of the sizes of the records, summed from the back. */
  function TotalSize(rs: seq<Record>): nat
  {
    if rs == [] then 0 else TotalSize(rs[..|rs| - 1]) + |rs[|rs| - 1]|
  }

  /** Concatenation of the records: the logical address space. */
  function Concat(rs: seq<Record>): seq<char>
  {
    if rs == [] then [] else Concat(rs[..|rs| - 1]) + rs[|rs| - 1]
  }

  lemma {:induction false} TotalSizeAppend(a: seq<Record>, b: seq<Record>)
    ensures TotalSize(a + b) == TotalSize(a) + TotalSize(b)
    decreases |b|
  {
    if b != [] {
      assert (a + b)[..|a + b| - 1] == a + b[..|b| - 1];
      TotalSizeAppend(a, b[..|b| - 1]);
    } else {
      assert a + b == a;
    }
  }

  lemma TotalSizeCons(r: Record, rs: seq<Record>)
    ensures TotalSize([r] + rs) == |r| + TotalSize(rs)
  {
    TotalSizeAppend([r], rs);
    assert [r][..0] == [];
  }

  /** Adding up one more record's size. */
  lemma TotalSizeStep(rs: seq<Record>, i: nat)
    requires i < |rs|
    ensures TotalSize(rs[..i + 1]) == TotalSize(rs[..i]) + |rs[i]|
  {
    assert rs[..i + 1][..i] == rs[..i];
  }

  /** The size of the address space is the length of the concatenation. */
  lemma {:induction false} TotalSizeIsLength(rs: seq<Record>)
    ensures TotalSize(rs) == |Concat(rs)|
  {
    if rs != [] {
      TotalSizeIsLength(rs[..|rs| - 1]);
    }
  }

  /** A record index and an offset inside that record. */
  datatype EntryPos = EntryPos(index: nat, offset: nat)

  /** Translates a cumulative byte offset into the resident record that holds
   *  it, walking the records oldest first; None when no record holds it. */
  function FindFpos(rs: seq<Record>, pos: int): (r: Option<EntryPos>)
    ensures r.Some? ==> r.value.index < |rs| && r.value.offset < |rs[r.value.index]|
  {
    if rs == [] || pos < 0 then None
    else if pos < |rs[0]| then Some(EntryPos(0, pos))
    else match FindFpos(rs[1..], pos - |rs[0]|)
      case None => None
      case Some(p) => Some(EntryPos(p.index + 1, p.offset))
  }

  /** A found position lies exactly `offset` bytes into record `index`. */
  lemma {:induction false} FindFposSound(rs: seq<Record>, pos: int)
    ensures FindFpos(rs, pos).Some? ==>
              pos == TotalSize(rs[..FindFpos(rs, pos).value.index]) + FindFpos(rs, pos).value.offset
  {
    if rs != [] && pos >= |rs[0]| {
      var sub := FindFpos(rs[1..], pos - |rs[0]|);
      if sub.Some? {
        FindFposSound(rs[1..], pos - |rs[0]|);
        var j := sub.value.index;
        assert rs[..j + 1] == [rs[0]] + rs[1..][..j];
        TotalSizeCons(rs[0], rs[1..][..j]);
      }
    }
  }

  /** Every byte of every record is found at its cumulative offset: the
   *  record-index addressing and the byte addressing agree. */
  lemma {:induction false} FindFposAt(rs: seq<Record>, i: nat, o: nat)
    requires i < |rs| && o < |rs[i]|
    ensures FindFpos(rs, TotalSize(rs[..i]) + o) == Some(EntryPos(i, o))
  {
    if i > 0 {
      assert rs[..i] == [rs[0]] + rs[1..][..i - 1];
      TotalSizeCons(rs[0], rs[1..][..i - 1]);
      FindFposAt(rs[1..], i - 1, o);
    }
  }

  /** No record holds the position exactly when it lies outside [0, total). */
  lemma {:induction false} FindFposNoneIff(rs: seq<Record>, pos: int)
    ensures FindFpos(rs, pos).None? <==> pos < 0 || pos >= TotalSize(rs)
  {
    if rs != [] {
      TotalSizeCons(rs[0], rs[1..]);
      assert [rs[0]] + rs[1..] == rs;
      if pos >= |rs[0]| {
        FindFposNoneIff(rs[1..], pos - |rs[0]|);
      }
    }
  }

  /** The clamp of aesd_read: a read of `count` bytes starting `offset` bytes
   *  into a record of `size` bytes stops at the end of that record. */
  function ReadLength(count: nat, size: nat, offset: nat): (n: nat)
    requires offset <= size
    ensures n <= count && offset + n <= size
    ensures n == count || offset + n == size
  {
    if offset + count > size then size - offset else count
  }

  /** The bytes a successful read of `count` bytes at position `pos` returns. */
  function ReadAt(rs: seq<Record>, pos: int, count: nat): (r: seq<char>)
    ensures |r| <= count
  {
    match FindFpos(rs, pos)
    case None => []
    case Some(p) =>
      rs[p.index][p.offset..p.offset + ReadLength(count, |rs[p.index]|, p.offset)]
  }

  /** A read returns nothing exactly at end of data, before the start, or
   *  when nothing was asked for. */
  lemma ReadAtEmptyIff(rs: seq<Record>, pos: int, count: nat)
    ensures ReadAt(rs, pos, count) == [] <==> pos < 0 || pos >= TotalSize(rs) || count == 0
  {
    FindFposNoneIff(rs, pos);
  }

  /** Reading at the offset of byte `o` of record `i` returns the bytes of
   *  record `i` from `o` on, never more than remain in that record. */
  lemma ReadAtRecord(rs: seq<Record>, i: nat, o: nat, count: nat)
    requires i < |rs| && o < |rs[i]|
    ensures ReadAt(rs, TotalSize(rs[..i]) + o, count)
            == rs[i][o..o + (if count < |rs[i]| - o then count else |rs[i]| - o)]
  {
    FindFposAt(rs, i, o);
  }

  /** Promotion of one record into the ring: the new record becomes the
   *  newest, and the ring grows by one until it holds N. */
  function AddRecord(rs: seq<Record>, e: Record): (r: seq<Record>)
    requires |rs| <= N
    ensures |r| == (if |rs| < N then |rs| + 1 else N)
    ensures r[|r| - 1] == e
  {
    if |rs| == N then rs[1..] + [e] else rs + [e]
  }

  /** Promotion of several records in turn. */
  function AddAll(rs: seq<Record>, es: seq<Record>): seq<Record>
    requires |rs| <= N
    decreases |es|
  {
    if es == [] then rs else AddAll(AddRecord(rs, es[0]), es[1..])
  }

  /** How many of `n` records promoted in turn have been overwritten. */
  function Dropped(n: nat): nat
  {
    if n > N then n - N else 0
  }

  /** After any sequence of promotions the ring holds the newest N records
   *  of everything ever promoted, oldest first. */
  lemma {:induction false} AddAllKeepsNewest(rs: seq<Record>, es: seq<Record>)
    requires |rs| <= N
    ensures AddAll(rs, es) == (rs + es)[Dropped(|rs| + |es|)..]
    decreases |es|
  {
    if es == [] {
      assert rs + es == rs;
    } else {
      var r1 := AddRecord(rs, es[0]);
      var t := es[1..];
      calc {
        AddAll(rs, es);
        AddAll(r1, t);
        { AddAllKeepsNewest(r1, t); }
        (r1 + t)[Dropped(|r1| + |t|)..];
        { KeepNewestStep(rs, es[0], t); }
        (rs + [es[0]] + t)[Dropped(|rs| + 1 + |t|)..];
        { assert rs + [es[0]] + t == rs + es; }
        (rs + es)[Dropped(|rs| + |es|)..];
      }
    }
  }

  /** Promoting one record and then keeping the newest of it and the rest
   *  keeps the same records as keeping the newest of everything at once. */
  lemma KeepNewestStep(rs: seq<Record>, e: Record, rest: seq<Record>)
    requires |rs| <= N
    ensures (AddRecord(rs, e) + rest)[Dropped(|AddRecord(rs, e)| + |rest|)..]
            == (rs + [e] + rest)[Dropped(|rs| + 1 + |rest|)..]
  {
    var all := rs + [e] + rest;
    if |rs| == N {
      assert AddRecord(rs, e) + rest == all[1..];
      SliceOfSlice(all, 1, |rest|);
    } else {
      assert AddRecord(rs, e) + rest == all;
    }
  }

  lemma SliceOfSlice(a: seq<Record>, k: nat, d: nat)
    requires k + d <= |a|
    ensures a[k..][d..] == a[k + d..]
  {
  }

  /** Once at least N records have been promoted, whatever the ring held
   *  before is gone and it holds exactly the last N of them, in order. */
  lemma LastNAfterNPromotions(rs: seq<Record>, es: seq<Record>)
    requires |rs| <= N && |es| >= N
    ensures AddAll(rs, es) == es[|es| - N..]
  {
    AddAllKeepsNewest(rs, es);
    var all := rs + es;
    assert Dropped(|rs| + |es|) == |rs| + |es| - N;
    assert all[|rs| + |es| - N..] == es[|es| - N..];
  }

  /** The record log plus the working (not yet terminated) entry. */
  datatype LogState = LogState(records: seq<Record>, working: Record)

  /** The last byte is a newline: the test that promotes the working entry. */
  predicate EndsRecord(w: seq<char>)
  {
    |w| > 0 && w[|w| - 1] == '\n'
  }

  /** At most N records, each newline-terminated, and a working entry that
   *  does not end in a newline (it would have been promoted). */
  predicate WellFormed(s: LogState)
  {
    |s.records| <= N &&
    (forall k :: 0 <= k < |s.records| ==> EndsRecord(s.records[k])) &&
    !EndsRecord(s.working)
  }

  function EmptyLog(): (s: LogState)
    ensures WellFormed(s) && TotalSize(s.records) == 0
  {
    LogState([], [])
  }

  /** A successful aesd_write of `bytes`: append to the working entry, and
   *  promote it when its last byte is a newline. */
  function Accept(s: LogState, bytes: seq<char>): (r: LogState)
    requires WellFormed(s)
    ensures WellFormed(r)
    ensures EndsRecord(s.working + bytes) ==>
              r.working == [] && |r.records| > 0 && r.records[|r.records| - 1] == s.working + bytes
    ensures !EndsRecord(s.working + bytes) ==>
              r.records == s.records && r.working == s.working + bytes
  {
    var w := s.working + bytes;
    if EndsRecord(w) then LogState(AddRecord(s.records, w), []) else LogState(s.records, w)
  }

  /** While the ring has a free slot no byte is lost: the records followed by
   *  the working entry are the old ones followed by the new bytes. */
  lemma AcceptConserves(s: LogState, bytes: seq<char>)
    requires WellFormed(s) && |s.records| < N
    ensures Concat(Accept(s, bytes).records) + Accept(s, bytes).working
            == Concat(s.records) + s.working + bytes
  {
    var w := s.working + bytes;
    if EndsRecord(w) {
      assert (s.records + [w])[..|s.records|] == s.records;
    }
  }

  /** A write of zero bytes changes nothing. */
  lemma AcceptNothing(s: LogState)
    requires WellFormed(s)
    ensures Accept(s, []) == s
  {
    assert s.working + [] == s.working;
  }

  /** Successful writes in turn. */
  function AcceptAll(s: LogState, chunks: seq<seq<char>>): (r: LogState)
    requires WellFormed(s)
    ensures WellFormed(r)
    decreases |chunks|
  {
    if chunks == [] then s else AcceptAll(Accept(s, chunks[0]), chunks[1..])
  }

  /** The bytes of several writes, in order. */
  function Flatten(chunks: seq<seq<char>>): seq<char>
  {
    if chunks == [] then [] else chunks[0] + Flatten(chunks[1..])
  }

  /** Writing the chunks in turn onto working entry `w`, no write leaves the
   *  entry ending in a newline: no cumulative prefix of the chunks,
   *  appended to `w`, ends a record. */
  predicate NeverTerminated(w: seq<char>, chunks: seq<seq<char>>)
    decreases |chunks|
  {
    chunks == [] || (!EndsRecord(w + chunks[0]) && NeverTerminated(w + chunks[0], chunks[1..]))
  }

  /** Partial writes accumulate: while no write completes a record, the ring
   *  is untouched and the working entry grows by every chunk. */
  lemma {:induction false} AccumulateUntilNewline(s: LogState, chunks: seq<seq<char>>)
    requires WellFormed(s) && NeverTerminated(s.working, chunks)
    ensures AcceptAll(s, chunks) == LogState(s.records, s.working + Flatten(chunks))
    decreases |chunks|
  {
    if chunks == [] {
      assert s.working + Flatten(chunks) == s.working;
    } else {
      var s1 := LogState(s.records, s.working + chunks[0]);
      AccumulateUntilNewline(s1, chunks[1..]);
      assert s1.working + Flatten(chunks[1..]) == s.working + Flatten(chunks);
    }
  }

  /** Whole records written one per call are promoted in turn. */
  lemma {:induction false} AcceptWholeRecords(s: LogState, chunks: seq<seq<char>>)
    requires WellFormed(s) && s.working == []
    requires forall i :: 0 <= i < |chunks| ==> EndsRecord(chunks[i])
    ensures AcceptAll(s, chunks) == LogState(AddAll(s.records, chunks), [])
    decreases |chunks|
  {
    if chunks != [] {
      assert s.working + chunks[0] == chunks[0];
      AcceptWholeRecords(Accept(s, chunks[0]), chunks[1..]);
    }
  }

  /** N + 1 newline-terminated writes into an empty device: the oldest record
   *  is gone and the N newest remain, in order. */
  lemma EvictionAfterNPlusOneWrites(chunks: seq<seq<char>>)
    requires |chunks| == N + 1
    requires forall i :: 0 <= i < |chunks| ==> EndsRecord(chunks[i])
    ensures AcceptAll(EmptyLog(), chunks) == LogState(chunks[1..], [])
  {
    AcceptWholeRecords(EmptyLog(), chunks);
    LastNAfterNPromotions([], chunks);
  }

  /** Writing "ab", then "cd", then "ef\n" gives the single record "abcdef\n". */
  lemma PartialWritesExample()
    ensures AcceptAll(EmptyLog(), ["ab", "cd", "ef\n"]) == LogState(["abcdef\n"], [])
  {
    var s1 := LogState([], "ab");
    var s2 := LogState([], "abcd");
    var s3 := LogState(["abcdef\n"], []);
    assert [] + "ab" == "ab";
    assert Accept(EmptyLog(), "ab") == s1;
    assert "ab" + "cd" == "abcd";
    assert Accept(s1, "cd") == s2;
    assert "abcd" + "ef\n" == "abcdef\n";
    assert Accept(s2, "ef\n") == s3;
    assert ["ab", "cd", "ef\n"][1..] == ["cd", "ef\n"];
    assert ["cd", "ef\n"][1..] == ["ef\n"];
    assert ["ef\n"][1..] == [];
    assert AcceptAll(s3, []) == s3;
    assert AcceptAll(s2, ["ef\n"]) == s3;
    assert AcceptAll(s1, ["cd", "ef\n"]) == s3;
  }
}
