/** handle_client_data over the two static tables, updated in place.

    `client_buffers` is 1024 rows of 2048 bytes laid out one after the other,
    so it is kept as one flat array with row i at offset i * 2048;
    `buffer_lens` is an array of 1024 lengths.  Each method is proved against
    the value model of module Slot: the row and length of the connection's
    slot end up as `Handle` says, and no byte or length of any other slot
    changes. */
module ClientData {
  import opened Framing
  import opened Slot

  /** A slice of a slice is a slice. */
  lemma SliceWithin<T>(s: seq<T>, lo: nat, hi: nat, a: nat, b: nat)
    requires lo <= hi <= |s| && a <= b <= hi - lo
    ensures s[lo..hi][a..b] == s[lo + a..lo + b]
  {
    forall k | 0 <= k < b - a
      ensures s[lo..hi][a..b][k] == s[lo + a..lo + b][k]
    {
      assert s[lo..hi][a..b][k] == s[lo..hi][a + k] == s[lo + a + k];
    }
  }

  /** Two buffer tables that agree before and after row idx agree on every
      other row. */
  lemma RowsKept(cur: seq<byte>, prev: seq<byte>, idx: nat, i: nat)
    requires |cur| == |prev| == Slots * SlotSize && idx < Slots && i < Slots && i != idx
    requires cur[..idx * SlotSize] == prev[..idx * SlotSize]
    requires cur[(idx + 1) * SlotSize..] == prev[(idx + 1) * SlotSize..]
    ensures cur[i * SlotSize..(i + 1) * SlotSize] == prev[i * SlotSize..(i + 1) * SlotSize]
  {
    var lo, hi := i * SlotSize, (i + 1) * SlotSize;
    if i < idx {
      var n := idx * SlotSize;
      SliceWithin(cur, 0, n, lo, hi);
      SliceWithin(prev, 0, n, lo, hi);
    } else {
      var n := (idx + 1) * SlotSize;
      SliceWithin(cur, n, |cur|, lo - n, hi - n);
      SliceWithin(prev, n, |prev|, lo - n, hi - n);
    }
  }

  /** Two length tables that agree before and after entry idx agree on
      every other entry. */
  lemma LensKept(cur: seq<int>, prev: seq<int>, idx: nat, i: nat)
    requires |cur| == |prev| == Slots && idx < Slots && i < Slots && i != idx
    requires cur[..idx] == prev[..idx] && cur[idx + 1..] == prev[idx + 1..]
    ensures cur[i] == prev[i]
  {
    if i < idx {
      assert cur[i] == cur[..idx][i];
    } else {
      assert cur[i] == cur[idx + 1..][i - idx - 1];
    }
  }

  class ClientBuffers {
    var buffers: array<byte>  // client_buffers, flattened
    var lens: array<int>      // buffer_lens

    /** The tables have their declared sizes. */
    predicate Shape()
      reads this
    {
      buffers.Length == Slots * SlotSize && lens.Length == Slots
    }

    /** Row i of client_buffers. */
    function Row(i: nat): (r: seq<byte>)
      requires Shape() && i < Slots
      reads this, buffers
      ensures |r| == SlotSize
    {
      buffers[i * SlotSize..(i + 1) * SlotSize]
    }

    /** Slot i: its row and its length. */
    function SlotAt(i: nat): Slot
      requires Shape() && i < Slots && 0 <= lens[i]
      reads this, buffers, lens
    {
      Slot(Row(i), lens[i])
    }

    /** Every slot satisfies the between-calls invariant of module Slot. */
    predicate Valid()
      reads this, buffers, lens
    {
      && Shape()
      && forall i :: 0 <= i < Slots ==> 0 <= lens[i] && SlotInv(Slot(Row(i), lens[i]))
    }

    /** Everything outside slot idx: the bytes before and after its row and
        the lengths before and after its entry. */
    function Outside(idx: nat): (seq<byte>, seq<byte>, seq<int>, seq<int>)
      requires Shape() && idx < Slots
      reads this, buffers, lens
    {
      (buffers[..idx * SlotSize], buffers[(idx + 1) * SlotSize..], lens[..idx], lens[idx + 1..])
    }

    /** No byte outside row idx and no length but lens[idx] has changed. */
    twostate predicate OthersUnchanged(idx: nat)
      reads this, buffers, lens
    {
      && buffers == old(buffers) && lens == old(lens) && Shape() && idx < Slots
      && Outside(idx) == old(Outside(idx))
    }

    /** Both tables start zeroed, as static storage does. */
    constructor ()
      ensures Valid() && fresh(buffers) && fresh(lens)
      ensures forall i :: 0 <= i < Slots ==> lens[i] == 0
      ensures forall k :: 0 <= k < buffers.Length ==> buffers[k] == NUL
    {
      buffers := new byte[Slots * SlotSize](_ => NUL);
      lens := new int[Slots](_ => 0);
    }

    /** One call of handle_client_data(fd) (lines 120-179): the slot
        fd % 1024 ends as the value model's `Handle` leaves it, with the same
        return code and number of replies, and every other slot is untouched.
        The call's reads return `results` in turn and would block after them;
        its j-th reply write fails when `writes` says so. */
    method HandleClientData(fd: nat, results: seq<ReadResult>, writes: seq<bool>) returns (rc: int, replies: nat)
      requires Valid() && ValidReads(results)
      modifies buffers, lens
      ensures Valid()
      ensures var o := Handle(old(SlotAt(fd % Slots)), results, writes, 0);
              SlotAt(fd % Slots) == o.slot && rc == o.rc && replies == o.replies
      ensures OthersUnchanged(fd % Slots)
      ensures forall i :: 0 <= i < Slots && i != fd % Slots ==> SlotAt(i) == old(SlotAt(i))
    {
      var idx := fd % Slots;
      ghost var s0 := SlotAt(idx);
      var k := 0;
      replies := 0;
      rc := 0;
      while true
        invariant k <= |results| && Shape() && 0 <= lens[idx]
        invariant SlotInv(SlotAt(idx))
        invariant Handle(SlotAt(idx), results[k..], writes, replies) == Handle(s0, results, writes, 0)
        invariant OthersUnchanged(idx)
        decreases |results| - k
      {
        if k == |results| {
          break;
        }
        var result := results[k];
        if result.WouldBlock? {
          break;
        } else if result.ReadError? {
          rc := -1;
          KeepsOthers(idx);
          return;
        } else if result.Eof? {
          ghost var s := SlotAt(idx);
          SetLen(idx, 0);
          rc := -1;
          assert SlotAt(idx) == s.(len := 0);
          KeepsOthers(idx);
          return;
        }
        var failed;
        assert results[k..][0] == result && results[k..][1..] == results[k + 1..];
        HandleData(SlotAt(idx), results[k..], writes, replies);
        replies, failed := ReadChunk(idx, result.bytes, replies, writes);
        if failed {
          rc := -1;
          KeepsOthers(idx);
          return;
        }
        k := k + 1;
      }
      KeepsOthers(idx);
    }

    /** Slot aliasing (line 127): a second call on a descriptor congruent to
        the first modulo 1024 starts from the slot the first call left, so it
        frames its bytes behind the first connection's unterminated tail; a
        call on any other descriptor starts from its own slot as it was. */
    method TwoCalls(fd1: nat, results1: seq<ReadResult>, writes1: seq<bool>,
                    fd2: nat, results2: seq<ReadResult>, writes2: seq<bool>)
      returns (rc2: int, replies2: nat)
      requires Valid() && ValidReads(results1) && ValidReads(results2)
      modifies buffers, lens
      ensures Valid()
      ensures var first := Handle(old(SlotAt(fd1 % Slots)), results1, writes1, 0);
              var start := if fd1 % Slots == fd2 % Slots then first.slot else old(SlotAt(fd2 % Slots));
              var second := Handle(start, results2, writes2, 0);
              rc2 == second.rc && replies2 == second.replies && SlotAt(fd2 % Slots) == second.slot
    {
      var rc1, replies1 := HandleClientData(fd1, results1, writes1);
      rc2, replies2 := HandleClientData(fd2, results2, writes2);
    }

    /** Lines 143-175: a read that returned data.  The chunk is appended,
        the messages it completes are answered, and the tail is compacted,
        all as the value model's `ReadRound` says; a failed reply write
        returns at once, before the compaction. */
    method ReadChunk(idx: nat, bytes: seq<byte>, w: nat, writes: seq<bool>) returns (written: nat, failed: bool)
      requires Shape() && idx < Slots && 0 <= lens[idx]
      requires SlotInv(SlotAt(idx)) && 0 < |bytes| <= ReadSize
      modifies buffers, lens
      ensures Shape() && 0 <= lens[idx]
      ensures var r := ReadRound(old(SlotAt(idx)), bytes, writes, w);
              SlotAt(idx) == r.slot && written == r.writes && failed == r.failed
      ensures OthersUnchanged(idx)
    {
      AppendChunk(idx, bytes);
      ghost var a := SlotAt(idx);
      var cursor;
      cursor, written, failed := ExtractMessages(idx, w, writes);
      if !failed {
        ScanStopsAtNul(a.row, 0, w, writes, a.len);
        CompactRow(idx, cursor);
      }
    }

    /** Lines 145-149: the chunk is copied behind the stored bytes and
        terminated if the total stays below 2048; otherwise it is dropped. */
    method AppendChunk(idx: nat, chunk: seq<byte>)
      requires Shape() && idx < Slots && 0 <= lens[idx] < SlotSize
      modifies buffers, lens
      ensures Shape() && 0 <= lens[idx]
      ensures SlotAt(idx) == Append(old(SlotAt(idx)), chunk)
      ensures OthersUnchanged(idx)
    {
      var len := lens[idx];
      if len + |chunk| < SlotSize {
        ghost var row := Row(idx);
        var n := len + |chunk|;
        CopyIn(idx, len, chunk);
        SetLen(idx, n);
        SetByte(idx, n, NUL);
        assert Row(idx) == row[..len] + chunk + [NUL] + row[n + 1..];
      }
    }

    /** Lines 152-166: from the start of the row, each CR LF that strstr finds
        is overwritten with a NUL at its CR and answered with one reply write;
        the search resumes two bytes later, and a failed write stops it. */
    method ExtractMessages(idx: nat, w: nat, writes: seq<bool>) returns (cursor: nat, written: nat, failed: bool)
      requires Shape() && idx < Slots
      modifies buffers
      ensures Shape()
      ensures Scan(old(Row(idx)), 0, w, writes) == ScanResult(Row(idx), cursor, written, failed)
      ensures OthersUnchanged(idx)
    {
      ghost var target := Scan(Row(idx), 0, w, writes);
      cursor, written, failed := 0, w, false;
      var done := false;
      while !done
        invariant cursor <= SlotSize
        invariant !done ==> Scan(Row(idx), cursor, written, writes) == target
        invariant done ==> ScanResult(Row(idx), cursor, written, failed) == target
        invariant OthersUnchanged(idx)
        decreases SlotSize - cursor, !done
      {
        var next;
        next, written, done, failed := AnswerNext(idx, cursor, written, writes);
        if !done {
          cursor := next;
        }
      }
    }

    /** One turn of the message loop: strstr from msg_start; if it finds a
        CR LF, the NUL is written over its CR and the reply is written. */
    method AnswerNext(idx: nat, cursor: nat, w: nat, writes: seq<bool>)
      returns (next: nat, written: nat, done: bool, failed: bool)
      requires Shape() && idx < Slots && cursor <= SlotSize
      modifies buffers
      ensures Shape() && (!done ==> cursor < next <= SlotSize)
      ensures var r := Scan(old(Row(idx)), cursor, w, writes);
              if done then r == ScanResult(Row(idx), cursor, written, failed)
              else r == Scan(Row(idx), next, written, writes)
      ensures OthersUnchanged(idx)
    {
      ghost var row := Row(idx);
      var found := Find(Row(idx), cursor);
      if found.None? {
        ScanEnd(row, cursor, w, writes);
        return cursor, w, true, false;
      }
      var p := found.value;
      SetByte(idx, p, NUL);
      if !WriteSucceeds(writes, w) {
        ScanFail(row, cursor, w, writes, p);
        return cursor, w, true, true;
      }
      ScanStep(row, cursor, w, writes, p);
      return p + 2, w + 1, false, false;
    }

    /** Lines 169-174: the C string at msg_start is moved to the front of the
        row (memmove), terminated, and its length becomes the slot's length. */
    method CompactRow(idx: nat, cursor: nat)
      requires Shape() && idx < Slots
      requires cursor <= SlotSize && cursor + CLen(Row(idx), cursor) < SlotSize
      modifies buffers, lens
      ensures Shape() && 0 <= lens[idx]
      ensures SlotAt(idx) == Compact(old(Row(idx)), cursor)
      ensures OthersUnchanged(idx)
    {
      ghost var row := Row(idx);
      var remaining := CLen(Row(idx), cursor);
      if remaining > 0 {
        MoveDown(idx, cursor, remaining);
      }
      assert Row(idx) == row[cursor..cursor + remaining] + row[remaining..];
      SetLen(idx, remaining);
      SetByte(idx, remaining, NUL);
    }

    /** row[p] = v. */
    method SetByte(idx: nat, p: nat, v: byte)
      requires Shape() && idx < Slots && p < SlotSize
      modifies buffers
      ensures Row(idx) == old(Row(idx))[p := v]
      ensures OthersUnchanged(idx)
    {
      buffers[idx * SlotSize + p] := v;
    }

    /** buffer_lens[idx] = n. */
    method SetLen(idx: nat, n: nat)
      requires Shape() && idx < Slots
      modifies lens
      ensures lens[idx] == n
      ensures OthersUnchanged(idx)
    {
      lens[idx] := n;
      assert lens[..idx] == old(lens[..idx]);
      assert lens[idx + 1..] == old(lens[idx + 1..]);
    }

    /** memcpy(row + at, chunk, |chunk|). */
    method CopyIn(idx: nat, at: nat, chunk: seq<byte>)
      requires Shape() && idx < Slots && at + |chunk| <= SlotSize
      modifies buffers
      ensures Row(idx) == old(Row(idx))[..at] + chunk + old(Row(idx))[at + |chunk|..]
      ensures OthersUnchanged(idx)
    {
      var base := idx * SlotSize;
      forall j | 0 <= j < |chunk| {
        buffers[base + at + j] := chunk[j];
      }
      assert buffers[..idx * SlotSize] == old(buffers[..idx * SlotSize]);
      assert buffers[(idx + 1) * SlotSize..] == old(buffers[(idx + 1) * SlotSize..]);
      assert lens[..] == old(lens[..]);
    }

    /** memmove(row, row + from, count): the count bytes at from move to the
        front of the row. */
    method MoveDown(idx: nat, from: nat, count: nat)
      requires Shape() && idx < Slots && from + count <= SlotSize
      modifies buffers
      ensures Row(idx) == old(Row(idx))[from..from + count] + old(Row(idx))[count..]
      ensures OthersUnchanged(idx)
    {
      var base := idx * SlotSize;
      ghost var row := Row(idx);
      forall j | 0 <= j < count {
        buffers[base + j] := buffers[base + from + j];
      }
      assert buffers[..idx * SlotSize] == old(buffers[..idx * SlotSize]);
      assert buffers[(idx + 1) * SlotSize..] == old(buffers[(idx + 1) * SlotSize..]);
      assert lens[..] == old(lens[..]);
      ghost var moved := row[from..from + count] + row[count..];
      forall j | 0 <= j < SlotSize
        ensures Row(idx)[j] == moved[j]
      {
        assert Row(idx)[j] == buffers[base + j];
        if j < count {
          assert buffers[base + j] == old(buffers[base + from + j]) == row[from + j];
        } else {
          assert buffers[base + j] == old(buffers[base + j]) == row[j];
        }
      }
    }

    /** A call that changed only slot idx, leaving it valid, leaves the
        tables valid and every other slot as it was. */
    twostate lemma KeepsOthers(idx: nat)
      requires old(Valid()) && Shape() && idx < Slots && 0 <= lens[idx]
      requires SlotInv(SlotAt(idx))
      requires OthersUnchanged(idx)
      ensures Valid()
      ensures forall i :: 0 <= i < Slots && i != idx ==> SlotAt(i) == old(SlotAt(i))
    {
      forall i | 0 <= i < Slots && i != idx
        ensures Row(i) == old(Row(i)) && lens[i] == old(lens[i])
      {
        RowsKept(buffers[..], old(buffers[..]), idx, i);
        LensKept(lens[..], old(lens[..]), idx, i);
      }
    }
  }
}
