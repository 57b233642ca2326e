/** One connection slot of handle_client_data, as values.

    A slot is one 2048-byte row of the static client buffer table together with
    its entry in the length table.  The row is read with C string semantics:
    `Find` is strstr(row + i, "\r\n") and `CLen` is strlen(row + i), both of
    which stop at the first NUL byte.  `Append`, `Scan` and `Compact` are the
    three phases of one successful read, and `Handle` is the whole read loop of
    one call.  The lemmas relate this byte-level behaviour to the stream
    framing of module Framing. */
module Slot {
  import opened Framing

  const Slots: nat := 1024     // rows in the buffer table
  const SlotSize: nat := 2048  // bytes per row: BUFFER_SIZE * 2
  const ReadSize: nat := 1023  // bytes per read: sizeof(buffer) - 1

  /** A row of the buffer table and its recorded length. */
  datatype Slot = Slot(row: seq<byte>, len: nat)

  /** What one non-blocking read returns. */
  datatype ReadResult =
    | Data(bytes: seq<byte>)  // bytes_read > 0
    | Eof                     // bytes_read == 0: the peer closed
    | WouldBlock              // -1 with EAGAIN or EWOULDBLOCK
    | ReadError               // -1 with any other errno

  /** The result of one call: the slot afterwards, the return code and the
      number of "ok\r\n" replies written successfully. */
  datatype Outcome = Outcome(slot: Slot, rc: int, replies: nat)

  /** The state of the inner message loop: the row, msg_start, the replies
      written so far and whether a write failed. */
  datatype ScanResult = ScanResult(row: seq<byte>, cursor: nat, writes: nat, failed: bool)

  /** Between calls a row is terminated at its length, except right after a
      peer close, which resets the length without writing a terminator. */
  predicate SlotInv(s: Slot) {
    |s.row| == SlotSize && s.len < SlotSize && (s.len == 0 || s.row[s.len] == NUL)
  }

  /** What read(fd, buffer, 1023) can deliver as data. */
  predicate ValidReads(results: seq<ReadResult>) {
    forall i :: 0 <= i < |results| && results[i].Data? ==> 0 < |results[i].bytes| <= ReadSize
  }

  /** The j-th reply write of a call succeeds; writes beyond the given
      outcomes succeed. */
  predicate WriteSucceeds(outcomes: seq<bool>, j: nat) {
    j >= |outcomes| || outcomes[j]
  }

  /** strlen(row + i): the number of bytes before the first NUL at or after i. */
  function CLen(row: seq<byte>, i: nat): (n: nat)
    requires i <= |row|
    ensures i + n <= |row|
    ensures i + n < |row| ==> row[i + n] == NUL
    decreases |row| - i
  {
    if i == |row| || row[i] == NUL then 0 else 1 + CLen(row, i + 1)
  }

  /** The C string that starts at row[i], without its terminator. */
  function CStr(row: seq<byte>, i: nat): (t: seq<byte>)
    requires i <= |row|
    ensures |t| == CLen(row, i)
    decreases |row| - i
  {
    if i == |row| || row[i] == NUL then [] else [row[i]] + CStr(row, i + 1)
  }

  /** strstr(row + i, "\r\n"): the position of the first CR LF of the C
      string at row[i]. */
  function Find(row: seq<byte>, i: nat): (r: Option<nat>)
    requires i <= |row|
    ensures r.Some? ==> i <= r.value && DelimiterAt(row, r.value)
    decreases |row| - i
  {
    if i == |row| || row[i] == NUL then None
    else if i + 1 < |row| && row[i] == CR && row[i + 1] == LF then Some(i)
    else Find(row, i + 1)
  }

  /** Lines 145-149: the chunk is copied behind the stored bytes and
      terminated only if the total stays below the row size; otherwise the
      whole chunk is dropped. */
  function Append(s: Slot, chunk: seq<byte>): (r: Slot)
    ensures |r.row| == |s.row|
    ensures s.len + |chunk| < |s.row| ==>
      && r.len == s.len + |chunk|
      && r.row[..s.len] == s.row[..s.len]
      && r.row[s.len..r.len] == chunk
      && r.row[r.len] == NUL
    ensures s.len + |chunk| >= |s.row| ==> r == s
  {
    if s.len + |chunk| < |s.row| then
      var n := s.len + |chunk|;
      var row := s.row[..s.len] + chunk + [NUL] + s.row[n + 1..];
      assert row[..s.len] == s.row[..s.len];
      assert row[s.len..n] == chunk;
      Slot(row, n)
    else s
  }

  /** Lines 152-166: from msg_start, each CR LF found is overwritten with a
      NUL at its CR and answered with one write; a failed write stops the
      scan.  The search resumes two bytes past each delimiter. */
  function Scan(row: seq<byte>, cursor: nat, w: nat, outcomes: seq<bool>): (r: ScanResult)
    requires cursor <= |row|
    ensures |r.row| == |row| && cursor <= r.cursor <= |row| && w <= r.writes
    decreases |row| - cursor
  {
    match Find(row, cursor)
    case None => ScanResult(row, cursor, w, false)
    case Some(p) =>
      var row' := row[p := NUL];
      if WriteSucceeds(outcomes, w) then Scan(row', p + 2, w + 1, outcomes)
      else ScanResult(row', cursor, w, true)
  }

  /** Lines 169-174: the C string at msg_start is moved to the front of the
      row, terminated, and its length becomes the slot length. */
  function Compact(row: seq<byte>, cursor: nat): (r: Slot)
    requires cursor <= |row| && cursor + CLen(row, cursor) < |row|
    ensures |r.row| == |row| && r.len < |row|
    ensures r.row[..r.len] == CStr(row, cursor) && r.row[r.len] == NUL
  {
    var rem := CLen(row, cursor);
    var moved := row[cursor..cursor + rem] + row[rem..];
    CStrSlice(row, cursor);
    assert moved[..rem] == CStr(row, cursor);
    Slot(moved[rem := NUL], rem)
  }

  /** The state after one successful read: the slot, the replies written so
      far and whether a reply write failed. */
  datatype Round = Round(slot: Slot, writes: nat, failed: bool)

  /** One iteration of the read loop for a read that returned data
      (lines 143-175): append, answer each delimited message, then compact,
      or stop at the first failed reply write with the appended length. */
  function ReadRound(s: Slot, bytes: seq<byte>, outcomes: seq<bool>, w: nat): (r: Round)
    requires SlotInv(s) && 0 < |bytes| <= ReadSize
    ensures SlotInv(r.slot) && w <= r.writes
  {
    var a := Append(s, bytes);
    var sc := Scan(a.row, 0, w, outcomes);
    ScanStopsAtNul(a.row, 0, w, outcomes, a.len);
    if sc.failed then Round(Slot(sc.row, a.len), sc.writes, true)
    else Round(Compact(sc.row, sc.cursor), sc.writes, false)
  }

  /** The read loop of handle_client_data on one slot (lines 129-178).  The
      results beyond the given ones report would-block. */
  function Handle(s: Slot, results: seq<ReadResult>, outcomes: seq<bool>, w: nat): (o: Outcome)
    requires SlotInv(s) && ValidReads(results)
    ensures SlotInv(o.slot)
    ensures o.rc == 0 || o.rc == -1
    ensures w <= o.replies
    decreases |results|
  {
    if results == [] then Outcome(s, 0, w)
    else match results[0]
      case WouldBlock => Outcome(s, 0, w)
      case ReadError => Outcome(s, -1, w)
      case Eof => Outcome(s.(len := 0), -1, w)
      case Data(bytes) =>
        var r := ReadRound(s, bytes, outcomes, w);
        if r.failed then Outcome(r.slot, -1, r.writes)
        else Handle(r.slot, results[1..], outcomes, r.writes)
  }

  /** A CR LF that strstr finds lies inside the C string it searched. */
  lemma {:induction false} FindInString(row: seq<byte>, i: nat)
    requires i <= |row|
    ensures Find(row, i).Some? ==> Find(row, i).value + 2 <= i + CLen(row, i)
    decreases |row| - i
  {
    if i < |row| && row[i] != NUL && !(i + 1 < |row| && row[i] == CR && row[i + 1] == LF) {
      FindInString(row, i + 1);
    }
  }

  /** The scan neither passes nor overwrites a NUL that was in the row: the
      byte at the end of the stored data stays a terminator and msg_start
      stays at or before it. */
  lemma {:induction false} ScanStopsAtNul(row: seq<byte>, cursor: nat, w: nat, outcomes: seq<bool>, z: nat)
    requires cursor <= z < |row| && row[z] == NUL
    ensures var r := Scan(row, cursor, w, outcomes);
            r.row[z] == NUL && r.cursor <= z && r.cursor + CLen(r.row, r.cursor) <= z
    decreases |row| - cursor
  {
    match Find(row, cursor)
    case None =>
      CLenBound(row, cursor, z);
    case Some(p) =>
      FindInString(row, cursor);
      CLenBound(row, cursor, z);
      if WriteSucceeds(outcomes, w) {
        ScanStopsAtNul(row[p := NUL], p + 2, w + 1, outcomes, z);
      } else {
        CLenBound(row[p := NUL], cursor, z);
      }
  }

  // ---------------------------------------------------------------------
  // C strings and the framing of module Framing

  /** The C string at row[i] is the slice of the row up to its length. */
  lemma {:induction false} CStrSlice(row: seq<byte>, i: nat)
    requires i <= |row|
    ensures CStr(row, i) == row[i..i + CLen(row, i)]
    decreases |row| - i
  {
    if i < |row| && row[i] != NUL {
      var n := CLen(row, i);
      CStrSlice(row, i + 1);
      assert CStr(row, i) == [row[i]] + CStr(row, i + 1);
      assert row[i..i + n] == [row[i]] + row[i + 1..i + n];
    }
  }

  /** Moving the start of a C string forward drops its first bytes. */
  lemma {:induction false} CStrSuffix(row: seq<byte>, i: nat, k: nat)
    requires i <= |row| && k <= CLen(row, i)
    ensures CLen(row, i + k) == CLen(row, i) - k
    ensures CStr(row, i + k) == CStr(row, i)[k..]
    decreases k
  {
    if k > 0 {
      CStrSuffix(row, i, k - 1);
      var t := CStr(row, i);
      assert CStr(row, i + k - 1) == [row[i + k - 1]] + CStr(row, i + k);
      assert t[k..] == t[k - 1..][1..];
    }
  }

  /** Writing below the start of a C string does not change it. */
  lemma {:induction false} CStrUpdateBelow(row: seq<byte>, j: nat, v: byte, i: nat)
    requires j < i <= |row|
    ensures CLen(row[j := v], i) == CLen(row, i)
    ensures CStr(row[j := v], i) == CStr(row, i)
    decreases |row| - i
  {
    if i < |row| && row[i] != NUL {
      CStrUpdateBelow(row, j, v, i + 1);
    }
  }

  /** A C string ends exactly at the first NUL. */
  lemma {:induction false} CLenAt(row: seq<byte>, i: nat, z: nat)
    requires i <= z < |row| && row[z] == NUL
    requires forall k :: i <= k < z ==> row[k] != NUL
    ensures CLen(row, i) == z - i
    decreases z - i
  {
    if i < z {
      CLenAt(row, i + 1, z);
    }
  }

  /** A C string ends at or before any NUL after its start. */
  lemma {:induction false} CLenBound(row: seq<byte>, i: nat, z: nat)
    requires i <= z < |row| && row[z] == NUL
    ensures i + CLen(row, i) <= z
    decreases z - i
  {
    if i < z && row[i] != NUL {
      CLenBound(row, i + 1, z);
    }
  }

  /** A C string holds no NUL. */
  lemma {:induction false} CStrNulFree(row: seq<byte>, i: nat)
    requires i <= |row|
    ensures NUL !in CStr(row, i)
    decreases |row| - i
  {
    if i < |row| && row[i] != NUL {
      CStrNulFree(row, i + 1);
    }
  }

  /** strstr finds the first CR LF of the C string. */
  lemma {:induction false} FindIsFirstDelimiter(row: seq<byte>, i: nat)
    requires i <= |row|
    ensures Find(row, i).None? <==> FirstDelimiter(CStr(row, i)).None?
    ensures Find(row, i).Some? ==> Find(row, i).value == i + FirstDelimiter(CStr(row, i)).value
    decreases |row| - i
  {
    if i == |row| || row[i] == NUL {
      assert CStr(row, i) == [];
    } else {
      var s := CStr(row, i);
      var t := CStr(row, i + 1);
      assert s == [row[i]] + t;
      if i + 1 < |row| && row[i] == CR && row[i + 1] == LF {
        assert t[0] == LF;
        assert DelimiterAt(s, 0);
      } else {
        FindIsFirstDelimiter(row, i + 1);
        if t == [] {
          assert s == [row[i]];
        } else {
          assert s[1] == row[i + 1];
          assert s[1..] == t;
        }
      }
    }
  }

  /** How many of the next k reply writes succeed before the first failure. */
  function LeadingOk(outcomes: seq<bool>, w: nat, k: nat): (n: nat)
    ensures n <= k
    decreases k
  {
    if k == 0 || !WriteSucceeds(outcomes, w) then 0 else 1 + LeadingOk(outcomes, w + 1, k - 1)
  }

  /** When no write fails, all k writes succeed. */
  lemma {:induction false} LeadingOkAll(outcomes: seq<bool>, w: nat, k: nat)
    requires forall j :: w <= j < |outcomes| ==> outcomes[j]
    ensures LeadingOk(outcomes, w, k) == k
    decreases k
  {
    if k > 0 {
      LeadingOkAll(outcomes, w + 1, k - 1);
    }
  }

  /** One round of the message loop when the reply write succeeds. */
  lemma ScanStep(row: seq<byte>, cursor: nat, w: nat, outcomes: seq<bool>, q: nat)
    requires cursor <= |row| && Find(row, cursor) == Some(q) && WriteSucceeds(outcomes, w)
    ensures Scan(row, cursor, w, outcomes) == Scan(row[q := NUL], q + 2, w + 1, outcomes)
  {
  }

  /** The message loop ends when strstr finds no CR LF. */
  lemma ScanEnd(row: seq<byte>, cursor: nat, w: nat, outcomes: seq<bool>)
    requires cursor <= |row| && Find(row, cursor).None?
    ensures Scan(row, cursor, w, outcomes) == ScanResult(row, cursor, w, false)
  {
  }

  /** A failed reply write ends the message loop with the NUL written. */
  lemma ScanFail(row: seq<byte>, cursor: nat, w: nat, outcomes: seq<bool>, q: nat)
    requires cursor <= |row| && Find(row, cursor) == Some(q) && !WriteSucceeds(outcomes, w)
    ensures Scan(row, cursor, w, outcomes) == ScanResult(row[q := NUL], cursor, w, true)
  {
  }

  /** One reply per delimiter: the scan from msg_start answers the messages of
      the C string there, in order, until a write fails.  When none fails it
      stops after the last delimiter, where the C string left is the
      unterminated tail. */
  lemma {:induction false} ScanFrames(row: seq<byte>, cursor: nat, w: nat, outcomes: seq<bool>)
    requires cursor <= |row| && cursor + CLen(row, cursor) < |row|
    ensures ScannedFrames(row, cursor, w, outcomes)
    decreases |row| - cursor, 1
  {
    var t := CStr(row, cursor);
    var f := Split(t);
    FindIsFirstDelimiter(row, cursor);
    match Find(row, cursor)
    case None =>
      assert f == Framed([], t);
      assert Scan(row, cursor, w, outcomes) == ScanResult(row, cursor, w, false);
      assert LeadingOk(outcomes, w, 0) == 0;
    case Some(q) =>
      if WriteSucceeds(outcomes, w) {
        ScanFramesAnswered(row, cursor, w, outcomes, q);
      } else {
        assert Scan(row, cursor, w, outcomes) == ScanResult(row[q := NUL], cursor, w, true);
        assert FirstDelimiter(t).Some?;
        assert LeadingOk(outcomes, w, |f.msgs|) == 0;
      }
  }

  /** The conclusion of ScanFrames. */
  predicate ScannedFrames(row: seq<byte>, cursor: nat, w: nat, outcomes: seq<bool>)
    requires cursor <= |row|
  {
    var t := CStr(row, cursor);
    var f := Split(t);
    var n := LeadingOk(outcomes, w, |f.msgs|);
    var r := Scan(row, cursor, w, outcomes);
    && r.writes == w + n
    && (r.failed <==> n < |f.msgs|)
    && (!r.failed ==> r.cursor == cursor + |t| - |f.rest| && CStr(r.row, r.cursor) == f.rest)
  }

  /** ScanFrames when a delimiter is found and its reply is written. */
  lemma {:induction false} ScanFramesAnswered(row: seq<byte>, cursor: nat, w: nat, outcomes: seq<bool>, q: nat)
    requires cursor <= |row| && cursor + CLen(row, cursor) < |row|
    requires Find(row, cursor) == Some(q) && WriteSucceeds(outcomes, w)
    ensures ScannedFrames(row, cursor, w, outcomes)
    decreases |row| - cursor, 0
  {
    var row' := row[q := NUL];
    AnsweredShape(row, cursor, q);
    ScanStep(row, cursor, w, outcomes, q);
    ScanFrames(row', q + 2, w + 1, outcomes);
    var f := Split(CStr(row, cursor));
    var g := Split(CStr(row', q + 2));
    var r := Scan(row', q + 2, w + 1, outcomes);
    var n' := LeadingOk(outcomes, w + 1, |g.msgs|);
    assert LeadingOk(outcomes, w, 1 + |g.msgs|) == 1 + n';
    Bookkeeping(cursor, q, CLen(row, cursor), CLen(row', q + 2), |f.msgs|, |g.msgs|, f.rest, g.rest,
                1 + n', n', w, r.writes, r.failed, r.cursor, CStr(r.row, r.cursor));
  }

  /** The counting behind ScanFramesAnswered: one more message answered, the
      same tail, and a C string shorter by the message and its CR LF.  Kept
      apart so that this arithmetic is done over plain variables. */
  lemma Bookkeeping(cursor: nat, q: nat, lenT: nat, lenT': nat, fm: nat, gm: nat,
                    frest: seq<byte>, grest: seq<byte>, n: nat, n': nat, w: nat,
                    writes: nat, failed: bool, rcursor: nat, tail: seq<byte>)
    requires fm == 1 + gm && frest == grest && lenT' == lenT - (q - cursor) - 2 && n == 1 + n'
    requires writes == w + 1 + n' && (failed <==> n' < gm)
    requires !failed ==> rcursor == q + 2 + lenT' - |grest| && tail == grest
    ensures writes == w + n && (failed <==> n < fm)
    ensures !failed ==> rcursor == cursor + lenT - |frest| && tail == frest
  {
  }

  /** After the NUL is written over the CR of the delimiter strstr finds, the
      C string two bytes later is what remains of the original one, and the
      messages of the original are one more than the messages of that rest,
      with the same tail. */
  lemma AnsweredShape(row: seq<byte>, cursor: nat, q: nat)
    requires cursor <= |row| && cursor + CLen(row, cursor) < |row|
    requires Find(row, cursor) == Some(q)
    ensures q + 2 <= cursor + CLen(row, cursor)
    ensures CLen(row[q := NUL], q + 2) == CLen(row, cursor) - (q - cursor) - 2
    ensures q + 2 + CLen(row[q := NUL], q + 2) < |row|
    ensures var f := Split(CStr(row, cursor));
            var g := Split(CStr(row[q := NUL], q + 2));
            |f.msgs| == 1 + |g.msgs| && f.rest == g.rest
  {
    SkipDelimiter(row, cursor, q);
    FirstMessage(row, cursor, q);
  }

  /** The first message of the C string ends where strstr finds CR LF. */
  lemma FirstMessage(row: seq<byte>, cursor: nat, q: nat)
    requires cursor <= |row| && Find(row, cursor) == Some(q)
    ensures q + 2 <= cursor + CLen(row, cursor)
    ensures var t := CStr(row, cursor);
            var g := Split(t[q - cursor + 2..]);
            |Split(t).msgs| == 1 + |g.msgs| && Split(t).rest == g.rest
  {
    var t := CStr(row, cursor);
    FindIsFirstDelimiter(row, cursor);
    assert FirstDelimiter(t) == Some(q - cursor);
    SplitFirstCount(t, q - cursor);
  }

  /** Split's first step, as counts: one message more than the stream after
      the first CR LF, and the same tail. */
  lemma SplitFirstCount(t: seq<byte>, p: nat)
    requires FirstDelimiter(t) == Some(p)
    ensures p + 2 <= |t|
    ensures |Split(t).msgs| == 1 + |Split(t[p + 2..]).msgs|
    ensures Split(t).rest == Split(t[p + 2..]).rest
  {
    SplitFirst(t, p);
  }

  lemma SkipDelimiter(row: seq<byte>, cursor: nat, q: nat)
    requires cursor <= |row| && cursor + CLen(row, cursor) < |row|
    requires Find(row, cursor) == Some(q)
    ensures q + 2 <= cursor + CLen(row, cursor)
    ensures CStr(row[q := NUL], q + 2) == CStr(row, cursor)[q - cursor + 2..]
    ensures q + 2 + CLen(row[q := NUL], q + 2) < |row|
  {
    FindInString(row, cursor);
    CStrSuffix(row, cursor, q - cursor + 2);
    CStrUpdateBelow(row, q, NUL, q + 2);
  }

  /** One read that returned data: the replies answer the messages of the C
      string that Append leaves at the start of the row, in order, up to the
      first failed write.  A failure keeps the appended length and skips the
      compaction; otherwise the slot holds the unterminated tail. */
  lemma RoundFrames(s: Slot, c: seq<byte>, outcomes: seq<bool>, w: nat)
    requires SlotInv(s) && 0 < |c| <= ReadSize
    ensures var a := Append(s, c);
            var f := Split(CStr(a.row, 0));
            var n := LeadingOk(outcomes, w, |f.msgs|);
            var r := ReadRound(s, c, outcomes, w);
            && r.writes == w + n
            && (r.failed <==> n < |f.msgs|)
            && (r.failed ==> r.slot.len == a.len)
            && (!r.failed ==> r.slot.row[..r.slot.len] == f.rest)
  {
    var a := Append(s, c);
    assert a.row[a.len] == NUL;
    CLenBound(a.row, 0, a.len);
    ScanFrames(a.row, 0, w, outcomes);
  }

  // ---------------------------------------------------------------------
  // The connection-level meaning of the handler

  /** The Data chunks read before the loop stops. */
  function Chunks(results: seq<ReadResult>): seq<seq<byte>> {
    if results == [] || !results[0].Data? then [] else [results[0].bytes] + Chunks(results[1..])
  }

  /** The read result that ends the loop; would-block once the results run out. */
  function Terminator(results: seq<ReadResult>): (r: ReadResult)
    ensures !r.Data?
  {
    if results == [] then WouldBlock
    else if results[0].Data? then Terminator(results[1..])
    else results[0]
  }

  function Concat(chunks: seq<seq<byte>>): seq<byte> {
    if chunks == [] then [] else chunks[0] + Concat(chunks[1..])
  }

  /** The messages answered, the tail retained and the chunks not dropped. */
  datatype Delivery = Delivery(msgs: seq<seq<byte>>, rest: seq<byte>, accepted: seq<seq<byte>>)

  /** The stream as the connection sees it: the retained tail `live`, then
      each chunk in turn, a chunk that would not fit being dropped whole.
      The stream that remains, the tail followed by the accepted chunks, is
      exactly the messages answered, each with its CR LF, then the tail kept. */
  function Deliver(live: seq<byte>, chunks: seq<seq<byte>>): (d: Delivery)
    requires NoDelimiter(live)
    ensures Join(d.msgs) + d.rest == live + Concat(d.accepted)
    ensures AllUndelimited(d.msgs) && NoDelimiter(d.rest)
    ensures |d.accepted| <= |chunks|
    decreases |chunks|
  {
    if chunks == [] then
      assert Join([]) + live == live + Concat([]);
      Delivery([], live, [])
    else if |live| + |chunks[0]| < SlotSize then
      var c := chunks[0];
      var f := Split(live + c);
      SplitSound(live + c);
      var d := Deliver(f.rest, chunks[1..]);
      RegroupStream(live, c, f.msgs, f.rest, d.msgs, d.rest, d.accepted);
      AllUndelimitedAppend(f.msgs, d.msgs);
      Delivery(f.msgs + d.msgs, d.rest, [c] + d.accepted)
    else Deliver(live, chunks[1..])
  }

  /** Regrouping behind Deliver: messages framed from the tail and one chunk,
      then messages framed from what is left and the later chunks. */
  lemma {:induction false} RegroupStream(live: seq<byte>, c: seq<byte>, fm: seq<seq<byte>>, fr: seq<byte>,
                      m: seq<seq<byte>>, r: seq<byte>, acc: seq<seq<byte>>)
    requires Join(fm) + fr == live + c
    requires Join(m) + r == fr + Concat(acc)
    ensures Join(fm + m) + r == live + Concat([c] + acc)
  {
    var jf, jm, rest := Join(fm), Join(m), Concat(acc);
    calc {
      Join(fm + m) + r;
      { JoinAppend(fm, m); }
      (jf + jm) + r;
      { ConcatAssoc(jf, jm, r); }
      jf + (fr + rest);
      { ConcatAssoc(jf, fr, rest); }
      (live + c) + rest;
      { ConcatAssoc(live, c, rest); }
      live + (c + rest);
      { ConcatCons(c, acc); }
      live + Concat([c] + acc);
    }
  }

  lemma ConcatCons(c: seq<byte>, cs: seq<seq<byte>>)
    ensures Concat([c] + cs) == c + Concat(cs)
  {
    assert ([c] + cs)[1..] == cs;
  }

  /** Deliver takes one chunk at a time: the messages framed from the
      tail and that chunk (or from the tail alone if the chunk is dropped),
      then what Deliver makes of the new tail and the later chunks. */
  lemma DeliverStep(live: seq<byte>, c: seq<byte>, chunks: seq<seq<byte>>)
    requires NoDelimiter(live)
    ensures var f := Split(if |live| + |c| < SlotSize then live + c else live);
            && NoDelimiter(f.rest)
            && |Deliver(live, [c] + chunks).msgs| == |f.msgs| + |Deliver(f.rest, chunks).msgs|
            && Deliver(live, [c] + chunks).rest == Deliver(f.rest, chunks).rest
  {
    assert ([c] + chunks)[0] == c && ([c] + chunks)[1..] == chunks;
    if |live| + |c| < SlotSize {
      SplitSound(live + c);
    } else {
      UndelimitedSplit(live);
    }
  }

  /** Fragmentation invariance: however the stream is cut into reads, the
      messages answered and the tail retained are those of the concatenation
      of the accepted chunks, framed in one piece. */
  lemma DeliverFrames(live: seq<byte>, chunks: seq<seq<byte>>)
    requires NoDelimiter(live)
    ensures var d := Deliver(live, chunks);
      Split(live + Concat(d.accepted)) == Framed(d.msgs, d.rest)
  {
    var d := Deliver(live, chunks);
    SplitUnique(live + Concat(d.accepted), d.msgs, d.rest);
  }

  /** With nothing dropped, the number of replies is the number of CR LF
      pairs in the stream, including pairs split across two reads. */
  lemma ReplyCount(live: seq<byte>, chunks: seq<seq<byte>>)
    requires NoDelimiter(live)
    requires Deliver(live, chunks).accepted == chunks
    ensures |Deliver(live, chunks).msgs| == Occurrences(live + Concat(chunks))
  {
    DeliverFrames(live, chunks);
    MessageCount(live + Concat(chunks));
  }

  /** Two successive deliveries on one connection, the second starting from
      the tail the first kept: with nothing dropped, the replies of both
      together are the CR LF pairs of the whole stream, pairs split between
      the two included. */
  lemma {:induction false} TwoDeliveriesCount(live: seq<byte>, chunks1: seq<seq<byte>>, chunks2: seq<seq<byte>>)
    requires NoDelimiter(live)
    requires Deliver(live, chunks1).accepted == chunks1
    requires Deliver(Deliver(live, chunks1).rest, chunks2).accepted == chunks2
    ensures var d1 := Deliver(live, chunks1);
            var d2 := Deliver(d1.rest, chunks2);
            |d1.msgs| + |d2.msgs| == Occurrences(live + Concat(chunks1) + Concat(chunks2))
  {
    var d1 := Deliver(live, chunks1);
    var d2 := Deliver(d1.rest, chunks2);
    var a, b := live + Concat(chunks1), Concat(chunks2);
    DeliverFrames(live, chunks1);
    DeliverFrames(d1.rest, chunks2);
    OccurrencesConcat(a, b, Framed(d1.msgs, d1.rest), Framed(d2.msgs, d2.rest));
  }

  /** Two calls of the handler on one connection, one per edge-triggered
      event: the first ends on would-block, and the second starts from the
      slot it left.  On a clean slot with NUL-free data, no failing write and
      no chunk dropped, the replies of both calls together are the CR LF pairs
      of the stored tail followed by everything read. */
  lemma {:induction false} TwoCallsReplyCount(s: Slot, results1: seq<ReadResult>, writes1: seq<bool>,
                           results2: seq<ReadResult>, writes2: seq<bool>)
    requires Clean(s) && ValidReads(results1) && NulFree(results1)
    requires ValidReads(results2) && NulFree(results2)
    requires forall j :: 0 <= j < |writes1| ==> writes1[j]
    requires forall j :: 0 <= j < |writes2| ==> writes2[j]
    requires Terminator(results1).WouldBlock?
    requires var d1 := Deliver(s.row[..s.len], Chunks(results1));
             d1.accepted == Chunks(results1) && Deliver(d1.rest, Chunks(results2)).accepted == Chunks(results2)
    ensures var o1 := Handle(s, results1, writes1, 0);
            var o2 := Handle(o1.slot, results2, writes2, 0);
            && o1.rc == 0
            && o1.replies + o2.replies
               == Occurrences(s.row[..s.len] + Concat(Chunks(results1)) + Concat(Chunks(results2)))
  {
    var o1 := Handle(s, results1, writes1, 0);
    HandleRefines(s, results1, writes1, 0);
    HandleRefines(o1.slot, results2, writes2, 0);
    TwoDeliveriesCount(s.row[..s.len], Chunks(results1), Chunks(results2));
  }

  // The protocol's own examples, with bytes written in decimal:
  // "PING" is 80 73 78 71, "A" is 65, "B" is 66, CR LF is 13 10.

  /** "PING\r\n" in one read is one message, "PING". */
  lemma PingInOneRead()
    ensures Deliver([], [[80, 73, 78, 71, 13, 10]]).msgs == [[80, 73, 78, 71]]
  {
    var ping: seq<byte> := [80, 73, 78, 71];
    assert NoDelimiter(ping);
    assert [] + [80, 73, 78, 71, 13, 10] == Join([ping]) + [];
    SplitJoin([ping], []);
  }

  /** "PI" then "NG\r\n" is the same single message, completed by the
      second read. */
  lemma PingInTwoReads()
    ensures Deliver([], [[80, 73], [78, 71, 13, 10]]).msgs == [[80, 73, 78, 71]]
  {
    var ping: seq<byte> := [80, 73, 78, 71];
    var pi: seq<byte> := [80, 73];
    assert NoDelimiter(ping) && NoDelimiter(pi);
    assert [] + pi == pi;
    UndelimitedSplit(pi);
    var ng: seq<byte> := [78, 71, 13, 10];
    assert pi + ng == Join([ping]) + [];
    SplitJoin([ping], []);
    assert Deliver([], [pi, ng]).msgs == [] + Deliver(pi, [ng]).msgs by {
      assert [pi, ng][1..] == [ng];
    }
    assert Deliver(pi, [ng]).msgs == [ping] + [] by {
      assert Deliver([], []).msgs == [];
    }
  }

  /** "A\r\nB\r\n" in one read is two messages, in order. */
  lemma TwoMessagesInOneRead()
    ensures Deliver([], [[65, 13, 10, 66, 13, 10]]).msgs == [[65], [66]]
  {
    var a: seq<byte> := [65];
    var b: seq<byte> := [66];
    assert NoDelimiter(a) && NoDelimiter(b);
    assert AllUndelimited([a, b]);
    assert [a, b][1..] == [b];
    assert Join([b]) == [66, 13, 10];
    assert [] + [65, 13, 10, 66, 13, 10] == Join([a, b]) + [];
    SplitJoin([a, b], []);
  }

  /** "INCOMPLETE" alone is no message, only a retained tail; a peer close
      then ends the call as HandleRefines says, with no reply. */
  lemma IncompleteIsTail()
    ensures var incomplete: seq<byte> := [73, 78, 67, 79, 77, 80, 76, 69, 84, 69];
            Deliver([], [incomplete]) == Delivery([], incomplete, [incomplete])
  {
    var incomplete: seq<byte> := [73, 78, 67, 79, 77, 80, 76, 69, 84, 69];
    assert NoDelimiter(incomplete);
    assert [] + incomplete == incomplete;
    UndelimitedSplit(incomplete);
  }

  /** "Hello Server\n", as the test client sends it, ends in LF without CR:
      it is no message, so no reply is written and all of it stays stored. */
  lemma LineFeedOnlyIsTail()
    ensures var hello: seq<byte> := [72, 101, 108, 108, 111, 32, 83, 101, 114, 118, 101, 114, 10];
            Deliver([], [hello]) == Delivery([], hello, [hello])
  {
    var hello: seq<byte> := [72, 101, 108, 108, 111, 32, 83, 101, 114, 118, 101, 114, 10];
    assert NoDelimiter(hello);
    assert [] + hello == hello;
    UndelimitedSplit(hello);
  }

  /** A slot whose stored bytes are a plain undelimited tail. */
  predicate Clean(s: Slot) {
    SlotInv(s) && NUL !in s.row[..s.len] && NoDelimiter(s.row[..s.len])
  }

  predicate NulFree(results: seq<ReadResult>) {
    forall i :: 0 <= i < |results| && results[i].Data? ==> NUL !in results[i].bytes
  }

  /** One Data read on a clean slot with no failing write: an accepted chunk
      is framed together with the stored tail; a dropped one changes nothing. */
  lemma ChunkStep(s: Slot, c: seq<byte>, outcomes: seq<bool>, w: nat)
    requires Clean(s) && 0 < |c| <= ReadSize && NUL !in c
    requires forall j :: w <= j < |outcomes| ==> outcomes[j]
    ensures var live := s.row[..s.len];
            var accepted := |live| + |c| < SlotSize;
            var f := Split(if accepted then live + c else live);
            var r := ReadRound(s, c, outcomes, w);
            && !r.failed
            && r.writes == w + |f.msgs|
            && Clean(r.slot)
            && r.slot.row[..r.slot.len] == f.rest
            && (!accepted ==> f == Framed([], live))
  {
    var a := Append(s, c);
    var live := s.row[..s.len];
    var t := if |live| + |c| < SlotSize then live + c else live;
    AppendedString(s, c);
    RoundFrames(s, c, outcomes, w);
    LeadingOkAll(outcomes, w, |Split(t).msgs|);
    RestClean(t);
    if |live| + |c| >= SlotSize {
      UndelimitedSplit(live);
    }
  }

  /** The tail of a NUL-free stream is NUL-free and undelimited. */
  lemma RestClean(t: seq<byte>)
    requires NUL !in t
    ensures NUL !in Split(t).rest && NoDelimiter(Split(t).rest)
  {
    SplitSound(t);
    assert Join(Split(t).msgs) + Split(t).rest == t;
  }

  /** A stream without CR LF is all tail. */
  lemma UndelimitedSplit(t: seq<byte>)
    requires NoDelimiter(t)
    ensures Split(t) == Framed([], t)
  {
    assert Join([]) + t == t;
    SplitJoin([], t);
  }

  /** After Append the C string at the start of the row is the stored tail
      followed by the chunk if it fit, and the stored tail alone if not. */
  lemma AppendedString(s: Slot, c: seq<byte>)
    requires Clean(s) && 0 < |c| <= ReadSize && NUL !in c
    ensures var a := Append(s, c);
            var live := s.row[..s.len];
            && a.row[a.len] == NUL
            && CLen(a.row, 0) == a.len
            && CStr(a.row, 0) == (if |live| + |c| < SlotSize then live + c else live)
  {
    var a := Append(s, c);
    var live := s.row[..s.len];
    assert a.row[..a.len] == (if |live| + |c| < SlotSize then live + c else live);
    assert a.row[a.len] == NUL;
    CLenAt(a.row, 0, a.len);
    CStrSlice(a.row, 0);
  }

  /** The handler refines the connection-level meaning: on a clean slot, with
      NUL-free results and no failing write, it answers exactly the messages of
      Deliver, keeps its tail, and returns 0 only on would-block. */
  lemma {:induction false} HandleRefines(s: Slot, results: seq<ReadResult>, outcomes: seq<bool>, w: nat)
    requires Clean(s) && ValidReads(results) && NulFree(results)
    requires forall j :: w <= j < |outcomes| ==> outcomes[j]
    ensures var o := Handle(s, results, outcomes, w);
            var d := Deliver(s.row[..s.len], Chunks(results));
            && Clean(o.slot)
            && o.replies == w + |d.msgs|
            && (o.rc == 0 <==> Terminator(results).WouldBlock?)
            && (Terminator(results).Eof? ==> o.slot.len == 0)
            && (!Terminator(results).Eof? ==> o.slot.row[..o.slot.len] == d.rest)
    decreases |results|
  {
    if results != [] && results[0].Data? {
      var c := results[0].bytes;
      ChunkStep(s, c, outcomes, w);
      var r := ReadRound(s, c, outcomes, w);
      HandleData(s, results, outcomes, w);
      assert Chunks(results) == [c] + Chunks(results[1..]);
      DeliverStep(s.row[..s.len], c, Chunks(results[1..]));
      HandleRefines(r.slot, results[1..], outcomes, r.writes);
    } else if results != [] && results[0].Eof? {
      assert s.(len := 0).row[..0] == [];
    }
  }

  // ---------------------------------------------------------------------
  // Exit paths

  /** The number of leading Data results. */
  function DataCount(results: seq<ReadResult>): (k: nat)
    ensures k <= |results|
    ensures forall i :: 0 <= i < k ==> results[i].Data?
    ensures k < |results| ==> !results[k].Data?
  {
    if results == [] || !results[0].Data? then 0 else 1 + DataCount(results[1..])
  }

  /** The call ends in one of four ways.  Let p be the call on the Data results
      alone.  If a reply write failed there, that is the call's result.
      Otherwise would-block returns p as it stands with 0, a peer close
      returns -1 with the length reset to 0, and a read error returns -1
      with the slot untouched. */
  lemma {:induction false} HandleExits(s: Slot, results: seq<ReadResult>, outcomes: seq<bool>, w: nat)
    requires SlotInv(s) && ValidReads(results)
    ensures var k := DataCount(results);
            var p := Handle(s, results[..k], outcomes, w);
            var o := Handle(s, results, outcomes, w);
            && (p.rc == -1 ==> o == p)
            && (p.rc == 0 && Terminator(results).WouldBlock? ==> o == p)
            && (p.rc == 0 && Terminator(results).Eof? ==> o == Outcome(p.slot.(len := 0), -1, p.replies))
            && (p.rc == 0 && Terminator(results).ReadError? ==> o == Outcome(p.slot, -1, p.replies))
    decreases |results|
  {
    var k := DataCount(results);
    if results == [] {
    } else if !results[0].Data? {
      assert results[..k] == [];
    } else {
      var c := results[0].bytes;
      var r := ReadRound(s, c, outcomes, w);
      var head := results[..k];
      assert head[0] == results[0];
      assert head[1..] == results[1..][..k - 1];
      HandleData(s, results, outcomes, w);
      HandleData(s, head, outcomes, w);
      if !r.failed {
        HandleExits(r.slot, results[1..], outcomes, r.writes);
      }
    }
  }

  /** A call whose first read returns data runs one round and, unless a
      reply write failed, continues with the remaining results. */
  lemma HandleData(s: Slot, results: seq<ReadResult>, outcomes: seq<bool>, w: nat)
    requires SlotInv(s) && ValidReads(results) && results != [] && results[0].Data?
    ensures var r := ReadRound(s, results[0].bytes, outcomes, w);
            Handle(s, results, outcomes, w)
            == if r.failed then Outcome(r.slot, -1, r.writes)
               else Handle(r.slot, results[1..], outcomes, r.writes)
  {
  }

  /** A failed reply write returns -1 at once: the slot keeps the appended
      length, skipping compaction, and only the writes before it count. */
  lemma WriteFailure(s: Slot, c: seq<byte>, rest: seq<ReadResult>, outcomes: seq<bool>, w: nat)
    requires SlotInv(s) && ValidReads([Data(c)] + rest)
    requires var a := Append(s, c);
             LeadingOk(outcomes, w, |Split(CStr(a.row, 0)).msgs|) < |Split(CStr(a.row, 0)).msgs|
    ensures var a := Append(s, c);
            var o := Handle(s, [Data(c)] + rest, outcomes, w);
            && o.rc == -1
            && o.slot.len == a.len
            && o.replies == w + LeadingOk(outcomes, w, |Split(CStr(a.row, 0)).msgs|)
  {
    var results := [Data(c)] + rest;
    assert results[0] == Data(c);
    RoundFrames(s, c, outcomes, w);
  }
  // ---------------------------------------------------------------------
  // What a failed reply write leaves behind

  /** A scan that fails has written a NUL below the terminator it started
      from: the one over the CR whose reply could not be written. */
  lemma {:induction false} ScanFailNul(row: seq<byte>, cursor: nat, w: nat, outcomes: seq<bool>, z: nat)
    requires cursor <= z < |row| && row[z] == NUL
    ensures var r := Scan(row, cursor, w, outcomes);
            r.failed ==> exists y :: cursor <= y < z && r.row[y] == NUL
    decreases |row| - cursor
  {
    match Find(row, cursor)
    case None =>
    case Some(p) =>
      FindInString(row, cursor);
      CLenBound(row, cursor, z);
      if WriteSucceeds(outcomes, w) {
        ScanFailNul(row[p := NUL], p + 2, w + 1, outcomes, z);
      } else {
        assert Scan(row, cursor, w, outcomes).row[p] == NUL;
      }
  }

  /** A round whose reply write fails keeps its appended length with a NUL
      below it (line 155 runs before the write of line 159). */
  lemma FailureLeavesNul(s: Slot, c: seq<byte>, outcomes: seq<bool>, w: nat)
    requires SlotInv(s) && 0 < |c| <= ReadSize
    ensures var r := ReadRound(s, c, outcomes, w);
            r.failed ==> exists z :: 0 <= z < r.slot.len && r.slot.row[z] == NUL
  {
    var a := Append(s, c);
    ScanFailNul(a.row, 0, w, outcomes, a.len);
  }

  /** Two rows that agree up to a NUL of the first hold the same C string
      before it. */
  lemma {:induction false} CStrAgree(r1: seq<byte>, r2: seq<byte>, i: nat, z: nat)
    requires i <= z < |r1| && z < |r2| && r1[z] == NUL && r1[..z + 1] == r2[..z + 1]
    ensures CStr(r1, i) == CStr(r2, i)
    decreases z - i
  {
    assert r1[i] == r1[..z + 1][i] == r2[..z + 1][i] == r2[i];
    if r1[i] != NUL {
      CStrAgree(r1, r2, i + 1, z);
    }
  }

  /** A slot with a NUL below its length loses the next chunk: Append places
      the chunk behind the NUL, where strstr and strlen never look, so with
      every reply written the round answers the messages of the C string
      before the NUL, whatever the chunk, and keeps only that string's tail. */
  lemma NextChunkLost(s: Slot, c: seq<byte>, outcomes: seq<bool>, w: nat, z: nat)
    requires SlotInv(s) && 0 < |c| <= ReadSize && z < s.len && s.row[z] == NUL
    requires forall j :: w <= j < |outcomes| ==> outcomes[j]
    ensures var f := Split(CStr(s.row, 0));
            var r := ReadRound(s, c, outcomes, w);
            && !r.failed
            && r.writes == w + |f.msgs|
            && r.slot.len <= z
            && r.slot.row[..r.slot.len] == f.rest
  {
    var a := Append(s, c);
    var t := CStr(s.row, 0);
    assert a.row[..z + 1] == a.row[..s.len][..z + 1];
    assert s.row[..z + 1] == s.row[..s.len][..z + 1];
    CStrAgree(s.row, a.row, 0, z);
    RoundFrames(s, c, outcomes, w);
    LeadingOkAll(outcomes, w, |Split(t).msgs|);
    SplitSound(t);
    assert |Join(Split(t).msgs) + Split(t).rest| == |t|;
    CLenBound(s.row, 0, z);
  }

  /** Stale bytes after a failed write: the next round on that slot, as for
      the next connection to get a descriptor congruent modulo 1024, answers
      and keeps only what the failed round left before its first NUL, and
      nothing of its own chunk. */
  lemma FailedRoundLosesNext(s: Slot, c1: seq<byte>, o1: seq<bool>, w1: nat,
                             c2: seq<byte>, o2: seq<bool>, w2: nat)
    requires SlotInv(s) && 0 < |c1| <= ReadSize && 0 < |c2| <= ReadSize
    requires ReadRound(s, c1, o1, w1).failed
    requires forall j :: w2 <= j < |o2| ==> o2[j]
    ensures var left := ReadRound(s, c1, o1, w1).slot;
            var f := Split(CStr(left.row, 0));
            var r := ReadRound(left, c2, o2, w2);
            && r.writes == w2 + |f.msgs|
            && r.slot.len < left.len
            && r.slot.row[..r.slot.len] == f.rest
  {
    var left := ReadRound(s, c1, o1, w1).slot;
    FailureLeavesNul(s, c1, o1, w1);
    var z :| 0 <= z < left.len && left.row[z] == NUL;
    NextChunkLost(left, c2, o2, w2, z);
  }
}
