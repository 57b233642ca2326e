/** Stream framing on CR LF, stated on plain byte sequences.

    This is the meaning of the server's protocol: a connection's byte stream
    is a sequence of messages, each terminated by the two bytes CR LF, followed
    by an unterminated tail.  `Split` cuts a stream that way and `Join` glues it
    back; the lemmas show the two are inverse, that the number of messages is
    the number of CR LF occurrences, and that cutting a stream piece by piece
    (keeping the tail between pieces) gives the same messages as cutting the
    whole stream at once. */
module Framing {

  newtype byte = b: int | 0 <= b < 256

  const NUL: byte := 0
  const LF: byte := 10
  const CR: byte := 13

  datatype Option<T> = None | Some(value: T)

  /** s[i], s[i+1] is a CR LF pair. */
  predicate DelimiterAt(s: seq<byte>, i: int) {
    0 <= i && i + 1 < |s| && s[i] == CR && s[i + 1] == LF
  }

  predicate NoDelimiter(s: seq<byte>) {
    forall i :: 0 <= i < |s| ==> !DelimiterAt(s, i)
  }

  /** Every message is free of CR LF. */
  predicate AllUndelimited(msgs: seq<seq<byte>>) {
    forall k :: 0 <= k < |msgs| ==> NoDelimiter(msgs[k])
  }

  /** The position of the leftmost CR LF in s, if any. */
  function FirstDelimiter(s: seq<byte>): (r: Option<nat>)
    ensures r.Some? ==> r.value + 2 <= |s|
    decreases |s|
  {
    if |s| < 2 then None
    else if s[0] == CR && s[1] == LF then Some(0)
    else match FirstDelimiter(s[1..])
      case None => None
      case Some(p) => Some(p + 1)
  }

  /** FirstDelimiter finds a CR LF with none before it, or reports that
      there is none. */
  lemma {:induction false} FirstDelimiterSound(s: seq<byte>)
    ensures FirstDelimiter(s).Some? ==> DelimiterAt(s, FirstDelimiter(s).value)
    ensures FirstDelimiter(s).Some? ==>
      forall j :: 0 <= j < FirstDelimiter(s).value ==> !DelimiterAt(s, j)
    ensures FirstDelimiter(s).None? ==> NoDelimiter(s)
    decreases |s|
  {
    if |s| >= 2 && !(s[0] == CR && s[1] == LF) {
      FirstDelimiterSound(s[1..]);
      forall j | 0 < j < |s|
        ensures DelimiterAt(s, j) == DelimiterAt(s[1..], j - 1)
      {
      }
    }
  }

  /** A CR LF with none before it is the one FirstDelimiter finds. */
  lemma {:induction false} FirstDelimiterAt(s: seq<byte>, p: nat)
    requires DelimiterAt(s, p)
    requires forall j :: 0 <= j < p ==> !DelimiterAt(s, j)
    ensures FirstDelimiter(s) == Some(p)
    decreases p
  {
    if p > 0 {
      assert !DelimiterAt(s, 0);
      forall j | 0 <= j < p - 1
        ensures !DelimiterAt(s[1..], j)
      {
        assert !DelimiterAt(s, j + 1);
      }
      assert DelimiterAt(s[1..], p - 1);
      FirstDelimiterAt(s[1..], p - 1);
    }
  }

  /** Messages terminated by CR LF, and the unterminated tail. */
  datatype Framed = Framed(msgs: seq<seq<byte>>, rest: seq<byte>)

  /** Each message followed by CR LF, in order. */
  function Join(msgs: seq<seq<byte>>): seq<byte> {
    if msgs == [] then [] else msgs[0] + [CR, LF] + Join(msgs[1..])
  }

  /** Cuts s at every CR LF, left to right and without overlap. */
  function Split(s: seq<byte>): Framed
    decreases |s|
  {
    match FirstDelimiter(s)
    case None => Framed([], s)
    case Some(p) =>
      var tail := Split(s[p + 2..]);
      Framed([s[..p]] + tail.msgs, tail.rest)
  }

  /** Split cuts s into undelimited messages and an undelimited tail that
      glue back to s. */
  lemma {:induction false} SplitSound(s: seq<byte>)
    ensures Join(Split(s).msgs) + Split(s).rest == s
    ensures AllUndelimited(Split(s).msgs)
    ensures NoDelimiter(Split(s).rest)
    decreases |s|
  {
    FirstDelimiterSound(s);
    match FirstDelimiter(s)
    case None =>
    case Some(p) =>
      var tail := Split(s[p + 2..]);
      SplitSound(s[p + 2..]);
      CutAtFirst(s, p);
      JoinCons(s[..p], tail.msgs, tail.rest);
      AllUndelimitedCons(s[..p], tail.msgs);
  }

  /** The bytes before the first CR LF hold none, and s is those bytes, the
      CR LF and what follows. */
  lemma CutAtFirst(s: seq<byte>, p: nat)
    requires DelimiterAt(s, p)
    requires forall j :: 0 <= j < p ==> !DelimiterAt(s, j)
    ensures NoDelimiter(s[..p])
    ensures s == s[..p] + [CR, LF] + s[p + 2..]
  {
    var head := s[..p];
    forall j | 0 <= j < |head|
      ensures !DelimiterAt(head, j)
    {
      assert !DelimiterAt(s, j);
    }
  }

  lemma JoinCons(m: seq<byte>, ms: seq<seq<byte>>, rest: seq<byte>)
    ensures Join([m] + ms) + rest == m + [CR, LF] + (Join(ms) + rest)
  {
    assert ([m] + ms)[1..] == ms;
  }

  lemma AllUndelimitedCons(m: seq<byte>, ms: seq<seq<byte>>)
    requires NoDelimiter(m) && AllUndelimited(ms)
    ensures AllUndelimited([m] + ms)
  {
    forall k | 0 <= k < |[m] + ms|
      ensures NoDelimiter(([m] + ms)[k])
    {
      if k > 0 {
        assert ([m] + ms)[k] == ms[k - 1];
      }
    }
  }

  lemma AllUndelimitedAppend(a: seq<seq<byte>>, b: seq<seq<byte>>)
    requires AllUndelimited(a) && AllUndelimited(b)
    ensures AllUndelimited(a + b)
  {
    forall k | 0 <= k < |a + b|
      ensures NoDelimiter((a + b)[k])
    {
      if k >= |a| {
        assert (a + b)[k] == b[k - |a|];
      }
    }
  }

  /** Regrouping three byte strings, as a separate step: stated inline
      about Join and Split terms it costs the solver far more. */
  lemma ConcatAssoc(x: seq<byte>, y: seq<byte>, z: seq<byte>)
    ensures (x + y) + z == x + (y + z)
  {
  }

  lemma {:induction false} JoinAppend(a: seq<seq<byte>>, b: seq<seq<byte>>)
    ensures Join(a + b) == Join(a) + Join(b)
  {
    if a == [] {
      assert a + b == b;
    } else {
      assert (a + b)[0] == a[0];
      assert (a + b)[1..] == a[1..] + b;
      JoinAppend(a[1..], b);
    }
  }

  /** The first message of s ends at its first CR LF. */
  lemma SplitFirst(s: seq<byte>, p: nat)
    requires FirstDelimiter(s) == Some(p)
    ensures p + 2 <= |s|
    ensures Split(s) == Framed([s[..p]] + Split(s[p + 2..]).msgs, Split(s[p + 2..]).rest)
  {
    var tail := Split(s[p + 2..]);
    assert Split(s) == Framed([s[..p]] + tail.msgs, tail.rest);
  }

  /** A CR LF right after an undelimited prefix is the first one. */
  lemma FirstDelimiterAfter(m: seq<byte>, t: seq<byte>)
    requires NoDelimiter(m)
    ensures FirstDelimiter(m + [CR, LF] + t) == Some(|m|)
  {
    var s := m + [CR, LF] + t;
    forall j | 0 <= j < |m|
      ensures !DelimiterAt(s, j)
    {
      if j + 1 < |m| {
        assert !DelimiterAt(m, j);
      }
    }
    FirstDelimiterAt(s, |m|);
  }

  /** Split inverts Join: a stream built from undelimited messages and an
      undelimited tail is cut back into exactly those messages and that tail. */
  lemma {:induction false} SplitJoin(msgs: seq<seq<byte>>, rest: seq<byte>)
    requires AllUndelimited(msgs)
    requires NoDelimiter(rest)
    ensures Split(Join(msgs) + rest) == Framed(msgs, rest)
  {
    if msgs == [] {
      assert Join(msgs) + rest == rest;
      FirstDelimiterSound(rest);
    } else {
      var m, ms := msgs[0], msgs[1..];
      assert [m] + ms == msgs;
      JoinCons(m, ms, rest);
      var t := Join(ms) + rest;
      var s := m + [CR, LF] + t;
      FirstDelimiterAfter(m, t);
      SplitFirst(s, |m|);
      assert s[..|m|] == m;
      assert s[|m| + 2..] == t;
      assert AllUndelimited(ms) by {
        forall k | 0 <= k < |ms| ensures NoDelimiter(ms[k]) {
          assert ms[k] == msgs[k + 1];
        }
      }
      SplitJoin(ms, rest);
    }
  }

  /** Split is the unique decomposition into undelimited messages and tail. */
  lemma SplitUnique(s: seq<byte>, msgs: seq<seq<byte>>, rest: seq<byte>)
    requires AllUndelimited(msgs) && NoDelimiter(rest)
    requires Join(msgs) + rest == s
    ensures Split(s) == Framed(msgs, rest)
  {
    SplitJoin(msgs, rest);
  }

  /** The number of CR LF pairs in s. */
  function Occurrences(s: seq<byte>): nat {
    if |s| < 2 then 0
    else (if s[0] == CR && s[1] == LF then 1 else 0) + Occurrences(s[1..])
  }

  /** Leading bytes that start no CR LF do not change the count. */
  lemma {:induction false} OccurrencesSkip(s: seq<byte>, p: nat)
    requires p <= |s|
    requires forall j :: 0 <= j < p ==> !DelimiterAt(s, j)
    ensures Occurrences(s) == Occurrences(s[p..])
    decreases p
  {
    if p > 0 {
      assert !DelimiterAt(s, 0);
      forall j | 0 <= j < p - 1 ensures !DelimiterAt(s[1..], j) {
        assert !DelimiterAt(s, j + 1);
      }
      OccurrencesSkip(s[1..], p - 1);
      assert s[1..][p - 1..] == s[p..];
    }
  }

  /** One message per CR LF occurrence. */
  lemma {:induction false} MessageCount(s: seq<byte>)
    ensures |Split(s).msgs| == Occurrences(s)
    decreases |s|
  {
    FirstDelimiterSound(s);
    match FirstDelimiter(s)
    case None =>
      OccurrencesSkip(s, |s|);
    case Some(p) =>
      OccurrencesSkip(s, p);
      SplitFirst(s, p);
      var u := s[p..];
      assert u[0] == CR && u[1] == LF;
      assert u[1..][1..] == s[p + 2..];
      if |u| == 2 {
        assert s[p + 2..] == [];
      }
      MessageCount(s[p + 2..]);
  }

  /** Framing a stream in two pieces, carrying the tail of the first piece
      over to the second, yields the messages and tail of the whole stream. */
  lemma {:induction false} SplitConcat(a: seq<byte>, b: seq<byte>)
    ensures var fa := Split(a); var fb := Split(fa.rest + b);
      Split(a + b) == Framed(fa.msgs + fb.msgs, fb.rest)
  {
    var fa := Split(a);
    var fb := Split(fa.rest + b);
    SplitSound(a);
    SplitSound(fa.rest + b);
    JoinAppend(fa.msgs, fb.msgs);
    ConcatAssoc(Join(fa.msgs), fa.rest, b);
    ConcatAssoc(Join(fa.msgs), Join(fb.msgs), fb.rest);
    AllUndelimitedAppend(fa.msgs, fb.msgs);
    SplitUnique(a + b, fa.msgs + fb.msgs, fb.rest);
  }

  /** Counting in two pieces: when the first piece frames into `first`
      and that tail followed by the second piece frames into `second`, the
      CR LF pairs of the whole stream are the messages of both, pairs that
      straddle the cut included. */
  lemma OccurrencesConcat(a: seq<byte>, b: seq<byte>, first: Framed, second: Framed)
    requires Split(a) == first && Split(first.rest + b) == second
    ensures Occurrences(a + b) == |first.msgs| + |second.msgs|
  {
    SplitConcat(a, b);
    MessageCount(a + b);
  }
}
