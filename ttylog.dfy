/** write_escaped: appends one chunk of pseudo-terminal output to the log
    file with one write(2) call per input byte (two for an ESC that does not
    start the chunk), and returns the sum of what the counted calls took, or
    -1. The kernel may answer each call with -1, or take any prefix of the
    data; the model states the log's new contents and the result for every
    such sequence of answers. */
module TtyLog {
  import opened Escaping

  /** READ_SIZE: the largest chunk the relay loop reads and hands over. */
  const ReadSize: nat := 512

  /** The number of write(2) calls issued for the byte `b`, which sits at
      index 0 iff `first`: an ESC that is not at index 0 is preceded by a
      call writing a lone line feed, whose result is not looked at. */
  function Calls(b: byte, first: bool): nat {
    if b == ESC && !first then 2 else 1
  }

  /** The data of those calls, in the order they are made. */
  function Asked(b: byte, first: bool): (calls: seq<seq<byte>>)
    ensures |calls| == Calls(b, first)
  {
    (if b == ESC && !first then [[LF]] else []) + [Marker(b)]
  }

  /** `step` can be the kernel's answers to the calls for `b`: one per call,
      each -1 or a length the call could take. */
  predicate Answers(b: byte, first: bool, step: seq<int>) {
    && |step| == Calls(b, first)
    && -1 <= Reply(step) <= |Marker(b)|
    && (|step| == 2 ==> -1 <= step[0] <= 1)
  }

  /** The answer to the last call for a byte, the one write_escaped keeps. */
  function Reply(step: seq<int>): int {
    if step == [] then 0 else step[|step| - 1]
  }

  /** What the kernel appends for a write of `data` that returns `n`: the first
      `n` bytes, or nothing when it fails (-1) or takes nothing (0). */
  function Accept(data: seq<byte>, n: int): seq<byte> {
    if n <= 0 then [] else if n < |data| then data[..n] else data
  }

  /** The bytes the calls for `b` append, given the kernel's answers. */
  function Emitted(b: byte, first: bool, step: seq<int>): seq<byte> {
    (if b == ESC && !first && |step| == 2 then Accept([LF], step[0]) else [])
      + Accept(Marker(b), Reply(step))
  }

  /** The answers `trace[k]` to the calls for byte k fit those calls. */
  predicate Answered(buf: seq<byte>, trace: seq<seq<int>>, k: int) {
    0 <= k < |trace| && k < |buf| && Answers(buf[k], k == 0, trace[k])
  }

  /** The scan went on past byte k: the last call for it took something. */
  predicate Moved(trace: seq<seq<int>>, k: int) {
    0 <= k < |trace| && 0 < Reply(trace[k])
  }

  /** The loop of write_escaped has handled the first |trace| bytes of `buf`
      and is still going. */
  predicate Going(buf: seq<byte>, trace: seq<seq<int>>) {
    && |trace| <= |buf|
    && forall k :: 0 <= k < |trace| ==> Answered(buf, trace, k) && Moved(trace, k)
  }

  /** `trace` can be the kernel's answers to the calls of one
      write_escaped(fd, buf, |buf|), grouped by input byte: the loop went on
      past every byte but the last one answered, and stopped short of the end
      of `buf` only after a last answer of -1 or 0. */
  predicate Admissible(buf: seq<byte>, trace: seq<seq<int>>) {
    var n := |trace|;
    && n <= |buf|
    && (n == 0 ==> buf == [])
    && (0 < n ==>
          && Going(buf, trace[..n - 1])
          && Answered(buf, trace, n - 1)
          && (n < |buf| ==> Reply(trace[n - 1]) <= 0))
  }

  /** The bytes appended to the log, given the kernel's answers. */
  function Output(buf: seq<byte>, trace: seq<seq<int>>): seq<byte>
    requires |trace| <= |buf|
  {
    Concat(Pieces(buf, trace))
  }

  /** What the calls for each byte handled append, byte by byte. */
  function Pieces(buf: seq<byte>, trace: seq<seq<int>>): (pieces: seq<seq<byte>>)
    requires |trace| <= |buf|
    ensures |pieces| == |trace|
  {
    seq(|trace|, k requires 0 <= k < |trace| => Emitted(buf[k], k == 0, trace[k]))
  }

  /** The data of the calls for the first `n` bytes of `buf`, in order. */
  function Requests(buf: seq<byte>, n: nat): seq<seq<byte>>
    requires n <= |buf|
  {
    Concat(seq(n, k requires 0 <= k < n => Asked(buf[k], k == 0)))
  }

  /** The sum of the positive last answers: the running `total`. */
  function Sum(trace: seq<seq<int>>): nat
    decreases |trace|
  {
    if trace == [] then 0
    else
      var n := |trace| - 1;
      Sum(trace[..n]) + Taken(trace[n])
  }

  /** What the counted call for a byte adds to the total: its answer, or
      nothing when it failed. */
  function Taken(step: seq<int>): nat {
    if 0 < Reply(step) then Reply(step) else 0
  }

  /** The value write_escaped returns: -1 when its last call failed,
      otherwise the running total. */
  function Returned(trace: seq<seq<int>>): int {
    if trace != [] && Reply(trace[|trace| - 1]) == -1 then -1 else Sum(trace)
  }

  /** The log file descriptor: the bytes written to it so far, and the data
      of every write(2) made on it with the kernel's answer. */
  class LogFile {
    var sink: seq<byte>
    ghost var requests: seq<seq<byte>>
    ghost var replies: seq<int>

    constructor (contents: seq<byte>)
      ensures sink == contents && requests == [] && replies == []
    {
      sink := contents;
      requests := [];
      replies := [];
    }

    /** write(2) on a descriptor opened with O_APPEND: the kernel takes a
        prefix of `data` and returns its length, or fails with -1 and takes
        nothing. Which of these it does is its own choice. */
    method Write(data: seq<byte>) returns (n: int)
      modifies this
      ensures -1 <= n <= |data|
      ensures sink == old(sink) + Accept(data, n)
      ensures requests == old(requests) + [data]
      ensures replies == old(replies) + [n]
    {
      n :| -1 <= n <= |data|;
      sink := sink + Accept(data, n);
      requests := requests + [data];
      replies := replies + [n];
    }
  }

  lemma OutputSnoc(buf: seq<byte>, trace: seq<seq<int>>, step: seq<int>)
    requires |trace| < |buf|
    ensures Output(buf, trace + [step]) == Output(buf, trace) + Emitted(buf[|trace|], |trace| == 0, step)
  {
    PiecesSnoc(buf, trace, step);
    ConcatSnoc(Pieces(buf, trace), Emitted(buf[|trace|], |trace| == 0, step));
  }

  /** Handling one more byte adds one piece at the end. */
  lemma PiecesSnoc(buf: seq<byte>, trace: seq<seq<int>>, step: seq<int>)
    requires |trace| < |buf|
    ensures Pieces(buf, trace + [step]) == Pieces(buf, trace) + [Emitted(buf[|trace|], |trace| == 0, step)]
  {
    var longer := Pieces(buf, trace + [step]);
    assert longer[..|trace|] == Pieces(buf, trace);
    assert longer == longer[..|trace|] + [longer[|trace|]];
  }

  lemma SumSnoc(trace: seq<seq<int>>, step: seq<int>)
    ensures Sum(trace + [step]) == Sum(trace) + Taken(step)
  {
    assert (trace + [step])[..|trace|] == trace;
  }

  /** The loop goes on past one more byte. */
  lemma GoingSnoc(buf: seq<byte>, trace: seq<seq<int>>, step: seq<int>)
    requires Going(buf, trace) && |trace| < |buf|
    requires Answers(buf[|trace|], |trace| == 0, step) && 0 < Reply(step)
    ensures Going(buf, trace + [step])
  {
    var next := trace + [step];
    forall k | 0 <= k < |next|
      ensures Answered(buf, next, k) && Moved(next, k)
    {
      if k < |trace| {
        assert Answered(buf, trace, k) && Moved(trace, k);
      }
    }
  }

  /** The loop stops at one more byte: the last call for it took nothing or
      failed, or it was the last byte. */
  lemma Stopped(buf: seq<byte>, trace: seq<seq<int>>, step: seq<int>)
    requires Going(buf, trace) && |trace| < |buf|
    requires Answers(buf[|trace|], |trace| == 0, step)
    requires |trace| + 1 < |buf| ==> Reply(step) <= 0
    ensures Admissible(buf, trace + [step])
  {
    assert (trace + [step])[..|trace|] == trace;
  }

  /** The loop ran to the end of `buf`. */
  lemma Finished(buf: seq<byte>, trace: seq<seq<int>>)
    requires Going(buf, trace) && |trace| == |buf|
    ensures Admissible(buf, trace)
  {
    if trace != [] {
      var n := |trace| - 1;
      assert Answered(buf, trace, n);
      forall k | 0 <= k < n
        ensures Answered(buf, trace[..n], k) && Moved(trace[..n], k)
      {
        assert Answered(buf, trace, k) && Moved(trace, k);
      }
    }
  }

  /** Every byte answered so far got answers that fit its calls. */
  predicate AllAnswered(buf: seq<byte>, trace: seq<seq<int>>) {
    && |trace| <= |buf|
    && forall k :: 0 <= k < |trace| ==> Answered(buf, trace, k)
  }

  lemma AdmissibleAnswered(buf: seq<byte>, trace: seq<seq<int>>)
    requires Admissible(buf, trace)
    ensures AllAnswered(buf, trace)
  {
    if trace != [] {
      var n := |trace| - 1;
      forall k | 0 <= k < |trace|
        ensures Answered(buf, trace, k)
      {
        if k < n {
          assert Answered(buf, trace[..n], k) && Moved(trace[..n], k);
        }
      }
    }
  }

  lemma AnsweredPrefix(buf: seq<byte>, trace: seq<seq<int>>)
    requires AllAnswered(buf, trace) && trace != []
    ensures AllAnswered(buf, trace[..|trace| - 1])
    ensures Answered(buf, trace, |trace| - 1)
  {
    var n := |trace| - 1;
    forall k | 0 <= k < n
      ensures Answered(buf, trace[..n], k)
    {
      assert Answered(buf, trace, k);
    }
  }

  /** What the calls for one byte append: the part of its marker the last
      call took, and at most the one line feed before an ESC that does not
      start the chunk. */
  lemma EmittedLength(b: byte, first: bool, step: seq<int>)
    requires Answers(b, first, step)
    ensures var taken := Taken(step);
      taken <= |Emitted(b, first, step)| <= taken + if b == ESC && !first then 1 else 0
  {
  }

  /** The running total counts every byte appended to the log except the
      line feeds written before ESC bytes, which it leaves out. */
  lemma {:induction false} OutputLength(buf: seq<byte>, trace: seq<seq<int>>)
    requires AllAnswered(buf, trace)
    ensures Sum(trace) <= |Output(buf, trace)| <= Sum(trace) + Breaks(buf[..|trace|])
    decreases |trace|
  {
    if trace != [] {
      var n := |trace| - 1;
      AnsweredPrefix(buf, trace);
      OutputLength(buf, trace[..n]);
      OutputGrowth(buf, trace);
      BreaksNext(buf, n);
    }
  }

  /** The calls for the last byte handled append at least what the total
      gains, and at most one byte more when that byte is an ESC that does
      not start the chunk. */
  lemma OutputGrowth(buf: seq<byte>, trace: seq<seq<int>>)
    requires trace != [] && |trace| <= |buf|
    requires Answered(buf, trace, |trace| - 1)
    ensures var n := |trace| - 1;
      var grown := |Output(buf, trace)| - |Output(buf, trace[..n])|;
      var counted := Sum(trace) - Sum(trace[..n]);
      counted <= grown <= counted + if n != 0 && buf[n] == ESC then 1 else 0
  {
    var n := |trace| - 1;
    assert trace == trace[..n] + [trace[n]];
    OutputSnoc(buf, trace[..n], trace[n]);
    EmittedLength(buf[n], n == 0, trace[n]);
  }

  /** One more byte adds a line feed before it exactly when it is an ESC
      that does not start the chunk. */
  lemma BreaksNext(buf: seq<byte>, n: nat)
    requires n < |buf|
    ensures Breaks(buf[..n + 1]) == Breaks(buf[..n]) + if n != 0 && buf[n] == ESC then 1 else 0
  {
    assert buf[..n + 1] == buf[..n] + [buf[n]];
    BreaksSnoc(buf[..n], buf[n]);
  }

  /** Complete writes of one more byte add its whole marker to the total. */
  lemma CountedNext(buf: seq<byte>, n: nat)
    requires n < |buf|
    ensures Counted(buf[..n + 1]) == Counted(buf[..n]) + |Marker(buf[n])|
  {
    assert buf[..n + 1] == buf[..n] + [buf[n]];
    CountedAppend(buf[..n], [buf[n]]);
    MarkerCounted(buf[n]);
  }

  /** The running total never exceeds what complete writes of the same bytes
      would have returned. */
  lemma {:induction false} SumAtMostCounted(buf: seq<byte>, trace: seq<seq<int>>)
    requires AllAnswered(buf, trace)
    ensures Sum(trace) <= Counted(buf[..|trace|])
    decreases |trace|
  {
    if trace != [] {
      var n := |trace| - 1;
      AnsweredPrefix(buf, trace);
      SumAtMostCounted(buf, trace[..n]);
      CountedNext(buf, n);
    }
  }

  /** The answer kept for byte k is at most its marker's length. */
  lemma ReplyAtMostMarker(buf: seq<byte>, trace: seq<seq<int>>, k: int)
    requires Answered(buf, trace, k)
    ensures Reply(trace[k]) <= |Marker(buf[k])|
  {
  }

  /** The call for byte k took its whole marker. */
  predicate Full(buf: seq<byte>, trace: seq<seq<int>>, k: int) {
    0 <= k < |trace| && k < |buf| && Reply(trace[k]) == |Marker(buf[k])|
  }

  /** Each counted call that took less than its whole marker leaves the
      running total that much short of what complete writes would return. */
  lemma {:induction false} SumGap(buf: seq<byte>, trace: seq<seq<int>>, k: int)
    requires AllAnswered(buf, trace) && 0 <= k < |trace|
    ensures Sum(trace) + |Marker(buf[k])| - Taken(trace[k]) <= Counted(buf[..|trace|])
    decreases |trace|
  {
    var n := |trace| - 1;
    var prev := trace[..n];
    AnsweredPrefix(buf, trace);
    CountedNext(buf, n);
    ReplyAtMostMarker(buf, trace, n);
    if k == n {
      SumAtMostCounted(buf, prev);
    } else {
      SumGap(buf, prev, k);
      assert prev[k] == trace[k];
    }
  }

  /** The running total reaches what complete writes would have returned
      only if every counted call took its whole marker. */
  lemma SumReachesCounted(buf: seq<byte>, trace: seq<seq<int>>)
    requires AllAnswered(buf, trace) && Sum(trace) == Counted(buf[..|trace|])
    ensures forall k :: 0 <= k < |trace| ==> Full(buf, trace, k)
  {
    forall k | 0 <= k < |trace|
      ensures Full(buf, trace, k)
    {
      SumGap(buf, trace, k);
      ReplyAtMostMarker(buf, trace, k);
    }
  }

  /** write_escaped returns -1 or a total between 0 and what complete writes
      would return; a non-negative result is the running total, which counts
      every byte appended except the line feeds before ESC bytes. */
  lemma Accounting(buf: seq<byte>, trace: seq<seq<int>>)
    requires Admissible(buf, trace)
    ensures -1 <= Returned(trace) <= Counted(buf)
    ensures 0 <= Returned(trace) ==> Returned(trace) == Sum(trace)
    ensures Sum(trace) <= Counted(buf)
    ensures Sum(trace) <= |Output(buf, trace)| <= Sum(trace) + Breaks(buf)
  {
    AdmissibleAnswered(buf, trace);
    OutputLength(buf, trace);
    SumAtMostCounted(buf, trace);
    BreaksPrefix(buf, |trace|);
    CountedPrefix(buf, |trace|);
  }

  /** The scan goes on past a byte exactly when the counted call for it took
      something: it ends early only at a call answered with 0 or -1, the
      result is -1 only when that last call failed, and an empty chunk makes
      no call and returns 0. */
  lemma ScanStops(buf: seq<byte>, trace: seq<seq<int>>)
    requires Admissible(buf, trace)
    ensures forall k :: 0 <= k < |trace| - 1 ==> 0 < Reply(trace[k])
    ensures |trace| < |buf| ==> trace != [] && Reply(trace[|trace| - 1]) <= 0
    ensures Returned(trace) == -1 <==> trace != [] && Reply(trace[|trace| - 1]) == -1
    ensures buf == [] ==> trace == [] && Returned(trace) == 0 && Output(buf, trace) == []
  {
    if trace != [] {
      var n := |trace| - 1;
      forall k | 0 <= k < n
        ensures 0 < Reply(trace[k])
      {
        assert Moved(trace[..n], k);
      }
    }
  }

  /** With a chunk of at most READ_SIZE bytes the result lies in
      -1..12 * READ_SIZE, so the C `int` total cannot overflow. */
  lemma ReturnedFitsInt(buf: seq<byte>, trace: seq<seq<int>>)
    requires Admissible(buf, trace) && |buf| <= ReadSize
    ensures -1 <= Returned(trace) <= 12 * ReadSize < 0x7FFF_FFFF
    ensures Sum(trace) <= 12 * ReadSize
  {
    Accounting(buf, trace);
    CountedBounds(buf);
  }

  /** A result equal to what complete writes would return means the loop
      reached the end of the chunk and every counted call took its whole
      marker; the line feeds before ESC bytes may still be missing. */
  lemma FullCountMeansAllMarkers(buf: seq<byte>, trace: seq<seq<int>>)
    requires Admissible(buf, trace) && Returned(trace) == Counted(buf)
    ensures |trace| == |buf|
    ensures forall k :: 0 <= k < |trace| ==> Reply(trace[k]) == |Marker(buf[k])|
  {
    Accounting(buf, trace);
    if |trace| < |buf| {
      AdmissibleAnswered(buf, trace);
      SumAtMostCounted(buf, trace);
      CountedPrefix(buf, |trace|);
    }
    assert buf[..|trace|] == buf;
    AdmissibleAnswered(buf, trace);
    SumReachesCounted(buf, trace);
    forall k | 0 <= k < |trace|
      ensures Reply(trace[k]) == |Marker(buf[k])|
    {
      assert Full(buf, trace, k);
    }
  }

  /** The output for the first bytes does not depend on the bytes after them. */
  lemma OutputFrame(a: seq<byte>, b: seq<byte>, trace: seq<seq<int>>)
    requires |trace| <= |a| <= |b| && a == b[..|a|]
    ensures Output(a, trace) == Output(b, trace)
  {
    assert Pieces(a, trace) == Pieces(b, trace) by {
      forall k | 0 <= k < |trace|
        ensures a[k] == b[k]
      {
      }
    }
  }

  /** The answers when every call takes all it is asked to. */
  function Complete(b: byte, first: bool): seq<int> {
    if b == ESC && !first then [1, |EscMark|] else [|Marker(b)|]
  }

  /** Complete answers fit the calls, keep the whole marker as the result,
      and append the byte's unit of the transcript. */
  lemma CompleteStep(b: byte, first: bool)
    ensures Answers(b, first, Complete(b, first))
    ensures Reply(Complete(b, first)) == |Marker(b)|
    ensures Emitted(b, first, Complete(b, first)) == Unit(b, first)
  {
    assert Accept(Marker(b), |Marker(b)|) == Marker(b);
    if b == ESC && !first {
      assert Accept([LF], 1) == [LF];
    }
  }

  function CompleteTrace(buf: seq<byte>): (trace: seq<seq<int>>)
    ensures |trace| == |buf|
    decreases |buf|
  {
    if buf == [] then []
    else
      var n := |buf| - 1;
      CompleteTrace(buf[..n]) + [Complete(buf[n], n == 0)]
  }

  /** When every call takes all it is asked to, the loop goes on past every
      byte. */
  lemma {:induction false} CompleteGoing(buf: seq<byte>)
    ensures Going(buf, CompleteTrace(buf))
    decreases |buf|
  {
    if buf != [] {
      var n := |buf| - 1;
      var init, prev := buf[..n], CompleteTrace(buf[..n]);
      CompleteGoing(init);
      CompleteStep(buf[n], n == 0);
      assert Going(buf, prev) by {
        forall k | 0 <= k < |prev|
          ensures Answered(buf, prev, k) && Moved(prev, k)
        {
          assert Answered(init, prev, k) && Moved(prev, k);
        }
      }
      GoingSnoc(buf, prev, Complete(buf[n], n == 0));
    }
  }

  /** When every call takes all it is asked to, the log gains exactly the
      transcript of the chunk. */
  lemma {:induction false} CompleteOutput(buf: seq<byte>)
    ensures Output(buf, CompleteTrace(buf)) == Escape(buf)
    decreases |buf|
  {
    if buf != [] {
      var n := |buf| - 1;
      var init, b := buf[..n], buf[n];
      var first := init == [];
      var prev, step := CompleteTrace(init), Complete(b, first);
      assert buf == init + [b];
      calc {
        Output(buf, CompleteTrace(buf));
        Output(buf, prev + [step]);
        { OutputSnoc(buf, prev, step); }
        Output(buf, prev) + Emitted(b, first, step);
        { OutputFrame(init, buf, prev); CompleteStep(b, first); }
        Output(init, prev) + Unit(b, first);
        { CompleteOutput(init); }
        Escape(init) + Unit(b, first);
        { EscapeSnoc(init, b); }
        Escape(buf);
      }
    }
  }

  /** When every call takes all it is asked to, the running total is the
      counted total. */
  lemma {:induction false} CompleteSum(buf: seq<byte>)
    ensures Sum(CompleteTrace(buf)) == Counted(buf)
    decreases |buf|
  {
    if buf != [] {
      var n := |buf| - 1;
      var init, b := buf[..n], buf[n];
      var prev, step := CompleteTrace(init), Complete(b, n == 0);
      assert buf == init + [b];
      calc {
        Sum(CompleteTrace(buf));
        Sum(prev + [step]);
        { SumSnoc(prev, step); CompleteStep(b, n == 0); }
        Sum(prev) + |Marker(b)|;
        { CompleteSum(init); MarkerCounted(b); }
        Counted(init) + Counted([b]);
        { CountedAppend(init, [b]); }
        Counted(buf);
      }
    }
  }

  /** The complete answers are admissible, and give the transcript and the
      counted total. */
  lemma CompleteWrites(buf: seq<byte>)
    ensures Admissible(buf, CompleteTrace(buf))
    ensures Output(buf, CompleteTrace(buf)) == Escape(buf)
    ensures Returned(CompleteTrace(buf)) == Counted(buf)
  {
    CompleteGoing(buf);
    CompleteOutput(buf);
    CompleteSum(buf);
    Finished(buf, CompleteTrace(buf));
    var trace := CompleteTrace(buf);
    if trace != [] {
      assert Moved(trace, |trace| - 1);
    }
  }

  /** Each call's answer is the length of the data it asked to write: every
      write(2) took all it was given. */
  predicate FullWrites(replies: seq<int>, requests: seq<seq<byte>>) {
    && |replies| == |requests|
    && forall j :: 0 <= j < |replies| ==> replies[j] == |requests[j]|
  }

  lemma FullWritesSplit(r: seq<int>, r': seq<int>, q: seq<seq<byte>>, q': seq<seq<byte>>)
    requires |r| == |q|
    ensures FullWrites(r + r', q + q') <==> FullWrites(r, q) && FullWrites(r', q')
  {
    if FullWrites(r, q) && FullWrites(r', q') {
      forall j | 0 <= j < |r + r'|
        ensures (r + r')[j] == |(q + q')[j]|
      {
        if j >= |r| {
          assert (r + r')[j] == r'[j - |r|];
        }
      }
    }
    if FullWrites(r + r', q + q') {
      forall j | 0 <= j < |r'|
        ensures r'[j] == |q'[j]|
      {
        assert (r + r')[|r| + j] == r'[j];
      }
      forall j | 0 <= j < |r|
        ensures r[j] == |q[j]|
      {
        assert (r + r')[j] == r[j];
      }
    }
  }

  /** The calls for one byte all took their whole data exactly when their
      answers are the complete ones. */
  lemma StepFull(b: byte, first: bool, step: seq<int>)
    ensures FullWrites(step, Asked(b, first)) <==> step == Complete(b, first)
  {
    if b == ESC && !first {
      assert Asked(b, first) == [[LF], EscMark];
    } else {
      assert Asked(b, first) == [Marker(b)];
    }
  }

  lemma RequestsSnoc(buf: seq<byte>, n: nat)
    requires n < |buf|
    ensures Requests(buf, n + 1) == Requests(buf, n) + Asked(buf[n], n == 0)
  {
    var longer := seq(n + 1, k requires 0 <= k < n + 1 => Asked(buf[k], k == 0));
    var shorter := seq(n, k requires 0 <= k < n => Asked(buf[k], k == 0));
    assert longer[..n] == shorter;
    assert longer == longer[..n] + [longer[n]];
    ConcatSnoc(shorter, Asked(buf[n], n == 0));
  }

  /** Laid end to end, calls grouped alike all took their whole data
      exactly when every group's calls did. */
  lemma {:induction false} FullWritesConcat(rs: seq<seq<int>>, qs: seq<seq<seq<byte>>>)
    requires |rs| == |qs| && forall k :: 0 <= k < |rs| ==> |rs[k]| == |qs[k]|
    ensures |Concat(rs)| == |Concat(qs)|
    ensures FullWrites(Concat(rs), Concat(qs)) <==> forall k :: 0 <= k < |rs| ==> FullWrites(rs[k], qs[k])
    decreases |rs|
  {
    if rs != [] {
      var n := |rs| - 1;
      assert rs == rs[..n] + [rs[n]] && qs == qs[..n] + [qs[n]];
      FullWritesConcat(rs[..n], qs[..n]);
      ConcatSnoc(rs[..n], rs[n]);
      ConcatSnoc(qs[..n], qs[n]);
      FullWritesSplit(Concat(rs[..n]), rs[n], Concat(qs[..n]), qs[n]);
      if FullWrites(Concat(rs), Concat(qs)) {
        forall k | 0 <= k < |rs|
          ensures FullWrites(rs[k], qs[k])
        {
          if k < n {
            assert FullWrites(rs[..n][k], qs[..n][k]);
          }
        }
      }
      if forall k :: 0 <= k < |rs| ==> FullWrites(rs[k], qs[k]) {
        forall k | 0 <= k < n
          ensures FullWrites(rs[..n][k], qs[..n][k])
        {
          assert rs[..n][k] == rs[k] && qs[..n][k] == qs[k];
        }
      }
    }
  }

  /** Complete answers for byte k are the complete answers for that byte. */
  lemma {:induction false} CompleteTraceAt(buf: seq<byte>, k: nat)
    requires k < |buf|
    ensures CompleteTrace(buf)[k] == Complete(buf[k], k == 0)
    decreases |buf|
  {
    var n := |buf| - 1;
    var prev := CompleteTrace(buf[..n]);
    assert CompleteTrace(buf) == prev + [Complete(buf[n], n == 0)];
    if k < n {
      CompleteTraceAt(buf[..n], k);
      assert buf[..n][k] == buf[k];
    }
  }

  /** Over the bytes handled, answers that each took the whole data of their
      call are the complete answers, and conversely. */
  lemma FullPrefix(buf: seq<byte>, trace: seq<seq<int>>)
    requires AllAnswered(buf, trace)
    ensures |Concat(trace)| == |Requests(buf, |trace|)|
    ensures FullWrites(Concat(trace), Requests(buf, |trace|)) <==> trace == CompleteTrace(buf[..|trace|])
  {
    var n := |trace|;
    var asked := seq(n, k requires 0 <= k < n => Asked(buf[k], k == 0));
    assert Requests(buf, n) == Concat(asked);
    forall k | 0 <= k < n
      ensures |trace[k]| == |asked[k]|
    {
      assert Answered(buf, trace, k);
    }
    FullWritesConcat(trace, asked);
    var complete := CompleteTrace(buf[..n]);
    forall k | 0 <= k < n
      ensures complete[k] == Complete(buf[k], k == 0)
      ensures FullWrites(trace[k], asked[k]) <==> trace[k] == complete[k]
    {
      CompleteTraceAt(buf[..n], k);
      StepFull(buf[k], k == 0, trace[k]);
    }
    if forall k :: 0 <= k < n ==> trace[k] == complete[k] {
      assert trace == complete;
    }
  }

  /** write_escaped's calls all take the whole data they ask to write exactly
      when the kernel gives the complete answers; the log then gains the
      transcript, and the result is the complete total. */
  lemma FullWritesComplete(buf: seq<byte>, trace: seq<seq<int>>)
    requires Admissible(buf, trace)
    ensures |Concat(trace)| == |Requests(buf, |trace|)|
    ensures FullWrites(Concat(trace), Requests(buf, |trace|)) <==> trace == CompleteTrace(buf)
    ensures trace == CompleteTrace(buf) ==> Output(buf, trace) == Escape(buf) && Returned(trace) == Counted(buf)
  {
    AdmissibleAnswered(buf, trace);
    FullPrefix(buf, trace);
    CompleteWrites(buf);
    if trace == CompleteTrace(buf[..|trace|]) {
      CompleteReachesEnd(buf, trace);
    }
    assert buf[..|buf|] == buf;
  }

  /** Complete answers never stop the scan early. */
  lemma CompleteReachesEnd(buf: seq<byte>, trace: seq<seq<int>>)
    requires Admissible(buf, trace) && trace == CompleteTrace(buf[..|trace|])
    ensures |trace| == |buf|
  {
    var n := |trace|;
    if n != 0 {
      CompleteTraceAt(buf[..n], n - 1);
      CompleteStep(buf[n - 1], n - 1 == 0);
      assert 0 < Reply(trace[n - 1]);
    }
  }

  /** The result of the line-feed call before an ESC is not looked at: it
      can fail while every counted call succeeds, and write_escaped still
      returns the full count... */
  lemma DroppedLineFeed()
    ensures var buf, trace := [0x41, ESC], [[1], [-1, |EscMark|]];
      && Admissible(buf, trace)
      && Returned(trace) == Counted(buf) == 11
  {
    var buf: seq<byte>, trace: seq<seq<int>> := [0x41, ESC], [[1], [-1, |EscMark|]];
    assert Moved(trace, 0) && Answered(buf, trace, 0) && Answered(buf, trace, 1);
    Finished(buf, trace);
    SumSnoc([[1]], [-1, |EscMark|]);
    SumSnoc([], [1]);
    assert [] + [[1]] == [[1]] && [[1]] + [[-1, |EscMark|]] == trace;
    CountedAppend([0x41], [ESC]);
    MarkerCounted(0x41);
    MarkerCounted(ESC);
    assert buf == [0x41] + [ESC];
  }

  /** ... while the log lacks the line feed the transcript has before the ESC. */
  lemma DroppedLineFeedOutput()
    ensures var buf, trace := [0x41, ESC], [[1], [-1, |EscMark|]];
      && Output(buf, trace) == [0x41] + EscMark
      && Output(buf, trace) != Escape(buf)
  {
    var buf: seq<byte>, trace: seq<seq<int>> := [0x41, ESC], [[1], [-1, |EscMark|]];
    OutputSnoc(buf, [[1]], [-1, |EscMark|]);
    OutputSnoc(buf, [], [1]);
    assert [] + [[1]] == [[1]] && [[1]] + [[-1, |EscMark|]] == trace;
    assert Accept([0x41], 1) == [0x41] && Accept(EscMark, |EscMark|) == EscMark;
    EscapeTally(buf);
    assert buf[1..] == [ESC];
  }

  /** A short write is counted and the loop goes on: the rest of that marker
      never reaches the log. */
  lemma ShortWrite()
    ensures var buf, trace := [CR, 0x41], [[3], [1]];
      && Admissible(buf, trace)
      && Returned(trace) == 4
      && Output(buf, trace) == CrMark[..3] + [0x41]
  {
    var buf: seq<byte>, trace: seq<seq<int>> := [CR, 0x41], [[3], [1]];
    assert Moved(trace, 0) && Answered(buf, trace, 0) && Answered(buf, trace, 1);
    Finished(buf, trace);
    assert Sum(trace) == 4 by {
      SumSnoc([[3]], [1]);
      SumSnoc([], [3]);
      assert [] + [[3]] == [[3]] && [[3]] + [[1]] == trace;
    }
    OutputSnoc(buf, [[3]], [1]);
    OutputSnoc(buf, [], [3]);
    assert [] + [[3]] == [[3]] && [[3]] + [[1]] == trace;
    assert Accept([0x41], 1) == [0x41];
  }

  /** One turn of write_escaped's loop: the calls for the byte at index i. */
  method WriteByte(fd: LogFile, buf: seq<byte>, i: nat) returns (written: int, ghost step: seq<int>)
    requires i < |buf|
    modifies fd
    ensures Answers(buf[i], i == 0, step) && written == Reply(step)
    ensures fd.requests == old(fd.requests) + Asked(buf[i], i == 0)
    ensures fd.replies == old(fd.replies) + step
    ensures fd.sink == old(fd.sink) + Emitted(buf[i], i == 0, step)
  {
    var ch := buf[i];
    if ch == ESC {
      if i != 0 && buf[i] != LF {
        ghost var sink0 := fd.sink;
        var ignored := fd.Write([LF]);
        written := fd.Write(EscMark);
        step := [ignored, written];
        Associative(sink0, Accept([LF], ignored), Accept(EscMark, written));
        return;
      }
      written := fd.Write(EscMark);
    } else if ch == CR {
      written := fd.Write(CrMark);
    } else if ch == LF {
      written := fd.Write(LfMark);
    } else {
      written := fd.Write([ch]);
    }
    step := [written];
    assert Emitted(ch, i == 0, step) == Accept(Marker(ch), written);
  }

  /** write_escaped(fd, buf, |buf|); `trace` is what the kernel answered. */
  method WriteEscaped(fd: LogFile, buf: seq<byte>) returns (r: int, ghost trace: seq<seq<int>>)
    modifies fd
    ensures Admissible(buf, trace)
    ensures fd.requests == old(fd.requests) + Requests(buf, |trace|)
    ensures fd.replies == old(fd.replies) + Concat(trace)
    ensures fd.sink == old(fd.sink) + Output(buf, trace)
    ensures r == Returned(trace)
  {
    ghost var sink0, requests0, replies0 := fd.sink, fd.requests, fd.replies;
    trace := [];
    var total := 0;
    var i := 0;
    while i < |buf|
      invariant i <= |buf| && |trace| == i
      invariant Going(buf, trace)
      invariant fd.requests == requests0 + Requests(buf, i)
      invariant fd.replies == replies0 + Concat(trace)
      invariant fd.sink == sink0 + Output(buf, trace)
      invariant total == Sum(trace)
    {
      var written;
      ghost var step;
      written, step := WriteByte(fd, buf, i);
      OutputSnoc(buf, trace, step);
      ConcatSnoc(trace, step);
      SumSnoc(trace, step);
      Associative(sink0, Output(buf, trace), Emitted(buf[i], i == 0, step));
      Associative(replies0, Concat(trace), step);
      RequestsSnoc(buf, i);
      Associative(requests0, Requests(buf, i), Asked(buf[i], i == 0));
      if written <= 0 {
        Stopped(buf, trace, step);
        trace := trace + [step];
        if written == -1 {
          return -1, trace;
        }
        break;
      }
      GoingSnoc(buf, trace, step);
      trace := trace + [step];
      total := total + written;
      i := i + 1;
    }
    if i == |buf| {
      Finished(buf, trace);
    }
    r := total;
  }
}
