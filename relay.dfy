/** The relay loop of the logging child: every chunk read from the
    pseudo-terminal master is handed to write_escaped, and the child gives up
    at the first negative result. write_escaped keeps no state between calls,
    so the log gains what each call appends, one chunk after another; when
    every write(2) takes all its data, that is the chunks' transcripts. */
module Relay {
  import opened Escaping
  import opened TtyLog

  /** The transcripts of the chunks laid end to end: what the log gains when
      every write(2) takes all it is asked to. The chunks laid end to end,
      `Concat(chunks)`, are the stream the pseudo-terminal produced. */
  function Transcript(chunks: seq<seq<byte>>): seq<byte> {
    Concat(Escapes(chunks))
  }

  /** The transcript of each chunk. */
  function Escapes(chunks: seq<seq<byte>>): (pieces: seq<seq<byte>>)
    ensures |pieces| == |chunks|
  {
    seq(|chunks|, k requires 0 <= k < |chunks| => Escape(chunks[k]))
  }

  /** The chunk starts with ESC. */
  predicate StartsWithEsc(chunk: seq<byte>) {
    chunk != [] && chunk[0] == ESC
  }

  /** The number of chunks other than the first that start with ESC: at each
      of them the per-chunk transcript lacks the line feed that the
      transcript of the whole stream would put before that ESC. */
  function LateEscapes(chunks: seq<seq<byte>>): nat
    decreases |chunks|
  {
    if chunks == [] then 0
    else
      var n := |chunks| - 1;
      LateEscapes(chunks[..n]) + if 0 < n && StartsWithEsc(chunks[n]) then 1 else 0
  }

  /** The kernel's answers over the first |traces| chunks, in the order the
      calls were made: the answers for chunk k are `Concat(traces[k])`. */
  function Replies(traces: seq<seq<seq<int>>>): seq<int> {
    Concat(seq(|traces|, k requires 0 <= k < |traces| => Concat(traces[k])))
  }

  lemma RepliesSnoc(traces: seq<seq<seq<int>>>, trace: seq<seq<int>>)
    ensures Replies(traces + [trace]) == Replies(traces) + Concat(trace)
  {
    var longer := seq(|traces| + 1, k requires 0 <= k < |traces| + 1 => Concat((traces + [trace])[k]));
    var shorter := seq(|traces|, k requires 0 <= k < |traces| => Concat(traces[k]));
    assert longer[..|traces|] == shorter;
    assert longer == longer[..|traces|] + [longer[|traces|]];
    ConcatSnoc(shorter, Concat(trace));
  }

  /** The data of the calls over the first |traces| chunks, in order: for
      chunk k, the calls for its first |traces[k]| bytes. */
  function Requested(chunks: seq<seq<byte>>, traces: seq<seq<seq<int>>>): seq<seq<byte>>
    requires Fits(chunks, traces)
  {
    Concat(seq(|traces|, k requires 0 <= k < |traces| => Requests(chunks[k], |traces[k]|)))
  }

  lemma RequestedSnoc(chunks: seq<seq<byte>>, traces: seq<seq<seq<int>>>, trace: seq<seq<int>>)
    requires Fits(chunks, traces) && |traces| < |chunks| && |trace| <= |chunks[|traces|]|
    ensures Fits(chunks, traces + [trace])
    ensures Requested(chunks, traces + [trace]) == Requested(chunks, traces) + Requests(chunks[|traces|], |trace|)
  {
    FitsSnoc(chunks, traces, trace);
    var next := traces + [trace];
    var longer := seq(|next|, k requires 0 <= k < |next| => Requests(chunks[k], |next[k]|));
    var shorter := seq(|traces|, k requires 0 <= k < |traces| => Requests(chunks[k], |traces[k]|));
    assert longer[..|traces|] == shorter;
    assert longer == longer[..|traces|] + [longer[|traces|]];
    ConcatSnoc(shorter, Requests(chunks[|traces|], |trace|));
  }

  /** Each `traces[k]` has at most one entry per byte of chunk k. */
  predicate Fits(chunks: seq<seq<byte>>, traces: seq<seq<seq<int>>>) {
    && |traces| <= |chunks|
    && forall k :: 0 <= k < |traces| ==> |traces[k]| <= |chunks[k]|
  }

  /** The bytes the log gains over the first |traces| chunks, `traces[k]`
      being the kernel's answers while write_escaped handled chunk k. */
  function Logged(chunks: seq<seq<byte>>, traces: seq<seq<seq<int>>>): seq<byte>
    requires Fits(chunks, traces)
  {
    Concat(Outputs(chunks, traces))
  }

  /** What write_escaped appended for each chunk handed over. */
  function Outputs(chunks: seq<seq<byte>>, traces: seq<seq<seq<int>>>): (pieces: seq<seq<byte>>)
    requires Fits(chunks, traces)
    ensures |pieces| == |traces|
  {
    seq(|traces|, k requires 0 <= k < |traces| => Output(chunks[k], traces[k]))
  }

  /** Chunk k was handed to write_escaped with answers `traces[k]`, and,
      unless it was the last one handed over, the result was not negative. */
  predicate Passed(chunks: seq<seq<byte>>, traces: seq<seq<seq<int>>>, k: int) {
    && 0 <= k < |traces|
    && k < |chunks|
    && Admissible(chunks[k], traces[k])
    && (k + 1 < |traces| ==> 0 <= Returned(traces[k]))
  }

  /** The relay loop has handed over the first |traces| chunks. */
  predicate Relayed(chunks: seq<seq<byte>>, traces: seq<seq<seq<int>>>) {
    && Fits(chunks, traces)
    && forall k :: 0 <= k < |traces| ==> Passed(chunks, traces, k)
  }

  /** The last result write_escaped gave, or 0 before the first call. */
  function LastReturned(traces: seq<seq<seq<int>>>): int {
    if traces == [] then 0 else Returned(traces[|traces| - 1])
  }

  lemma FitsSnoc(chunks: seq<seq<byte>>, traces: seq<seq<seq<int>>>, trace: seq<seq<int>>)
    requires Fits(chunks, traces) && |traces| < |chunks| && |trace| <= |chunks[|traces|]|
    ensures Fits(chunks, traces + [trace])
  {
    var next := traces + [trace];
    forall k | 0 <= k < |next|
      ensures |next[k]| <= |chunks[k]|
    {
      if k < |traces| {
        assert next[k] == traces[k];
      }
    }
  }

  lemma LoggedSnoc(chunks: seq<seq<byte>>, traces: seq<seq<seq<int>>>, trace: seq<seq<int>>)
    requires Fits(chunks, traces) && |traces| < |chunks| && |trace| <= |chunks[|traces|]|
    ensures Fits(chunks, traces + [trace])
    ensures Logged(chunks, traces + [trace]) == Logged(chunks, traces) + Output(chunks[|traces|], trace)
  {
    FitsSnoc(chunks, traces, trace);
    var longer := Outputs(chunks, traces + [trace]);
    assert longer[..|traces|] == Outputs(chunks, traces);
    assert longer == longer[..|traces|] + [longer[|traces|]];
    ConcatSnoc(Outputs(chunks, traces), Output(chunks[|traces|], trace));
  }

  /** The loop goes on to one more chunk after a non-negative result. */
  lemma RelayedSnoc(chunks: seq<seq<byte>>, traces: seq<seq<seq<int>>>, trace: seq<seq<int>>)
    requires Relayed(chunks, traces) && |traces| < |chunks|
    requires 0 <= LastReturned(traces)
    requires Admissible(chunks[|traces|], trace)
    ensures Relayed(chunks, traces + [trace])
  {
    FitsSnoc(chunks, traces, trace);
    var next := traces + [trace];
    forall k | 0 <= k < |next|
      ensures Passed(chunks, next, k)
    {
      if k < |traces| {
        assert Passed(chunks, traces, k);
      }
    }
  }

  /** The ghost bookkeeping of one turn of the relay loop. */
  lemma RelayStep(chunks: seq<seq<byte>>, traces: seq<seq<seq<int>>>, trace: seq<seq<int>>, sink0: seq<byte>, requests0: seq<seq<byte>>, replies0: seq<int>)
    requires Relayed(chunks, traces) && |traces| < |chunks| && 0 <= LastReturned(traces)
    requires Admissible(chunks[|traces|], trace)
    ensures Relayed(chunks, traces + [trace])
    ensures sink0 + Logged(chunks, traces) + Output(chunks[|traces|], trace)
         == sink0 + Logged(chunks, traces + [trace])
    ensures LastReturned(traces + [trace]) == Returned(trace)
    ensures requests0 + Requested(chunks, traces) + Requests(chunks[|traces|], |trace|)
         == requests0 + Requested(chunks, traces + [trace])
    ensures replies0 + Replies(traces) + Concat(trace) == replies0 + Replies(traces + [trace])
  {
    RelayedSnoc(chunks, traces, trace);
    LoggedSnoc(chunks, traces, trace);
    Associative(sink0, Logged(chunks, traces), Output(chunks[|traces|], trace));
    RepliesSnoc(traces, trace);
    RequestedSnoc(chunks, traces, trace);
    Associative(requests0, Requested(chunks, traces), Requests(chunks[|traces|], |trace|));
    Associative(replies0, Replies(traces), Concat(trace));
  }

  /** The relay loop of ttylog.c, for the chunks the reads deliver: it stops
      at the first negative result from write_escaped, and otherwise when
      the chunks run out. */
  method Relay(fd: LogFile, chunks: seq<seq<byte>>) returns (failed: bool, ghost traces: seq<seq<seq<int>>>)
    modifies fd
    ensures Relayed(chunks, traces)
    ensures failed <==> LastReturned(traces) < 0
    ensures !failed ==> |traces| == |chunks|
    ensures fd.sink == old(fd.sink) + Logged(chunks, traces)
    ensures fd.requests == old(fd.requests) + Requested(chunks, traces)
    ensures fd.replies == old(fd.replies) + Replies(traces)
  {
    ghost var sink0, requests0, replies0 := fd.sink, fd.requests, fd.replies;
    traces := [];
    failed := false;
    var k := 0;
    while k < |chunks|
      invariant k <= |chunks| && |traces| == k
      invariant Relayed(chunks, traces) && 0 <= LastReturned(traces)
      invariant fd.sink == sink0 + Logged(chunks, traces)
      invariant fd.requests == requests0 + Requested(chunks, traces)
      invariant fd.replies == replies0 + Replies(traces)
    {
      var r, trace := WriteEscaped(fd, chunks[k]);
      RelayStep(chunks, traces, trace, sink0, requests0, replies0);
      traces := traces + [trace];
      if r < 0 {
        failed := true;
        return;
      }
      k := k + 1;
    }
  }

  lemma TranscriptSnoc(chunks: seq<seq<byte>>, chunk: seq<byte>)
    ensures Transcript(chunks + [chunk]) == Transcript(chunks) + Escape(chunk)
  {
    assert Escapes(chunks + [chunk]) == Escapes(chunks) + [Escape(chunk)];
    ConcatSnoc(Escapes(chunks), Escape(chunk));
  }

  /** Chunks of positive length lay end to end into a non-empty stream. */
  lemma {:induction false} ConcatNonEmpty(chunks: seq<seq<byte>>)
    requires chunks != [] && forall k :: 0 <= k < |chunks| ==> chunks[k] != []
    ensures Concat(chunks) != []
    decreases |chunks|
  {
    var n := |chunks| - 1;
    if 0 < n {
      ConcatNonEmpty(chunks[..n]);
    }
    assert |Concat(chunks)| >= |chunks[n]|;
  }

  /** One more chunk: the stream's transcript gains the chunk's transcript,
      preceded by a line feed when the chunk starts with ESC. */
  lemma StreamSnoc(chunks: seq<seq<byte>>, chunk: seq<byte>)
    requires chunks != [] && forall k :: 0 <= k < |chunks| ==> chunks[k] != []
    ensures Escape(Concat(chunks + [chunk]))
         == Escape(Concat(chunks)) + (if StartsWithEsc(chunk) then [LF] else []) + Escape(chunk)
  {
    ConcatSnoc(chunks, chunk);
    ConcatNonEmpty(chunks);
    EscapeSplit(Concat(chunks), chunk);
  }

  lemma LateEscapesSnoc(chunks: seq<seq<byte>>, chunk: seq<byte>)
    ensures LateEscapes(chunks + [chunk]) == LateEscapes(chunks) + if chunks != [] && StartsWithEsc(chunk) then 1 else 0
  {
    assert (chunks + [chunk])[..|chunks|] == chunks;
  }

  /** The per-chunk transcripts fall short of the stream's transcript by
      exactly one line feed per later chunk that starts with ESC. */
  lemma {:induction false} TranscriptLength(chunks: seq<seq<byte>>)
    requires forall k :: 0 <= k < |chunks| ==> chunks[k] != []
    ensures |Escape(Concat(chunks))| == |Transcript(chunks)| + LateEscapes(chunks)
    decreases |chunks|
  {
    if chunks != [] {
      var n := |chunks| - 1;
      var init, chunk := chunks[..n], chunks[n];
      assert chunks == init + [chunk];
      TranscriptLength(init);
      TranscriptSnoc(init, chunk);
      LateEscapesSnoc(init, chunk);
      if init == [] {
        OneChunk(chunk);
      } else {
        StreamSnoc(init, chunk);
      }
    }
  }

  /** Without a later chunk that starts with ESC, the per-chunk transcripts
      laid end to end are the stream's transcript. */
  lemma {:induction false} TranscriptOfStream(chunks: seq<seq<byte>>)
    requires forall k :: 0 <= k < |chunks| ==> chunks[k] != []
    requires LateEscapes(chunks) == 0
    ensures Transcript(chunks) == Escape(Concat(chunks))
    decreases |chunks|
  {
    if chunks != [] {
      var n := |chunks| - 1;
      var init, chunk := chunks[..n], chunks[n];
      assert chunks == init + [chunk];
      LateEscapesSnoc(init, chunk);
      TranscriptOfStream(init);
      if init == [] {
        OneChunk(chunk);
      } else {
        calc {
          Transcript(chunks);
          { TranscriptSnoc(init, chunk); }
          Transcript(init) + Escape(chunk);
          Escape(Concat(init)) + [] + Escape(chunk);
          { StreamSnoc(init, chunk); }
          Escape(Concat(chunks));
        }
      }
    }
  }

  /** A single chunk: its transcript is the stream's. */
  lemma OneChunk(chunk: seq<byte>)
    ensures Concat([chunk]) == chunk && Transcript([chunk]) == Escape(chunk)
  {
    ConcatSnoc([], chunk);
    TranscriptSnoc([], chunk);
    assert Concat<byte>([]) == [] && Transcript([]) == [];
    assert [] + [chunk] == [chunk];
  }

  /** Chunking is invisible in the log exactly when no chunk but the first
      starts with ESC. */
  lemma ChunkingInvisible(chunks: seq<seq<byte>>)
    requires forall k :: 0 <= k < |chunks| ==> chunks[k] != []
    ensures Transcript(chunks) == Escape(Concat(chunks)) <==> LateEscapes(chunks) == 0
  {
    TranscriptLength(chunks);
    if LateEscapes(chunks) == 0 {
      TranscriptOfStream(chunks);
    }
  }

  /** Reading back the per-chunk transcripts (what the log gains when every
      write is complete) gives the stream, however it was cut into chunks. */
  lemma TranscriptRoundTrip(chunks: seq<seq<byte>>)
    ensures Unescape(Transcript(chunks)) == Some(Concat(chunks))
  {
    TranscriptPrefix(chunks, []);
    assert Transcript(chunks) + [] == Transcript(chunks) && Concat(chunks) + [] == Concat(chunks);
  }

  /** The transcripts of earlier chunks read back in front of anything. */
  lemma {:induction false} TranscriptPrefix(chunks: seq<seq<byte>>, rest: seq<byte>)
    ensures Unescape(Transcript(chunks) + rest) == Prepend(Concat(chunks), Unescape(rest))
    decreases |chunks|
  {
    if chunks == [] {
      assert Transcript(chunks) + rest == rest;
      PrependNothing(Unescape(rest));
    } else {
      var n := |chunks| - 1;
      var init, chunk := chunks[..n], chunks[n];
      assert chunks == init + [chunk];
      TranscriptSnoc(init, chunk);
      ConcatSnoc(init, chunk);
      assert Transcript(chunks) + rest == Transcript(init) + (Escape(chunk) + rest);
      TranscriptPrefix(init, Escape(chunk) + rest);
      UnescapeFrom(chunk, true, rest);
      PrependPrepend(Concat(init), chunk, Unescape(rest));
    }
  }

  lemma PrependPrepend(a: seq<byte>, b: seq<byte>, rest: Option<seq<byte>>)
    ensures Prepend(a, Prepend(b, rest)) == Prepend(a + b, rest)
  {
    if rest.Some? {
      assert a + (b + rest.value) == (a + b) + rest.value;
    }
  }

  /** The kernel's answers when every write(2) takes all it is asked to. */
  function CompleteTraces(chunks: seq<seq<byte>>): (traces: seq<seq<seq<int>>>)
    ensures |traces| == |chunks|
  {
    seq(|chunks|, k requires 0 <= k < |chunks| => CompleteTrace(chunks[k]))
  }

  /** When every write(2) takes all it is asked to, the relay loop hands over
      every chunk, no result is negative, and the log gains the per-chunk
      transcripts. */
  lemma CompleteRelay(chunks: seq<seq<byte>>)
    ensures Relayed(chunks, CompleteTraces(chunks))
    ensures 0 <= LastReturned(CompleteTraces(chunks))
    ensures Logged(chunks, CompleteTraces(chunks)) == Transcript(chunks)
  {
    var traces := CompleteTraces(chunks);
    forall k | 0 <= k < |chunks|
      ensures |traces[k]| <= |chunks[k]|
      ensures Passed(chunks, traces, k) && 0 <= Returned(traces[k])
      ensures Output(chunks[k], traces[k]) == Escape(chunks[k])
    {
      CompleteWrites(chunks[k]);
    }
    assert Outputs(chunks, traces) == Escapes(chunks);
  }

  /** When every write(2) takes all its data, the log reads back as the
      stream, however it was cut into chunks. */
  lemma LogReadsBack(chunks: seq<seq<byte>>)
    ensures Unescape(Logged(chunks, CompleteTraces(chunks))) == Some(Concat(chunks))
  {
    CompleteRelay(chunks);
    TranscriptRoundTrip(chunks);
  }

  /** Every write(2) of the relay loop took all its data exactly when the
      kernel's answers were the complete ones for the chunks handed over;
      then no result was negative and the log gained their transcripts. */
  lemma FullRelay(chunks: seq<seq<byte>>, traces: seq<seq<seq<int>>>)
    requires Relayed(chunks, traces)
    ensures FullWrites(Replies(traces), Requested(chunks, traces)) <==> traces == CompleteTraces(chunks[..|traces|])
    ensures traces == CompleteTraces(chunks[..|traces|]) ==>
      0 <= LastReturned(traces) && Logged(chunks, traces) == Transcript(chunks[..|traces|])
  {
    var n := |traces|;
    var rs := seq(n, k requires 0 <= k < n => Concat(traces[k]));
    var qs := seq(n, k requires 0 <= k < n => Requests(chunks[k], |traces[k]|));
    assert Replies(traces) == Concat(rs) && Requested(chunks, traces) == Concat(qs);
    var complete := CompleteTraces(chunks[..n]);
    forall k | 0 <= k < n
      ensures |rs[k]| == |qs[k]|
      ensures FullWrites(rs[k], qs[k]) <==> traces[k] == complete[k]
    {
      assert Passed(chunks, traces, k);
      assert chunks[..n][k] == chunks[k];
      FullWritesComplete(chunks[k], traces[k]);
    }
    FullWritesConcat(rs, qs);
    if forall k :: 0 <= k < n ==> traces[k] == complete[k] {
      assert traces == complete;
    }
    if traces == complete {
      CompleteLogged(chunks, traces);
    }
  }

  /** Complete answers for the chunks handed over give no negative result,
      and the log gains their transcripts. */
  lemma CompleteLogged(chunks: seq<seq<byte>>, traces: seq<seq<seq<int>>>)
    requires Relayed(chunks, traces) && traces == CompleteTraces(chunks[..|traces|])
    ensures 0 <= LastReturned(traces) && Logged(chunks, traces) == Transcript(chunks[..|traces|])
  {
    var n := |traces|;
    forall k | 0 <= k < n
      ensures Outputs(chunks, traces)[k] == Escapes(chunks[..n])[k]
      ensures 0 <= Returned(traces[k])
    {
      assert chunks[..n][k] == chunks[k];
      assert Passed(chunks, traces, k);
      CompleteWrites(chunks[k]);
    }
    assert Outputs(chunks, traces) == Escapes(chunks[..n]);
  }

  /** What a caller of the relay loop gets from its contract: when every
      write(2) took all its data, every chunk was handed over and the log
      gained the transcripts of all of them. */
  lemma RelayFull(chunks: seq<seq<byte>>, traces: seq<seq<seq<int>>>)
    requires Relayed(chunks, traces) && (0 <= LastReturned(traces) ==> |traces| == |chunks|)
    requires FullWrites(Replies(traces), Requested(chunks, traces))
    ensures traces == CompleteTraces(chunks)
    ensures Logged(chunks, traces) == Transcript(chunks)
  {
    FullRelay(chunks, traces);
    assert chunks[..|chunks|] == chunks;
  }
}
