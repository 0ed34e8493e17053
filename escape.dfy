/** The transcript format of ttylog's write_escaped: what one chunk of
    pseudo-terminal output becomes in the log file when every write succeeds
    in full, and a reader that recovers the chunk from it. */
module Escaping {

  /** A byte of the terminal stream (a C `char`, taken as unsigned). */
  type byte = x: int | 0 <= x < 256

  datatype Option<+T> = None | Some(value: T)

  /** The pieces laid end to end. */
  function Concat<T>(pieces: seq<seq<T>>): seq<T>
    decreases |pieces|
  {
    if pieces == [] then [] else Concat(pieces[..|pieces| - 1]) + pieces[|pieces| - 1]
  }

  lemma ConcatSnoc<T>(pieces: seq<seq<T>>, p: seq<T>)
    ensures Concat(pieces + [p]) == Concat(pieces) + p
  {
    assert (pieces + [p])[..|pieces|] == pieces;
  }

  lemma Associative<T>(a: seq<T>, b: seq<T>, c: seq<T>)
    ensures (a + b) + c == a + (b + c)
  {
  }

  const ESC: byte := 0x1B
  const CR: byte := 0x0D
  const LF: byte := 0x0A

  /** `ESC [2m`: select faint (dim) rendition. */
  const DimOn: seq<byte> := [0x1B, 0x5B, 0x32, 0x6D]
  /** `ESC [22m`: back to normal intensity. */
  const DimOff: seq<byte> := [0x1B, 0x5B, 0x32, 0x32, 0x6D]

  /** A dim caret `^` standing for an ESC byte. */
  const EscMark: seq<byte> := DimOn + [0x5E] + DimOff
  /** A dim literal `\r` standing for a carriage return. */
  const CrMark: seq<byte> := DimOn + [0x5C, 0x72] + DimOff
  /** A dim literal `\n` standing for a line feed, then a real line feed. */
  const LfMark: seq<byte> := DimOn + [0x5C, 0x6E] + DimOff + [LF]

  /** The three bytes the transcript rewrites; every other byte is copied. */
  predicate IsControl(b: byte) {
    b == ESC || b == CR || b == LF
  }

  /** The bytes written, and counted in the returned total, for the input byte `b`. */
  function Marker(b: byte): (m: seq<byte>)
    ensures |m| == if b == ESC then 10 else if b == CR then 11 else if b == LF then 12 else 1
    ensures !IsControl(b) ==> m == [b]
    ensures IsControl(b) ==> CR !in m && m[0] == ESC
    ensures b == LF ==> m[11] == LF && LF !in m[..11]
    ensures b != LF ==> LF !in m
  {
    if b == ESC then EscMark
    else if b == CR then CrMark
    else if b == LF then LfMark
    else [b]
  }

  /** The bytes written for the input byte `b`, where `first` says whether it
      sits at index 0 of the chunk: an ESC anywhere else is preceded by a real
      line feed that is not counted. */
  function Unit(b: byte, first: bool): seq<byte> {
    (if b == ESC && !first then [LF] else []) + Marker(b)
  }

  function EscapeFrom(s: seq<byte>, first: bool): seq<byte>
    decreases |s|
  {
    if s == [] then [] else Unit(s[0], first) + EscapeFrom(s[1..], false)
  }

  /** The transcript of one chunk when every write is complete. */
  function Escape(buf: seq<byte>): seq<byte> {
    EscapeFrom(buf, true)
  }

  /** The number of occurrences of `x` in `s`. */
  function Count(s: seq<byte>, x: byte): nat
    decreases |s|
  {
    if s == [] then 0 else (if s[0] == x then 1 else 0) + Count(s[1..], x)
  }

  /** The number of line feeds inserted before ESC bytes: one per ESC at an index above 0. */
  function Breaks(buf: seq<byte>): nat {
    if buf == [] then 0 else Count(buf[1..], ESC)
  }

  /** The total write_escaped returns when every write is complete: one byte
      per plain byte, 10 per ESC, 11 per CR, 12 per LF. */
  function Counted(buf: seq<byte>): nat {
    |buf| + 9 * Count(buf, ESC) + 10 * Count(buf, CR) + 11 * Count(buf, LF)
  }

  /** How the bytes of a chunk split at any point are transcribed: each side on
      its own, the right-hand side as if it did not start the chunk. */
  lemma {:induction false} EscapeFromAppend(a: seq<byte>, b: seq<byte>, first: bool)
    ensures EscapeFrom(a + b, first) == EscapeFrom(a, first) + EscapeFrom(b, first && a == [])
    decreases |a|
  {
    if a == [] {
      assert a + b == b;
    } else {
      assert (a + b)[0] == a[0];
      assert (a + b)[1..] == a[1..] + b;
      EscapeFromAppend(a[1..], b, false);
    }
  }

  /** Each byte is transcribed by its own rule, whatever surrounds it. */
  lemma EscapeAt(a: seq<byte>, b: byte, c: seq<byte>)
    ensures Escape(a + [b] + c) == Escape(a) + Unit(b, a == []) + EscapeFrom(c, false)
  {
    var unit := Unit(b, a == []);
    assert EscapeFrom([b], a == []) == unit by {
      assert EscapeFrom([b], a == []) == unit + EscapeFrom([], false);
    }
    calc {
      Escape(a + [b] + c);
      { EscapeFromAppend(a + [b], c, true); }
      EscapeFrom(a + [b], true) + EscapeFrom(c, false);
      { EscapeFromAppend(a, [b], true); }
      Escape(a) + unit + EscapeFrom(c, false);
    }
  }

  /** Transcribing a chunk one byte further adds that byte's unit. */
  lemma EscapeSnoc(buf: seq<byte>, b: byte)
    ensures Escape(buf + [b]) == Escape(buf) + Unit(b, buf == [])
  {
    EscapeAt(buf, b, []);
    assert buf + [b] + [] == buf + [b];
  }

  /** A byte after the start is transcribed as at the start, except that an
      ESC gains a line feed before it. */
  lemma EscapeFromLater(s: seq<byte>)
    ensures EscapeFrom(s, false) == (if s != [] && s[0] == ESC then [LF] else []) + Escape(s)
  {
  }

  /** Splitting a chunk in two changes its transcript only by the line feed an
      ESC at the start of the second part would otherwise get. */
  lemma EscapeSplit(a: seq<byte>, b: seq<byte>)
    requires a != []
    ensures Escape(a + b) == Escape(a) + (if b != [] && b[0] == ESC then [LF] else []) + Escape(b)
  {
    EscapeFromAppend(a, b, true);
    EscapeFromLater(b);
  }

  lemma {:induction false} EscapeFromPlain(s: seq<byte>, first: bool)
    requires forall i :: 0 <= i < |s| ==> !IsControl(s[i])
    ensures EscapeFrom(s, first) == s
    decreases |s|
  {
    if s != [] {
      EscapeFromPlain(s[1..], false);
    }
  }

  /** Text without ESC, CR or LF is copied to the transcript unchanged. */
  lemma EscapePlain(buf: seq<byte>)
    requires forall i :: 0 <= i < |buf| ==> !IsControl(buf[i])
    ensures Escape(buf) == buf
  {
    EscapeFromPlain(buf, true);
  }

  lemma {:induction false} CountAppend(a: seq<byte>, b: seq<byte>, x: byte)
    ensures Count(a + b, x) == Count(a, x) + Count(b, x)
    decreases |a|
  {
    if a == [] {
      assert a + b == b;
    } else {
      assert (a + b)[1..] == a[1..] + b;
      CountAppend(a[1..], b, x);
    }
  }

  lemma {:induction false} CountAbsent(s: seq<byte>, x: byte)
    requires x !in s
    ensures Count(s, x) == 0
    decreases |s|
  {
    if s != [] {
      CountAbsent(s[1..], x);
    }
  }

  /** The line feeds of one byte's unit: the real one ending the LF marker,
      and the one inserted before an ESC that does not start the chunk. */
  lemma UnitLineFeeds(b: byte)
    ensures Count(Unit(b, false), LF) == Count([b], LF) + Count([b], ESC)
  {
    var body := DimOn + [0x5C, 0x6E] + DimOff;
    assert LfMark == body + [LF];
    CountAbsent(DimOn + [0x5E] + DimOff, LF);
    CountAbsent(DimOn + [0x5C, 0x72] + DimOff, LF);
    CountAbsent(body, LF);
    CountAppend(body, [LF], LF);
    CountAppend(if b == ESC then [LF] else [], Marker(b), LF);
  }

  lemma {:induction false} EscapeFromLength(s: seq<byte>)
    ensures |EscapeFrom(s, false)| == Counted(s) + Count(s, ESC)
    decreases |s|
  {
    if s != [] {
      EscapeFromLength(s[1..]);
    }
  }

  /** No unit holds a raw carriage return: a CR is written as `\r`. */
  lemma UnitNoCarriageReturn(b: byte, first: bool)
    ensures CR !in Unit(b, first)
  {
    var unit := Unit(b, first);
    forall i | 0 <= i < |unit|
      ensures unit[i] != CR
    {
    }
  }

  lemma {:induction false} EscapeFromNoCarriageReturn(s: seq<byte>)
    ensures CR !in EscapeFrom(s, false)
    decreases |s|
  {
    if s != [] {
      EscapeFromNoCarriageReturn(s[1..]);
      UnitNoCarriageReturn(s[0], false);
      assert EscapeFrom(s, false) == Unit(s[0], false) + EscapeFrom(s[1..], false);
    }
  }

  lemma {:induction false} EscapeFromLineFeeds(s: seq<byte>)
    ensures Count(EscapeFrom(s, false), LF) == Count(s, LF) + Count(s, ESC)
    decreases |s|
  {
    if s != [] {
      EscapeFromLineFeeds(s[1..]);
      UnitLineFeeds(s[0]);
      CountAppend(Unit(s[0], false), EscapeFrom(s[1..], false), LF);
    }
  }

  /** The transcript's length is the counted total plus the inserted line
      feeds; it holds no raw carriage return; and its line feeds are the
      chunk's own plus the inserted ones. */
  lemma EscapeTally(buf: seq<byte>)
    ensures |Escape(buf)| == Counted(buf) + Breaks(buf)
    ensures CR !in Escape(buf)
    ensures Count(Escape(buf), LF) == Count(buf, LF) + Breaks(buf)
  {
    EscapeFromLength(buf);
    EscapeFromNoCarriageReturn(buf);
    EscapeFromLineFeeds(buf);
    EscapeFromLater(buf);
    if buf != [] && buf[0] == ESC {
      CountAppend([LF], Escape(buf), LF);
    }
  }

  /** The counted total of a split chunk is the sum of its parts'. */
  lemma CountedAppend(a: seq<byte>, b: seq<byte>)
    ensures Counted(a + b) == Counted(a) + Counted(b)
  {
    CountAppend(a, b, ESC);
    CountAppend(a, b, CR);
    CountAppend(a, b, LF);
  }

  /** A lone byte counts for the length of its marker. */
  lemma MarkerCounted(b: byte)
    ensures |Marker(b)| == Counted([b])
  {
    assert [b][1..] == [];
    assert Count([b], ESC) == if b == ESC then 1 else 0;
    assert Count([b], CR) == if b == CR then 1 else 0;
    assert Count([b], LF) == if b == LF then 1 else 0;
  }

  lemma {:induction false} ControlsAtMost(s: seq<byte>)
    ensures Count(s, ESC) + Count(s, CR) + Count(s, LF) <= |s|
    decreases |s|
  {
    if s != [] {
      ControlsAtMost(s[1..]);
    }
  }

  /** Every byte counts for at least 1 and at most 12 (a line feed). */
  lemma CountedBounds(buf: seq<byte>)
    ensures |buf| <= Counted(buf) <= 12 * |buf|
  {
    ControlsAtMost(buf);
  }

  /** A proper prefix of a chunk counts for strictly less than the chunk. */
  lemma CountedPrefix(buf: seq<byte>, n: nat)
    requires n <= |buf|
    ensures Counted(buf[..n]) <= Counted(buf)
    ensures n < |buf| ==> Counted(buf[..n]) < Counted(buf)
  {
    assert buf == buf[..n] + buf[n..];
    CountedAppend(buf[..n], buf[n..]);
    CountedBounds(buf[n..]);
  }

  /** One more byte adds a line feed exactly when it is an ESC that does not
      start the chunk. */
  lemma BreaksSnoc(buf: seq<byte>, b: byte)
    ensures Breaks(buf + [b]) == Breaks(buf) + if buf != [] && b == ESC then 1 else 0
  {
    if buf == [] {
      assert (buf + [b])[1..] == [];
    } else {
      assert (buf + [b])[1..] == buf[1..] + [b];
      CountAppend(buf[1..], [b], ESC);
      assert [b][1..] == [];
    }
  }

  /** A prefix of a chunk gets no more inserted line feeds than the chunk. */
  lemma BreaksPrefix(buf: seq<byte>, n: nat)
    requires n <= |buf|
    ensures Breaks(buf[..n]) <= Breaks(buf)
  {
    if 0 < n {
      assert buf[1..] == buf[..n][1..] + buf[n..];
      CountAppend(buf[..n][1..], buf[n..], ESC);
    }
  }

  /** Prepends a byte to a decoded chunk, propagating failure. */
  function Cons(b: byte, rest: Option<seq<byte>>): Option<seq<byte>> {
    match rest
    case None => None
    case Some(s) => Some([b] + s)
  }

  /** Reads a transcript back into the chunk it came from: a raw line feed
      is only ever the one inserted before an ESC marker, and every ESC
      starts one of the three markers. */
  function Unescape(t: seq<byte>): Option<seq<byte>>
    decreases |t|
  {
    if t == [] then Some([])
    else if t[0] == LF then
      (if 1 < |t| && t[1] == ESC then Unescape(t[1..]) else None)
    else if t[0] != ESC then Cons(t[0], Unescape(t[1..]))
    else if EscMark <= t then Cons(ESC, Unescape(t[|EscMark|..]))
    else if CrMark <= t then Cons(CR, Unescape(t[|CrMark|..]))
    else if LfMark <= t then Cons(LF, Unescape(t[|LfMark|..]))
    else None
  }

  lemma UnescapeEscMark(rest: seq<byte>)
    ensures Unescape(EscMark + rest) == Cons(ESC, Unescape(rest))
  {
    var t := EscMark + rest;
    assert t[0] == ESC && EscMark <= t && t[|EscMark|..] == rest;
  }

  lemma UnescapeCrMark(rest: seq<byte>)
    ensures Unescape(CrMark + rest) == Cons(CR, Unescape(rest))
  {
    var t := CrMark + rest;
    assert t[0] == ESC && t[4] == 0x5C && EscMark[4] == 0x5E;
    assert CrMark <= t && t[|CrMark|..] == rest;
  }

  lemma UnescapeLfMark(rest: seq<byte>)
    ensures Unescape(LfMark + rest) == Cons(LF, Unescape(rest))
  {
    var t := LfMark + rest;
    assert t[0] == ESC && t[4] == 0x5C && t[5] == 0x6E && EscMark[4] == 0x5E && CrMark[5] == 0x72;
    assert LfMark <= t && t[|LfMark|..] == rest;
  }

  /** Reading back one byte's unit, whatever follows it, gives that byte. */
  lemma UnescapeUnit(b: byte, first: bool, rest: seq<byte>)
    ensures Unescape(Unit(b, first) + rest) == Cons(b, Unescape(rest))
  {
    if b == ESC {
      UnescapeEscMark(rest);
      if first {
        assert Unit(b, first) == EscMark;
      } else {
        assert Unit(b, first) + rest == [LF] + (EscMark + rest);
      }
    } else if b == CR {
      assert Unit(b, first) == CrMark;
      UnescapeCrMark(rest);
    } else if b == LF {
      assert Unit(b, first) == LfMark;
      UnescapeLfMark(rest);
    } else {
      assert ([b] + rest)[1..] == rest;
    }
  }

  /** Prepends a decoded prefix to a decoded rest, propagating failure. */
  function Prepend(s: seq<byte>, rest: Option<seq<byte>>): Option<seq<byte>> {
    match rest
    case None => None
    case Some(t) => Some(s + t)
  }

  lemma PrependNothing(rest: Option<seq<byte>>)
    ensures Prepend([], rest) == rest
  {
    if rest.Some? {
      assert [] + rest.value == rest.value;
    }
  }

  lemma PrependCons(b: byte, s: seq<byte>, rest: Option<seq<byte>>)
    ensures Cons(b, Prepend(s, rest)) == Prepend([b] + s, rest)
  {
    if rest.Some? {
      assert [b] + (s + rest.value) == ([b] + s) + rest.value;
    }
  }

  /** Reading back the transcript of `s`, whatever follows it, gives `s`. */
  lemma {:induction false} UnescapeFrom(s: seq<byte>, first: bool, rest: seq<byte>)
    ensures Unescape(EscapeFrom(s, first) + rest) == Prepend(s, Unescape(rest))
    decreases |s|
  {
    if s == [] {
      assert EscapeFrom(s, first) + rest == rest;
      PrependNothing(Unescape(rest));
    } else {
      var tail := EscapeFrom(s[1..], false) + rest;
      assert EscapeFrom(s, first) + rest == Unit(s[0], first) + tail;
      UnescapeUnit(s[0], first, tail);
      UnescapeFrom(s[1..], false, rest);
      PrependCons(s[0], s[1..], Unescape(rest));
      assert [s[0]] + s[1..] == s;
    }
  }

  /** The transcript loses nothing: reading it back gives the chunk. */
  lemma EscapeRoundTrip(buf: seq<byte>)
    ensures Unescape(Escape(buf)) == Some(buf)
  {
    UnescapeFrom(buf, true, []);
    assert Escape(buf) + [] == Escape(buf) && buf + [] == buf;
  }

  /** Two chunks with the same transcript are the same chunk. */
  lemma EscapeInjective(a: seq<byte>, b: seq<byte>)
    requires Escape(a) == Escape(b)
    ensures a == b
  {
    EscapeRoundTrip(a);
    EscapeRoundTrip(b);
  }

  /** An ESC consumes only itself: in `A ESC [2J B` the `[2J` that follows
      is copied as plain text after the caret, and the ESC, not being at
      index 0, gets a line feed before it. */
  lemma EscapeClearScreen()
    ensures Escape([0x41, ESC, 0x5B, 0x32, 0x4A, 0x42])
         == [0x41, LF] + EscMark + [0x5B, 0x32, 0x4A, 0x42]
  {
    var tail: seq<byte> := [0x5B, 0x32, 0x4A, 0x42];
    calc {
      Escape([0x41, ESC, 0x5B, 0x32, 0x4A, 0x42]);
      { assert [0x41, ESC, 0x5B, 0x32, 0x4A, 0x42] == [0x41] + [ESC] + tail; }
      Escape([0x41] + [ESC] + tail);
      { EscapeAt([0x41], ESC, tail); }
      Escape([0x41]) + Unit(ESC, false) + EscapeFrom(tail, false);
      { EscapePlain([0x41]); EscapeFromPlain(tail, false); }
      [0x41] + ([LF] + EscMark) + tail;
      [0x41, LF] + EscMark + tail;
    }
  }
}
