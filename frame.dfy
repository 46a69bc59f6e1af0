/**
 * The ACE wire format and the receive-side frame extraction of `_process_messages`.
 *
 *   0xFF 0xAA | len: u16 little-endian | payload | crc: u16 little-endian | 0xFE
 *
 * The CRC covers the payload only. Payloads are opaque bytes here (JSON text in the
 * running system). The receive side cuts the buffer at the first 0xFE; a candidate
 * is removed from the buffer before it is examined.
 */
module Frame {
  import opened Wrappers
  import opened Crc16

  const Header0: byte := 0xFF
  const Header1: byte := 0xAA
  const Terminator: byte := 0xFE
  /** Bytes a frame adds around its payload: two header bytes, two length bytes, two CRC bytes, the terminator. */
  const Overhead: nat := 7
  /** `max_incomplete_messages_before_reset` */
  const MaxIncomplete: nat := 10

  /** A little-endian 16-bit field, as `struct.unpack('<H', ...)` reads it. */
  function U16(lo: byte, hi: byte): (n: nat)
    ensures n < 0x10000
  {
    lo as int + 256 * hi as int
  }

  function LowByte(n: nat): byte
  {
    (n % 256) as byte
  }

  function HighByte(n: nat): byte
  {
    (n / 256 % 256) as byte
  }

  /** Packing a value with `struct.pack('<H', n)` and unpacking it gives the value back. */
  lemma U16RoundTrip(n: nat)
    requires n < 0x10000
    ensures U16(LowByte(n), HighByte(n)) == n
  {
  }

  /** Two 16-bit fields are equal only if both of their bytes are. */
  lemma U16Distinct(lo: byte, hi: byte, lo': byte, hi': byte)
    requires lo != lo' || hi != hi'
    ensures U16(lo, hi) != U16(lo', hi')
  {
  }

  /**
   * The packet that `_send_request` writes for `payload`. `struct.pack('<H', ...)`
   * raises for a payload longer than 0xFFFF bytes; that case is `None`.
   */
  function EncodeFrame(payload: seq<byte>): (r: Option<seq<byte>>)
    ensures r.Some? <==> |payload| <= 0xFFFF
    ensures r.Some? ==> var f := r.value;
      && |f| == |payload| + Overhead
      && f[0] == Header0 && f[1] == Header1
      && U16(f[2], f[3]) == |payload|
      && f[4..4 + |payload|] == payload
      && U16(f[4 + |payload|], f[5 + |payload|]) == Crc(payload)
      && f[|f| - 1] == Terminator
  {
    if |payload| > 0xFFFF then None
    else
      var n := |payload|;
      var c := Crc(payload);
      U16RoundTrip(n);
      U16RoundTrip(c);
      Some([Header0, Header1, LowByte(n), HighByte(n)] + payload + [LowByte(c), HighByte(c), Terminator])
  }

  /** `bytearray.find`: the index of the first occurrence of `b`, or -1. */
  function Find(s: seq<byte>, b: byte): (i: int)
    ensures -1 <= i < |s|
    ensures i == -1 <==> b !in s
    ensures 0 <= i ==> s[i] == b && b !in s[..i]
  {
    if s == [] then -1
    else if s[0] == b then 0
    else
      var j := Find(s[1..], b);
      assert s == [s[0]] + s[1..];
      if j == -1 then -1 else j + 1
  }

  /** What one loop iteration of `_process_messages` makes of a candidate (the bytes up to and including a 0xFE). */
  datatype Candidate =
    | Dropped                        // shorter than 7 bytes, or no 0xFF 0xAA header
    | Incomplete                     // shorter than the length field announces
    | BadCrc                         // the CRC field disagrees with the payload
    | Good(payload: seq<byte>)

  /** The last check: the CRC field read from the candidate against the CRC of its payload. */
  function CrcVerdict(lo: byte, hi: byte, crc: nat, payload: seq<byte>): (c: Candidate)
    ensures c == BadCrc || c == Good(payload)
    ensures c.Good? <==> U16(lo, hi) == crc
  {
    if U16(lo, hi) != crc then BadCrc else Good(payload)
  }

  function Classify(msg: seq<byte>): (c: Candidate)
    ensures c.Good? ==> |c.payload| + Overhead <= |msg|
  {
    if |msg| < Overhead || msg[0] != Header0 || msg[1] != Header1 then Dropped
    else
      var len := U16(msg[2], msg[3]);
      if |msg| < 4 + len + 3 then Incomplete
      else CrcVerdict(msg[4 + len], msg[5 + len], Crc(msg[4..4 + len]), msg[4..4 + len])
  }

  /**
   * The effect of one call of `_process_messages`: the payloads handed on for JSON
   * decoding, in order; what is left in the read buffer; and how many times the
   * "too many incomplete messages" reconnect fired. `incomplete` is the local
   * counter of consecutive incomplete candidates.
   */
  datatype Outcome = Outcome(payloads: seq<seq<byte>>, rest: seq<byte>, resets: nat)

  function Deliver(p: seq<byte>, o: Outcome): Outcome
  {
    Outcome([p] + o.payloads, o.rest, o.resets)
  }

  function Reset(o: Outcome): Outcome
  {
    Outcome(o.payloads, o.rest, o.resets + 1)
  }

  /** A candidate (the bytes up to and including a 0xFE) and the bytes behind it. */
  datatype Cut = Cut(msg: seq<byte>, rest: seq<byte>)

  /**
   * One cut of the buffer at its first 0xFE: the candidate, removed from the buffer,
   * and what remains. `None` when the loop stops: the buffer is empty or holds no 0xFE.
   */
  function Next(buf: seq<byte>): (r: Option<Cut>)
    ensures r.None? <==> Terminator !in buf
    ensures r.Some? ==> r.value.msg + r.value.rest == buf && |r.value.rest| < |buf|
  {
    if buf == [] then None
    else
      var e := Find(buf, Terminator);
      if e == -1 then None
      else
        assert buf[..e + 1] + buf[e + 1..] == buf;
        Some(Cut(buf[..e + 1], buf[e + 1..]))
  }

  /** The cut splits the buffer into the candidate and the rest (stated apart from `Next` to keep proofs small). */
  lemma NextSplits(buf: seq<byte>)
    requires Next(buf).Some?
    ensures var cut := Next(buf).value; var k := |buf| - |cut.rest|;
      cut.rest == buf[k..] && cut.msg == buf[..k]
  {
    var cut := Next(buf).value;
    assert buf == cut.msg + cut.rest;
  }

  /** A candidate that carries 0xFE only as its last byte is cut off whole, whatever follows it. */
  lemma NextOfCandidate(msg: seq<byte>, more: seq<byte>)
    requires |msg| > 0 && msg[|msg| - 1] == Terminator && Terminator !in msg[..|msg| - 1]
    ensures Next(msg + more) == Some(Cut(msg, more))
  {
    var buf := msg + more;
    assert buf[..|msg| - 1] == msg[..|msg| - 1];
    FindAt(buf, Terminator, |msg| - 1);
    assert buf[..|msg|] == msg;
    assert buf[|msg|..] == more;
  }

  /** The local incomplete counter after a candidate the loop carries on from. */
  function After(cand: Candidate, incomplete: nat): (n: nat)
    ensures n <= MaxIncomplete || n == incomplete
  {
    match cand
    case Dropped => incomplete
    case Incomplete => if incomplete + 1 > MaxIncomplete then 0 else incomplete + 1
    case BadCrc => 0
    case Good(_) => 0
  }

  /**
   * What a candidate the loop carries on from adds to the outcome of the rest of the
   * call: a good payload is handed on first, and the eleventh incomplete candidate in
   * a row fires the reconnect. Nothing is added to what is left in the buffer.
   */
  function Merge(cand: Candidate, incomplete: nat, o: Outcome): (r: Outcome)
    ensures r.rest == o.rest
  {
    match cand
    case Dropped => o
    case Incomplete => if incomplete + 1 > MaxIncomplete then Reset(o) else o
    case BadCrc => o
    case Good(p) => Deliver(p, o)
  }

  function Decode(buf: seq<byte>, incomplete: nat): Outcome
    decreases |buf|, 0
  {
    match Next(buf)
    case None => Outcome([], buf, 0)
    case Some(cut) => Examine(cut.msg, cut.rest, incomplete)
  }

  /** One iteration of the loop on candidate `msg`: a CRC mismatch ends the call, anything else carries on with `rest`. */
  function Examine(msg: seq<byte>, rest: seq<byte>, incomplete: nat): Outcome
    decreases |rest|, 1
  {
    var cand := Classify(msg);
    if cand.BadCrc? then Outcome([], rest, 0)
    else Merge(cand, incomplete, Decode(rest, After(cand, incomplete)))
  }

  /** One unfolding of `Decode`, for proofs that walk the loop. */
  lemma DecodeStep(buf: seq<byte>, inc: nat)
    requires Next(buf).Some?
    ensures var cut := Next(buf).value; var cand := Classify(cut.msg); var o := Decode(buf, inc);
      && (cand.BadCrc? ==> o == Outcome([], cut.rest, 0))
      && (!cand.BadCrc? ==> o == Merge(cand, inc, Decode(cut.rest, After(cand, inc))))
  {
    var cut := Next(buf).value;
    assert Decode(buf, inc) == Examine(cut.msg, cut.rest, inc);
  }

  /** What the whole call yields when `payloads` and `resets` are already accounted for and `buf` is still to be decoded. */
  ghost function Account(payloads: seq<seq<byte>>, resets: nat, buf: seq<byte>, inc: nat): Outcome
  {
    var o := Decode(buf, inc);
    Outcome(payloads + o.payloads, o.rest, resets + o.resets)
  }

  /** Once no terminator is left the loop stops: the account is what has been gathered, and the buffer stays. */
  lemma AccountDone(payloads: seq<seq<byte>>, resets: nat, buf: seq<byte>, inc: nat)
    requires Terminator !in buf
    ensures Account(payloads, resets, buf, inc) == Outcome(payloads, buf, resets)
  {
    assert payloads + [] == payloads;
  }

  /** One iteration of the decoding loop keeps the account: a dropped candidate changes nothing. */
  lemma AccountDropped(payloads: seq<seq<byte>>, resets: nat, buf: seq<byte>, inc: nat)
    requires Next(buf).Some? && Classify(Next(buf).value.msg).Dropped?
    ensures Account(payloads, resets, buf, inc) == Account(payloads, resets, Next(buf).value.rest, inc)
  {
    DecodeStep(buf, inc);
  }

  /** An incomplete candidate is counted. */
  lemma AccountIncomplete(payloads: seq<seq<byte>>, resets: nat, buf: seq<byte>, inc: nat)
    requires Next(buf).Some? && Classify(Next(buf).value.msg).Incomplete? && inc + 1 <= MaxIncomplete
    ensures Account(payloads, resets, buf, inc) == Account(payloads, resets, Next(buf).value.rest, inc + 1)
  {
    DecodeStep(buf, inc);
  }

  /** The eleventh incomplete candidate in a row fires the reconnect and clears the counter. */
  lemma AccountReconnect(payloads: seq<seq<byte>>, resets: nat, buf: seq<byte>, inc: nat)
    requires Next(buf).Some? && Classify(Next(buf).value.msg).Incomplete? && inc + 1 > MaxIncomplete
    ensures Account(payloads, resets, buf, inc) == Account(payloads, resets + 1, Next(buf).value.rest, 0)
  {
    DecodeStep(buf, inc);
  }

  /** A CRC mismatch ends the call with the bytes behind the candidate left in the buffer. */
  lemma AccountBadCrc(payloads: seq<seq<byte>>, resets: nat, buf: seq<byte>, inc: nat)
    requires Next(buf).Some? && Classify(Next(buf).value.msg).BadCrc?
    ensures Account(payloads, resets, buf, inc) == Outcome(payloads, Next(buf).value.rest, resets)
  {
    DecodeStep(buf, inc);
  }

  /** A good candidate's payload is handed on and the counter cleared. */
  lemma AccountGood(payloads: seq<seq<byte>>, resets: nat, buf: seq<byte>, inc: nat)
    requires Next(buf).Some? && Classify(Next(buf).value.msg).Good?
    ensures Account(payloads, resets, buf, inc) ==
      Account(payloads + [Classify(Next(buf).value.msg).payload], resets, Next(buf).value.rest, 0)
  {
    DecodeStep(buf, inc);
    var p := Classify(Next(buf).value.msg).payload;
    var o := Decode(Next(buf).value.rest, 0);
    assert payloads + ([p] + o.payloads) == payloads + [p] + o.payloads;
  }

  /** The payloads a candidate the loop carries on from hands on: a good candidate's payload, nothing otherwise. */
  function Gained(cand: Candidate): seq<seq<byte>>
  {
    if cand.Good? then [cand.payload] else []
  }

  /** The reconnects a candidate fires: one for the eleventh incomplete candidate in a row. */
  function Fired(cand: Candidate, incomplete: nat): nat
  {
    if cand.Incomplete? && incomplete + 1 > MaxIncomplete then 1 else 0
  }

  /**
   * One candidate the loop carries on from (anything but a bad CRC) moves the
   * account forward by what that candidate gains, fires and leaves in the counter.
   */
  lemma AccountStep(payloads: seq<seq<byte>>, resets: nat, buf: seq<byte>, inc: nat)
    requires Next(buf).Some? && !Classify(Next(buf).value.msg).BadCrc?
    ensures var cand := Classify(Next(buf).value.msg);
      Account(payloads, resets, buf, inc) ==
      Account(payloads + Gained(cand), resets + Fired(cand, inc), Next(buf).value.rest, After(cand, inc))
  {
    var cand := Classify(Next(buf).value.msg);
    assert payloads + [] == payloads;
    if cand.Good? {
      AccountGood(payloads, resets, buf, inc);
    } else if cand.Dropped? {
      AccountDropped(payloads, resets, buf, inc);
    } else if inc + 1 > MaxIncomplete {
      AccountReconnect(payloads, resets, buf, inc);
    } else {
      AccountIncomplete(payloads, resets, buf, inc);
    }
  }

  /** The bookkeeping `_process_messages` does for a candidate it carries on from. */
  method Tally(cand: Candidate, payloads: seq<seq<byte>>, resets: nat, incomplete: nat)
    returns (payloads': seq<seq<byte>>, resets': nat, incomplete': nat)
    requires !cand.BadCrc?
    ensures payloads' == payloads + Gained(cand)
    ensures resets' == resets + Fired(cand, incomplete)
    ensures incomplete' == After(cand, incomplete)
  {
    payloads', resets', incomplete' := payloads, resets, incomplete;
    match cand {
      case Dropped =>
        assert payloads + [] == payloads;
      case Incomplete =>
        assert payloads + [] == payloads;
        incomplete' := incomplete + 1;
        if incomplete' > MaxIncomplete {
          resets' := resets + 1;
          incomplete' := 0;
        }
      case Good(payload) =>
        incomplete' := 0;
        payloads' := payloads + [payload];
    }
  }

  /** Counts the incomplete candidates one call of `_process_messages` examines. */
  function CountIncomplete(buf: seq<byte>): nat
    decreases |buf|, 0
  {
    match Next(buf)
    case None => 0
    case Some(cut) => CountFrom(cut.msg, cut.rest)
  }

  function CountFrom(msg: seq<byte>, rest: seq<byte>): nat
    decreases |rest|, 1
  {
    match Classify(msg)
    case Dropped => CountIncomplete(rest)
    case Incomplete => 1 + CountIncomplete(rest)
    case BadCrc => 0
    case Good(_) => CountIncomplete(rest)
  }

  /** The checks `_process_messages` applies to one candidate, in the order it applies them. */
  method CheckCandidate(msg: seq<byte>) returns (c: Candidate)
    ensures c == Classify(msg)
  {
    if |msg| < Overhead || msg[0] != Header0 || msg[1] != Header1 {
      return Dropped;
    }
    var payloadLen := U16(msg[2], msg[3]);
    if |msg| < 4 + payloadLen + 3 {
      return Incomplete;
    }
    c := CheckCrc(msg);
  }

  /** The CRC comparison for a candidate that holds its whole announced payload. */
  method CheckCrc(msg: seq<byte>) returns (c: Candidate)
    requires |msg| >= Overhead && msg[0] == Header0 && msg[1] == Header1
    requires |msg| >= 4 + U16(msg[2], msg[3]) + 3
    ensures c == Classify(msg)
  {
    var len := U16(msg[2], msg[3]);
    var payload := msg[4..4 + len];
    var crc := CalcCrc(payload);
    c := CrcVerdict(msg[4 + len], msg[5 + len], crc, payload);
  }

  /** Cutting the first candidate (up to and including the first 0xFE) off a buffer. */
  method TakeCandidate(buf: seq<byte>) returns (r: Option<Cut>)
    ensures r == Next(buf)
  {
    var endIdx := Find(buf, Terminator);
    if buf == [] || endIdx == -1 {
      return None;
    }
    return Some(Cut(buf[..endIdx + 1], buf[endIdx + 1..]));
  }

  /** A payload whose encoded frame carries 0xFE only as its terminator. */
  predicate Clean(payload: seq<byte>)
  {
    |payload| <= 0xFFFF && Terminator !in EncodeFrame(payload).value[..|payload| + Overhead - 1]
  }

  lemma FindAt(s: seq<byte>, b: byte, k: nat)
    requires k < |s| && s[k] == b && b !in s[..k]
    ensures Find(s, b) == k
  {
    if k > 0 {
      assert s[0] != b by { assert s[..k][0] == s[0]; }
      assert s[1..][..k - 1] == s[..k][1..];
      FindAt(s[1..], b, k - 1);
    }
  }

  /** A buffer without a terminator is left as it is: the loop breaks at once. */
  lemma NoTerminatorKept(buf: seq<byte>, c: nat)
    requires Terminator !in buf
    ensures Decode(buf, c) == Outcome([], buf, 0)
  {
  }

  /**
   * A clean frame at the head of the buffer is delivered, the incomplete counter is
   * reset, and decoding carries on with the bytes behind it.
   */
  lemma DecodeFrameThen(p: seq<byte>, more: seq<byte>, c: nat)
    requires Clean(p)
    ensures Decode(EncodeFrame(p).value + more, c) == Deliver(p, Decode(more, 0))
  {
    var f := EncodeFrame(p).value;
    NextOfCandidate(f, more);
    assert Classify(f) == Good(p);
  }

  /** Round trip: decoding exactly one clean frame delivers its payload once and empties the buffer. */
  lemma FrameRoundTrip(p: seq<byte>)
    requires Clean(p)
    ensures Decode(EncodeFrame(p).value, 0) == Outcome([p], [], 0)
  {
    DecodeFrameThen(p, [], 0);
    assert EncodeFrame(p).value + [] == EncodeFrame(p).value;
  }

  /**
   * A frame whose length field has 0xFE as its low byte (a payload of 254 bytes,
   * 510 bytes, ...) is cut after its third byte: both pieces are dropped and
   * nothing is delivered.
   */
  lemma TerminatorInLengthLosesFrame(p: seq<byte>)
    requires |p| <= 0xFFFF && LowByte(|p|) == Terminator && HighByte(|p|) != Header0
    requires Terminator !in EncodeFrame(p).value[3..|p| + Overhead - 1]
    ensures Decode(EncodeFrame(p).value, 0) == Outcome([], [], 0)
  {
    var f := EncodeFrame(p).value;
    var head, tail := f[..3], f[3..];
    assert |f| == |p| + Overhead;
    assert head == [Header0, Header1, Terminator];
    assert head + tail == f;
    assert tail[..|tail| - 1] == f[3..|f| - 1];
    assert tail + [] == tail;
    assert tail[0] != Header0;
    NextOfCandidate(head, tail);
    NextOfCandidate(tail, []);
    DecodeStep(f, 0);
    DecodeStep(tail, 0);
    NoTerminatorKept([], 0);
  }

  /** The frames of several payloads, back to back, as the device sends them. */
  function Frames(ps: seq<seq<byte>>): seq<byte>
    requires forall i :: 0 <= i < |ps| ==> |ps[i]| <= 0xFFFF
  {
    if ps == [] then [] else EncodeFrame(ps[0]).value + Frames(ps[1..])
  }

  /** A stream of clean frames is delivered completely and in order. */
  lemma {:induction false} DecodeFrames(ps: seq<seq<byte>>, c: nat)
    requires forall i :: 0 <= i < |ps| ==> |ps[i]| <= 0xFFFF
    requires forall i :: 0 <= i < |ps| ==> Clean(ps[i])
    ensures Decode(Frames(ps), c) == Outcome(ps, [], 0)
  {
    if ps != [] {
      DecodeFrameThen(ps[0], Frames(ps[1..]), c);
      DecodeFrames(ps[1..], 0);
      assert [ps[0]] + ps[1..] == ps;
    }
  }

  /**
   * A frame whose CRC field was corrupted (with a byte other than 0xFE) is consumed,
   * delivers nothing, and stops the call: every byte behind it stays in the buffer.
   */
  lemma CorruptedCrcStops(p: seq<byte>, k: nat, x: byte, more: seq<byte>, c: nat)
    requires Clean(p)
    requires k == 4 + |p| || k == 5 + |p|
    requires x != Terminator && x != EncodeFrame(p).value[k]
    ensures Decode(EncodeFrame(p).value[k := x] + more, c) == Outcome([], more, 0)
  {
    var f := EncodeFrame(p).value;
    var g := f[k := x];
    assert forall i :: 0 <= i < |f| - 1 ==> f[..|f| - 1][i] == f[i];
    assert Terminator !in g[..|g| - 1];
    NextOfCandidate(g, more);
    CorruptedCrcIsBad(p, k, x);
  }

  lemma CorruptedCrcIsBad(p: seq<byte>, k: nat, x: byte)
    requires |p| <= 0xFFFF
    requires k == 4 + |p| || k == 5 + |p|
    requires x != EncodeFrame(p).value[k]
    ensures Classify(EncodeFrame(p).value[k := x]) == BadCrc
  {
    var f := EncodeFrame(p).value;
    var g := f[k := x];
    var n := |p|;
    assert g[4..4 + n] == f[4..4 + n] == p;
    assert g[2] == f[2] && g[3] == f[3];
    assert Classify(g) == CrcVerdict(g[4 + n], g[5 + n], Crc(p), p);
    U16Distinct(g[4 + n], g[5 + n], f[4 + n], f[5 + n]);
  }

  /** `rest` is what follows, in `buf`, a candidate starting at `j` whose CRC field disagrees with its payload. */
  predicate BadCrcBefore(buf: seq<byte>, j: nat, rest: seq<byte>)
  {
    |rest| <= |buf| && j < |buf| - |rest| && Classify(buf[j..|buf| - |rest|]) == BadCrc
  }

  lemma BadCrcShift(buf: seq<byte>, e: nat, j: nat, rest: seq<byte>)
    requires e <= |buf| && BadCrcBefore(buf[e..], j, rest)
    ensures BadCrcBefore(buf, e + j, rest)
  {
    assert buf[e..][j..|buf| - e - |rest|] == buf[e + j..|buf| - |rest|];
  }

  /** Whatever one call leaves behind is a suffix of the buffer. */
  lemma {:induction false} DecodeLeavesSuffix(buf: seq<byte>, c: nat)
    ensures var o := Decode(buf, c); |o.rest| <= |buf| && o.rest == buf[|buf| - |o.rest|..]
    decreases |buf|
  {
    if Next(buf).Some? {
      var cut := Next(buf).value;
      var cand := Classify(cut.msg);
      NextSplits(buf);
      DecodeStep(buf, c);
      if !cand.BadCrc? {
        DecodeLeavesSuffix(cut.rest, After(cand, c));
      }
    }
  }

  /** If what one call leaves behind still holds a terminator, the call was stopped by a candidate whose CRC did not match. */
  lemma {:induction false} DecodeStopsOnlyAtBadCrc(buf: seq<byte>, c: nat)
    ensures var o := Decode(buf, c); Terminator in o.rest ==> exists j :: BadCrcBefore(buf, j, o.rest)
    decreases |buf|
  {
    if Next(buf).Some? {
      var cut := Next(buf).value;
      var cand := Classify(cut.msg);
      NextSplits(buf);
      DecodeStep(buf, c);
      var e1 := |buf| - |cut.rest|;
      if cand.BadCrc? {
        assert buf[0..e1] == buf[..e1];
        assert BadCrcBefore(buf, 0, cut.rest);
      } else {
        var c' := After(cand, c);
        DecodeStopsOnlyAtBadCrc(cut.rest, c');
        DecodeLeavesSuffix(cut.rest, c');
        var o' := Decode(cut.rest, c');
        if Terminator in o'.rest {
          var j :| BadCrcBefore(cut.rest, j, o'.rest);
          BadCrcShift(buf, e1, j, o'.rest);
        }
      }
    }
  }

  /**
   * The reconnect fires only after more than `MaxIncomplete` consecutive incomplete
   * candidates: each reset accounts for eleven of them (`c` counts those seen earlier).
   */
  lemma {:induction false} ResetsNeedIncompletes(buf: seq<byte>, c: nat)
    requires c <= MaxIncomplete
    ensures Decode(buf, c).resets * 11 <= CountIncomplete(buf) + c
    decreases |buf|
  {
    if Next(buf).Some? {
      var cut := Next(buf).value;
      var cand := Classify(cut.msg);
      DecodeStep(buf, c);
      assert CountIncomplete(buf) == CountFrom(cut.msg, cut.rest);
      if !cand.BadCrc? {
        var c' := After(cand, c);
        ResetsNeedIncompletes(cut.rest, c');
        var r' := Decode(cut.rest, c').resets;
        var n' := CountIncomplete(cut.rest);
        assert Decode(buf, c).resets == r' + Fired(cand, c);
        assert CountIncomplete(buf) == n' + (if cand.Incomplete? then 1 else 0);
      }
    }
  }

  /** Concatenation of the chunks the reader receives. */
  function Flatten(chunks: seq<seq<byte>>): seq<byte>
  {
    if chunks == [] then [] else chunks[0] + Flatten(chunks[1..])
  }

  /**
   * Successive reads: each non-empty chunk is appended to the buffer and one call of
   * `_process_messages` runs (an empty read does not call it); results accumulate.
   */
  function Feed(buf: seq<byte>, chunks: seq<seq<byte>>): Outcome
    decreases |chunks|
  {
    if chunks == [] then Outcome([], buf, 0)
    else if chunks[0] == [] then Feed(buf, chunks[1..])
    else
      var o := Decode(buf + chunks[0], 0);
      var o' := Feed(o.rest, chunks[1..]);
      Outcome(o.payloads + o'.payloads, o'.rest, o.resets + o'.resets)
  }

  lemma {:induction false} FeedEmptyChunks(chunks: seq<seq<byte>>)
    requires Flatten(chunks) == []
    ensures Feed([], chunks) == Outcome([], [], 0)
  {
    if chunks != [] {
      assert chunks[0] == [];
      FeedEmptyChunks(chunks[1..]);
    }
  }

  /**
   * Reads that, starting from `pre`, complete a buffer `f` holding one terminator, at
   * its end, deliver what one call delivers on the whole of `f`.
   */
  lemma {:induction false} FeedFrameFrom(f: seq<byte>, o: Outcome, pre: seq<byte>, chunks: seq<seq<byte>>)
    requires |f| > 0 && Terminator !in f[..|f| - 1]
    requires Decode(f, 0) == o && o.rest == []
    requires pre + Flatten(chunks) == f
    requires |pre| < |f|
    ensures Feed(pre, chunks) == o
    decreases |chunks|
  {
    assert chunks != [];
    if chunks[0] == [] {
      assert Flatten(chunks) == Flatten(chunks[1..]);
      FeedFrameFrom(f, o, pre, chunks[1..]);
    } else if |pre + chunks[0]| == |f| {
      FeedLastChunk(f, o, pre, chunks);
    } else {
      FeedPartialChunk(f, pre, chunks);
      FeedFrameFrom(f, o, pre + chunks[0], chunks[1..]);
    }
  }

  /** The read that completes the buffer runs the one call that matters, and no bytes follow. */
  lemma FeedLastChunk(f: seq<byte>, o: Outcome, pre: seq<byte>, chunks: seq<seq<byte>>)
    requires Decode(f, 0) == o && o.rest == []
    requires chunks != [] && chunks[0] != []
    requires pre + Flatten(chunks) == f
    requires |pre + chunks[0]| == |f|
    ensures Feed(pre, chunks) == o
  {
    var buf := pre + chunks[0];
    assert f == buf + Flatten(chunks[1..]);
    assert buf == f;
    assert Flatten(chunks[1..]) == [];
    FeedEmptyChunks(chunks[1..]);
    assert o.payloads + [] == o.payloads;
  }

  /** A read that stops short of the terminator of frame `f` leaves everything in the buffer. */
  lemma FeedPartialChunk(f: seq<byte>, pre: seq<byte>, chunks: seq<seq<byte>>)
    requires |f| > 0 && Terminator !in f[..|f| - 1]
    requires chunks != [] && chunks[0] != []
    requires pre + Flatten(chunks) == f
    requires |pre + chunks[0]| < |f|
    ensures pre + chunks[0] + Flatten(chunks[1..]) == f
    ensures Feed(pre, chunks) == Feed(pre + chunks[0], chunks[1..])
  {
    var buf := pre + chunks[0];
    assert f == buf + Flatten(chunks[1..]);
    assert buf == f[..|buf|];
    assert f[..|f| - 1][..|buf|] == buf;
    assert Terminator !in buf;
    NoTerminatorKept(buf, 0);
  }

  /**
   * A clean frame split across any number of reads, at any points, is delivered
   * exactly once and leaves the buffer empty.
   */
  lemma ChunkedFrameDelivered(p: seq<byte>, chunks: seq<seq<byte>>)
    requires Clean(p)
    requires Flatten(chunks) == EncodeFrame(p).value
    ensures Feed([], chunks) == Outcome([p], [], 0)
  {
    var f := EncodeFrame(p).value;
    FrameRoundTrip(p);
    assert [] + Flatten(chunks) == Flatten(chunks);
    FeedFrameFrom(f, Outcome([p], [], 0), [], chunks);
  }
}
