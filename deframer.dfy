/**
 * The receive-side deframing of read_data as value-level functions: find
 * the first `RCV` marker, cut out the 20-byte record behind it, and keep
 * going while a complete record follows the first marker.
 */
module Deframer {
  import opened Wrappers
  import opened Bytes
  import opened FrameCodec

  /** Marker plus record: the bytes one complete receive frame occupies. */
  const FRAME_LEN: nat := 23

  predicate MarkerAt(buf: seq<byte>, j: int)
  {
    0 <= j && j + 3 <= |buf| && buf[j] == RX_MARKER[0] && buf[j + 1] == RX_MARKER[1] && buf[j + 2] == RX_MARKER[2]
  }

  /** The first marker position at or after k, if any. */
  function FindMarkerFrom(buf: seq<byte>, k: nat): (r: Option<nat>)
    ensures r.Some? ==> k <= r.value && MarkerAt(buf, r.value)
    ensures r.Some? ==> forall j :: k <= j < r.value ==> !MarkerAt(buf, j)
    ensures r.None? <==> forall j :: k <= j ==> !MarkerAt(buf, j)
    decreases |buf| - k
  {
    if |buf| < k + 3 then None
    else if MarkerAt(buf, k) then Some(k)
    else FindMarkerFrom(buf, k + 1)
  }

  /** `buf.index(b'RCV')` when `b'RCV' in buf`: the first marker position. */
  function FindMarker(buf: seq<byte>): (r: Option<nat>)
    ensures r.Some? ==> MarkerAt(buf, r.value)
    ensures r.Some? ==> forall j :: 0 <= j < r.value ==> !MarkerAt(buf, j)
    ensures r.None? <==> forall j :: !MarkerAt(buf, j)
  {
    FindMarkerFrom(buf, 0)
  }

  /** The deframing loop's exit test: no marker, or too few bytes from the first one. */
  predicate Stopped(buf: seq<byte>)
  {
    match FindMarker(buf)
    case None => true
    case Some(i) => |buf| < i + FRAME_LEN
  }

  /** The records the loop hands on, in order, and the buffer it leaves. */
  datatype Deframed = Deframed(records: seq<RxRecord>, rest: seq<byte>)

  /** The whole deframing loop of read_data on one buffer. */
  function Deframe(buf: seq<byte>): (d: Deframed)
    decreases |buf|
  {
    match FindMarker(buf)
    case None => Deframed([], buf)
    case Some(i) =>
      if |buf| >= i + FRAME_LEN then
        var d := Deframe(buf[i + FRAME_LEN..]);
        Deframed([buf[i + 3..i + FRAME_LEN]] + d.records, d.rest)
      else
        Deframed([], buf)
  }

  /**
   * One pass of the loop: with a complete frame at the first marker i, the
   * record handed on is buf[i+3..i+23], the loop continues on buf[i+23..]
   * (the noise before the marker is gone) and the buffer strictly shrinks.
   */
  lemma DeframeStep(buf: seq<byte>)
    requires !Stopped(buf)
    ensures var i := FindMarker(buf).value;
      && i + FRAME_LEN <= |buf|
      && Deframe(buf).records == [buf[i + 3..i + FRAME_LEN]] + Deframe(buf[i + FRAME_LEN..]).records
      && Deframe(buf).rest == Deframe(buf[i + FRAME_LEN..]).rest
      && |buf[i + FRAME_LEN..]| < |buf|
  {
  }

  /** When the exit test holds the loop does nothing: no record, buffer unchanged. */
  lemma DeframeStopped(buf: seq<byte>)
    requires Stopped(buf)
    ensures Deframe(buf) == Deframed([], buf)
  {
  }

  /**
   * Every record handed on used up a whole frame of the buffer, and what is
   * left is the rest of it: records and leftover never take more bytes than
   * the buffer held.
   */
  lemma {:induction false} DeframeConsumes(buf: seq<byte>)
    ensures |Deframe(buf).records| * FRAME_LEN + |Deframe(buf).rest| <= |buf|
    decreases |buf|
  {
    if Stopped(buf) {
      DeframeStopped(buf);
    } else {
      var i := FindMarker(buf).value;
      DeframeStep(buf);
      DeframeConsumes(buf[i + FRAME_LEN..]);
    }
  }

  /** rest is a final segment of buf. */
  predicate IsSuffix(rest: seq<byte>, buf: seq<byte>)
  {
    |rest| <= |buf| && rest == buf[|buf| - |rest|..]
  }

  /** A final segment of buf[j..] is a final segment of buf. */
  lemma SuffixOfDrop(rest: seq<byte>, buf: seq<byte>, j: nat)
    requires j <= |buf| && IsSuffix(rest, buf[j..])
    ensures IsSuffix(rest, buf)
  {
    assert buf[j..][|buf| - j - |rest|..] == buf[|buf| - |rest|..];
  }

  /** What the loop leaves is a suffix of its input: it only ever drops bytes from the front. */
  lemma {:induction false} DeframeRestIsSuffix(buf: seq<byte>)
    ensures IsSuffix(Deframe(buf).rest, buf)
    decreases |buf|
  {
    if Stopped(buf) {
      DeframeStopped(buf);
      assert buf[0..] == buf;
    } else {
      var i := FindMarker(buf).value;
      DeframeStep(buf);
      DeframeRestIsSuffix(buf[i + FRAME_LEN..]);
      SuffixOfDrop(Deframe(buf).rest, buf, i + FRAME_LEN);
    }
  }

  /** When the loop ends its exit test holds: no marker is left, or the frame at the first one is incomplete. */
  lemma {:induction false} DeframeRestStopped(buf: seq<byte>)
    ensures Stopped(Deframe(buf).rest)
    decreases |buf|
  {
    if Stopped(buf) {
      DeframeStopped(buf);
    } else {
      DeframeStep(buf);
      DeframeRestStopped(buf[FindMarker(buf).value + FRAME_LEN..]);
    }
  }

  /** The first marker of a prefix is still the first marker once more bytes arrive. */
  lemma FindMarkerExtend(a: seq<byte>, b: seq<byte>)
    requires FindMarker(a).Some?
    ensures FindMarker(a + b) == FindMarker(a)
  {
    var i := FindMarker(a).value;
    assert MarkerAt(a + b, i);
    forall j | 0 <= j < i ensures !MarkerAt(a + b, j) {
      assert MarkerAt(a + b, j) == MarkerAt(a, j);
    }
  }

  /** Deframing a + b when a holds a complete frame at its first marker i does that step on a alone. */
  lemma DeframeExtendStep(a: seq<byte>, b: seq<byte>, i: nat)
    requires FindMarker(a) == Some(i) && i + FRAME_LEN <= |a|
    ensures Deframe(a + b).records == [a[i + 3..i + FRAME_LEN]] + Deframe(a[i + FRAME_LEN..] + b).records
    ensures Deframe(a + b).rest == Deframe(a[i + FRAME_LEN..] + b).rest
  {
    FindMarkerExtend(a, b);
    var ab := a + b;
    assert ab[i + FRAME_LEN..] == a[i + FRAME_LEN..] + b;
    assert ab[i + 3..i + FRAME_LEN] == a[i + 3..i + FRAME_LEN];
    DeframeStep(ab);
  }

  /**
   * The inductive step of DeframeChunked on plain values: whole and joined
   * are a and a + b deframed, tail and tailJoined their remainders after the
   * first frame, later what deframing the tail's leftover plus b gives.
   */
  lemma ChunkStep(whole: Deframed, joined: Deframed, tail: Deframed, tailJoined: Deframed, later: Deframed, head: seq<RxRecord>)
    requires whole.records == head + tail.records && whole.rest == tail.rest
    requires joined.records == head + tailJoined.records && joined.rest == tailJoined.rest
    requires tail.records + later.records == tailJoined.records && later.rest == tailJoined.rest
    ensures whole.records + later.records == joined.records && later.rest == joined.rest
  {
  }

  /**
   * The loop is insensitive to how the stream arrives in chunks: deframing a,
   * then deframing what it left with b appended, hands on the same records
   * and leaves the same buffer as deframing a + b at once.
   */
  lemma {:induction false} DeframeChunked(a: seq<byte>, b: seq<byte>)
    ensures Deframe(a).records + Deframe(Deframe(a).rest + b).records == Deframe(a + b).records
    ensures Deframe(Deframe(a).rest + b).rest == Deframe(a + b).rest
    decreases |a|
  {
    if Stopped(a) {
      DeframeStopped(a);
    } else {
      var i := FindMarker(a).value;
      var tail := a[i + FRAME_LEN..];
      DeframeStep(a);
      DeframeExtendStep(a, b, i);
      DeframeChunked(tail, b);
      ChunkStep(Deframe(a), Deframe(a + b), Deframe(tail), Deframe(tail + b), Deframe(Deframe(tail).rest + b), [a[i + 3..i + FRAME_LEN]]);
    }
  }
}
