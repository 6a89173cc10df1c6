/**
 * The length-prefixed frame codec spoken between the filesystem daemon and
 * its server: a frame is a 4-byte little-endian unsigned length followed by
 * exactly that many payload bytes. The payload (serialised JSON) is opaque here.
 */
module Frame {
  import opened Wrappers

  /** An unsigned 8-bit byte (Rust's u8). */
  type Byte = b: int | 0 <= b < 256

  /** Number of bytes in the length prefix. */
  const PrefixLen: nat := 4

  /** 2^32: every payload length a u32 prefix can carry is below it. */
  const U32Limit: nat := 0x1_0000_0000

  function Pow256(k: nat): (r: nat)
    ensures r > 0
  {
    if k == 0 then 1 else 256 * Pow256(k - 1)
  }

  /** The k little-endian base-256 digits of n, least significant first. */
  function LeBytes(n: nat, k: nat): (r: seq<Byte>)
    ensures |r| == k
  {
    if k == 0 then []
    else
      var low: Byte := n % 256;
      [low] + LeBytes(n / 256, k - 1)
  }

  /** The number whose little-endian digits are bs (u32::from_le_bytes for four bytes). */
  function FromLe(bs: seq<Byte>): (n: nat)
    ensures n < Pow256(|bs|)
  {
    if bs == [] then 0
    else
      var high := FromLe(bs[1..]);
      assert high + 1 <= Pow256(|bs| - 1);
      assert 256 * (high + 1) <= 256 * Pow256(|bs| - 1);
      bs[0] + 256 * high
  }

  /** Reading back the digits of a number that fits in k bytes gives the number. */
  lemma {:induction false} FromLeOfLeBytes(n: nat, k: nat)
    requires n < Pow256(k)
    ensures FromLe(LeBytes(n, k)) == n
  {
    if k > 0 {
      var low: Byte := n % 256;
      assert n / 256 < Pow256(k - 1);
      FromLeOfLeBytes(n / 256, k - 1);
      assert ([low] + LeBytes(n / 256, k - 1))[1..] == LeBytes(n / 256, k - 1);
    }
  }

  /** Writing out the value of a digit string in as many digits gives the same string. */
  lemma {:induction false} LeBytesOfFromLe(bs: seq<Byte>)
    ensures LeBytes(FromLe(bs), |bs|) == bs
  {
    if bs != [] {
      var n := FromLe(bs);
      var high := FromLe(bs[1..]);
      assert n == bs[0] + 256 * high;
      assert n % 256 == bs[0];
      assert n / 256 == high;
      LeBytesOfFromLe(bs[1..]);
    }
  }

  /** The length prefix of a payload of n bytes (u32::to_le_bytes). */
  function Prefix(n: nat): (p: seq<Byte>)
    requires n < U32Limit
    ensures |p| == PrefixLen && FromLe(p) == n
  {
    assert Pow256(4) == U32Limit;
    FromLeOfLeBytes(n, 4);
    LeBytes(n, 4)
  }

  /**
   * The frame for a payload, or None when its length does not fit the u32
   * prefix (the corrected encoder; see EncodeFrameAsWritten).
   */
  function EncodeFrame(payload: seq<Byte>): (r: Option<seq<Byte>>)
    ensures r.Some? <==> |payload| < U32Limit
    ensures r.Some? ==> |r.value| == PrefixLen + |payload|
    ensures r.Some? ==> FromLe(r.value[..PrefixLen]) == |payload| && r.value[PrefixLen..] == payload
  {
    if |payload| < U32Limit then
      var p := Prefix(|payload|);
      assert (p + payload)[..PrefixLen] == p;
      Some(p + payload)
    else None
  }

  /**
   * The encoder as the daemon writes it: `len() as u32` keeps only the low 32
   * bits of the length, whatever the payload's size.
   */
  function EncodeFrameAsWritten(payload: seq<Byte>): (r: seq<Byte>)
    ensures |r| == PrefixLen + |payload| && r[PrefixLen..] == payload
    ensures FromLe(r[..PrefixLen]) == |payload| % U32Limit
  {
    var p := Prefix(|payload| % U32Limit);
    assert (p + payload)[..PrefixLen] == p;
    p + payload
  }

  /** One decoded frame: its payload and the bytes after it. */
  datatype Decoded = Decoded(payload: seq<Byte>, rest: seq<Byte>)

  /**
   * Decode the frame at the head of a stream: None when fewer than four bytes
   * are there, or fewer payload bytes than the prefix declares; otherwise the
   * declared number of payload bytes and everything after them.
   */
  function DecodeFrame(s: seq<Byte>): (r: Option<Decoded>)
    ensures r.None? <==> |s| < PrefixLen || |s| < PrefixLen + FromLe(s[..PrefixLen])
    ensures r.Some? ==> |r.value.payload| == FromLe(s[..PrefixLen]) < U32Limit && |r.value.rest| < |s|
  {
    assert Pow256(4) == U32Limit;
    if |s| < PrefixLen then None
    else
      var n := FromLe(s[..PrefixLen]);
      if |s| < PrefixLen + n then None
      else Some(Decoded(s[PrefixLen..PrefixLen + n], s[PrefixLen + n..]))
  }

  /** Whatever decodes is a frame the encoder writes, followed by the bytes left over. */
  lemma DecodeFrameInverse(s: seq<Byte>)
    requires DecodeFrame(s).Some?
    ensures var d := DecodeFrame(s).value;
      EncodeFrame(d.payload).Some? && s == EncodeFrame(d.payload).value + d.rest
  {
    var n := FromLe(s[..PrefixLen]);
    var d := DecodeFrame(s).value;
    assert Pow256(4) == U32Limit;
    LeBytesOfFromLe(s[..PrefixLen]);
    assert EncodeFrame(d.payload).value == s[..PrefixLen + n];
  }

  /** Round trip: a frame followed by any bytes decodes to its payload and leaves exactly those bytes. */
  lemma DecodeEncode(payload: seq<Byte>, tail: seq<Byte>)
    requires |payload| < U32Limit
    ensures DecodeFrame(EncodeFrame(payload).value + tail) == Some(Decoded(payload, tail))
  {
    var s := EncodeFrame(payload).value + tail;
    assert s[..PrefixLen] == EncodeFrame(payload).value[..PrefixLen];
    assert s[PrefixLen..PrefixLen + |payload|] == payload;
    assert s[PrefixLen + |payload|..] == tail;
  }

  /**
   * With the daemon's encoder, a payload of exactly 2^32 bytes is announced as
   * empty: the reader takes an empty message and then treats the real payload
   * as the frames that follow.
   */
  lemma TruncatedPrefixMisframes(payload: seq<Byte>)
    requires |payload| == U32Limit
    ensures DecodeFrame(EncodeFrameAsWritten(payload)) == Some(Decoded([], payload))
  {
    var s := EncodeFrameAsWritten(payload);
    assert s[PrefixLen..PrefixLen] == [];
    assert s[PrefixLen..] == payload;
  }

  /** Below 2^32 bytes the daemon's encoder and the corrected one write the same frame. */
  lemma AsWrittenAgreesBelowLimit(payload: seq<Byte>)
    requires |payload| < U32Limit
    ensures EncodeFrame(payload) == Some(EncodeFrameAsWritten(payload))
  {
    assert |payload| % U32Limit == |payload|;
  }

  /** Every payload in ps fits a u32 prefix. */
  predicate Encodable(ps: seq<seq<Byte>>)
  {
    forall i :: 0 <= i < |ps| ==> |ps[i]| < U32Limit
  }

  /** The frames of ps, one after the other. */
  function EncodeAll(ps: seq<seq<Byte>>): (r: seq<Byte>)
    requires Encodable(ps)
  {
    if ps == [] then [] else EncodeFrame(ps[0]).value + EncodeAll(ps[1..])
  }

  /** Every complete frame at the head of a stream, in order, up to the first incomplete one. */
  function Frames(s: seq<Byte>): (fs: seq<seq<Byte>>)
    ensures Encodable(fs)
    decreases |s|
  {
    match DecodeFrame(s)
    case None => []
    case Some(d) => [d.payload] + Frames(d.rest)
  }

  /** The bytes left over once every complete frame has been taken off the head of s. */
  function Leftover(s: seq<Byte>): (l: seq<Byte>)
    decreases |s|
  {
    match DecodeFrame(s)
    case None => s
    case Some(d) => Leftover(d.rest)
  }

  /**
   * Decoding consumes whole frames only: the stream is the frames it yields,
   * re-encoded, followed by a leftover that holds no complete frame.
   */
  lemma {:induction false} FramesCover(s: seq<Byte>)
    ensures s == EncodeAll(Frames(s)) + Leftover(s)
    ensures DecodeFrame(Leftover(s)).None?
    decreases |s|
  {
    match DecodeFrame(s)
    case None =>
    case Some(d) =>
      FramesCover(d.rest);
      CoverStep(s, d, Frames(d.rest), Leftover(d.rest));
  }

  /** One step of FramesCover: a decoded frame in front of a covered rest. */
  lemma CoverStep(s: seq<Byte>, d: Decoded, fs: seq<seq<Byte>>, l: seq<Byte>)
    requires DecodeFrame(s) == Some(d) && Encodable(fs) && d.rest == EncodeAll(fs) + l
    ensures Encodable([d.payload] + fs) && s == EncodeAll([d.payload] + fs) + l
  {
    DecodeFrameInverse(s);
    EncodeAllCons(d.payload, fs);
    AppendAssoc(EncodeFrame(d.payload).value, EncodeAll(fs), l);
  }

  /** Decoding a run of encoded frames followed by any bytes yields those payloads first. */
  lemma {:induction false} FramesOfEncoded(ps: seq<seq<Byte>>, tail: seq<Byte>)
    requires Encodable(ps)
    ensures Frames(EncodeAll(ps) + tail) == ps + Frames(tail)
    ensures Leftover(EncodeAll(ps) + tail) == Leftover(tail)
  {
    if ps != [] {
      assert ps == [ps[0]] + ps[1..];
      FramesOfEncoded(ps[1..], tail);
      OfEncodedStep(ps[0], ps[1..], tail);
    } else {
      assert EncodeAll(ps) + tail == tail;
    }
  }

  /** One step of FramesOfEncoded: one more frame in front of a run already decoded. */
  lemma OfEncodedStep(p: seq<Byte>, more: seq<seq<Byte>>, tail: seq<Byte>)
    requires |p| < U32Limit && Encodable(more)
    requires Frames(EncodeAll(more) + tail) == more + Frames(tail)
    requires Leftover(EncodeAll(more) + tail) == Leftover(tail)
    ensures Encodable([p] + more)
    ensures Frames(EncodeAll([p] + more) + tail) == ([p] + more) + Frames(tail)
    ensures Leftover(EncodeAll([p] + more) + tail) == Leftover(tail)
  {
    var r := EncodeAll(more) + tail;
    EncodeAllCons(p, more);
    var s := EncodeAll([p] + more) + tail;
    AppendAssoc(EncodeFrame(p).value, EncodeAll(more), tail);
    FramesStep(p, r, s);
    AppendAssoc([p], more, Frames(tail));
  }

  /** Concatenation is associative. */
  lemma AppendAssoc<T>(a: seq<T>, b: seq<T>, c: seq<T>)
    ensures a + (b + c) == (a + b) + c
  {
  }

  /** Encoding a payload in front of a run of payloads puts its frame in front. */
  lemma EncodeAllCons(p: seq<Byte>, more: seq<seq<Byte>>)
    requires |p| < U32Limit && Encodable(more)
    ensures Encodable([p] + more)
    ensures EncodeAll([p] + more) == EncodeFrame(p).value + EncodeAll(more)
  {
    var ps := [p] + more;
    assert ps[0] == p && ps[1..] == more;
  }

  /** Taking one frame off the head of a stream. */
  lemma FramesStep(payload: seq<Byte>, rest: seq<Byte>, s: seq<Byte>)
    requires |payload| < U32Limit && s == EncodeFrame(payload).value + rest
    ensures Frames(s) == [payload] + Frames(rest)
    ensures Leftover(s) == Leftover(rest)
  {
    DecodeEncode(payload, rest);
  }
}
