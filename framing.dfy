/**
  The wire format of SocketHelper and the specification of its receive loop.

  A message goes on the wire as the ASCII encoding of its text followed by the
  terminator "<END>". The receiver reads chunks of at most BUFFER bytes, decodes
  each chunk and appends it to the text received so far; it stops as soon as that
  text ENDS WITH the terminator and keeps what precedes the FIRST terminator.
 */
module Framing {
  import opened Wrappers

  newtype byte = b: int | 0 <= b < 256

  /** Size of the receive buffer: one read delivers at most this many bytes. */
  const BUFFER: nat := 32
  /** The terminator appended to every message. */
  const END_FLAG: string := "<END>"
  /** The byte ('?') that ASCII encoding substitutes for a character above 127. */
  const REPLACEMENT: byte := 63

  // ---------------------------------------------------------------------------
  // ASCII encoding (Encoding.ASCII)
  // ---------------------------------------------------------------------------

  predicate IsAsciiChar(c: char) { c as int < 128 }

  predicate IsAscii(s: string) { forall i :: 0 <= i < |s| ==> IsAsciiChar(s[i]) }

  function EncodeChar(c: char): (r: byte) {
    if IsAsciiChar(c) then c as int as byte else REPLACEMENT
  }

  function DecodeByte(b: byte): (r: char) {
    if b < 128 then b as int as char else '?'
  }

  /** Encoding.ASCII.GetBytes: one byte per character, '?' for anything above 127. */
  function Encode(s: string): (r: seq<byte>)
    ensures |r| == |s|
    ensures forall i :: 0 <= i < |s| ==> r[i] < 128
    ensures forall i :: 0 <= i < |s| && IsAsciiChar(s[i]) ==> r[i] as int == s[i] as int
    ensures forall i :: 0 <= i < |s| && !IsAsciiChar(s[i]) ==> r[i] == REPLACEMENT
  {
    if s == [] then [] else [EncodeChar(s[0])] + Encode(s[1..])
  }

  /** Encoding.ASCII.GetString: one character per byte, '?' for any byte above 127. */
  function Decode(bs: seq<byte>): (r: string)
    ensures |r| == |bs| && IsAscii(r)
    ensures forall i :: 0 <= i < |bs| && bs[i] < 128 ==> r[i] as int == bs[i] as int
    ensures forall i :: 0 <= i < |bs| && bs[i] >= 128 ==> r[i] == '?'
  {
    if bs == [] then [] else [DecodeByte(bs[0])] + Decode(bs[1..])
  }

  /** The text a receiver gets back for `s`: every character above 127 reads as '?'. */
  function Sanitize(s: string): (r: string)
    ensures |r| == |s| && IsAscii(r)
    ensures forall i :: 0 <= i < |s| && IsAsciiChar(s[i]) ==> r[i] == s[i]
    ensures forall i :: 0 <= i < |s| && !IsAsciiChar(s[i]) ==> r[i] == '?'
    ensures IsAscii(s) ==> r == s
  {
    Decode(Encode(s))
  }

  /** Decoding the bytes of ASCII text gives the text back. */
  lemma DecodeEncode(s: string)
    requires IsAscii(s)
    ensures Decode(Encode(s)) == s
  {
  }

  /** Encoding decoded 7-bit bytes gives the bytes back. */
  lemma EncodeDecode(bs: seq<byte>)
    requires forall i :: 0 <= i < |bs| ==> bs[i] < 128
    ensures Encode(Decode(bs)) == bs
  {
    var r := Encode(Decode(bs));
    forall i | 0 <= i < |bs| ensures r[i] == bs[i] {
      assert r[i] as int == bs[i] as int;
    }
  }

  lemma EncodeAppend(a: string, b: string)
    ensures Encode(a + b) == Encode(a) + Encode(b)
  {
    var l, r := Encode(a + b), Encode(a) + Encode(b);
    forall i | 0 <= i < |a + b| ensures l[i] == r[i] {
      if i < |a| { assert (a + b)[i] == a[i]; } else { assert (a + b)[i] == b[i - |a|]; }
    }
  }

  lemma DecodeAppend(a: seq<byte>, b: seq<byte>)
    ensures Decode(a + b) == Decode(a) + Decode(b)
  {
    var l, r := Decode(a + b), Decode(a) + Decode(b);
    forall i | 0 <= i < |a + b| ensures l[i] == r[i] {
      if i < |a| { assert (a + b)[i] == a[i]; } else { assert (a + b)[i] == b[i - |a|]; }
    }
  }

  // ---------------------------------------------------------------------------
  // Text search (EndsWith, IndexOf, Remove)
  // ---------------------------------------------------------------------------

  /** `t` occurs in `s` starting at position `p`. */
  predicate Occurs(s: string, t: string, p: int) {
    0 <= p && p + |t| <= |s| && s[p..p + |t|] == t
  }

  predicate Contains(s: string, t: string) {
    exists p | 0 <= p <= |s| - |t| :: Occurs(s, t, p)
  }

  /** String.EndsWith with ordinal comparison: `t` occurs at the very end of `s`. */
  predicate EndsWith(s: string, t: string): (r: bool)
    ensures r <==> Occurs(s, t, |s| - |t|)
  {
    |t| <= |s| && s[|s| - |t|..] == t
  }

  lemma EndsWithContains(s: string, t: string)
    requires EndsWith(s, t)
    ensures Occurs(s, t, |s| - |t|) && Contains(s, t)
  {
    assert Occurs(s, t, |s| - |t|);
  }

  /** The first position at or after `from` where `t` occurs in `s`. */
  function IndexOfFrom(s: string, t: string, from: nat): (r: Option<nat>)
    decreases |s| - from
    ensures r.Some? ==> from <= r.value && Occurs(s, t, r.value)
    ensures forall p :: from <= p && (r.None? || p < r.value) ==> !Occurs(s, t, p)
  {
    if from + |t| > |s| then None
    else if s[from..from + |t|] == t then Some(from)
    else IndexOfFrom(s, t, from + 1)
  }

  /** String.IndexOf: the first occurrence of `t` in `s`, or none. */
  function IndexOf(s: string, t: string): (r: Option<nat>)
    ensures r.Some? ==> Occurs(s, t, r.value) && forall p :: 0 <= p < r.value ==> !Occurs(s, t, p)
    ensures r.None? <==> !Contains(s, t)
  {
    IndexOfFrom(s, t, 0)
  }

  /** An occurrence with none before it is the one IndexOf finds. */
  lemma IndexOfIsFirst(s: string, t: string, p: nat)
    requires Occurs(s, t, p)
    requires forall q :: 0 <= q < p ==> !Occurs(s, t, q)
    ensures IndexOf(s, t) == Some(p)
  {
    var r := IndexOf(s, t);
    assert r.Some? by { assert Contains(s, t); }
  }

  /** Occurrences that fit inside a prefix are the same in the prefix and in the whole. */
  lemma PrefixOccurrences(s: string, n: nat, t: string)
    requires n <= |s|
    ensures forall q :: q + |t| <= n ==> (Occurs(s[..n], t, q) <==> Occurs(s, t, q))
  {
    forall q | 0 <= q && q + |t| <= n ensures Occurs(s[..n], t, q) <==> Occurs(s, t, q) {
      assert s[..n][q..q + |t|] == s[q..q + |t|];
    }
  }

  /** `r` is the part of `s` before the first terminator in `s`. */
  ghost predicate BeforeFirstFlag(r: string, s: string) {
    r <= s && Occurs(s, END_FLAG, |r|) && forall q :: 0 <= q < |r| ==> !Occurs(s, END_FLAG, q)
  }

  /** Message.Remove(Message.IndexOf(END_FLAG)): the text before the first terminator. */
  function CutAtFlag(s: string): (r: string)
    requires Contains(s, END_FLAG)
    ensures BeforeFirstFlag(r, s)
    ensures !Contains(r, END_FLAG)
  {
    var p := IndexOf(s, END_FLAG).value;
    PrefixOccurrences(s, p, END_FLAG);
    s[..p]
  }

  /** If `s` has no terminator, the first terminator of `s + END_FLAG + w` is the appended one. */
  lemma {:induction false} FirstFlagAfterText(s: string, w: string)
    requires !Contains(s, END_FLAG)
    ensures IndexOf(s + END_FLAG + w, END_FLAG) == Some(|s|)
    ensures CutAtFlag(s + END_FLAG + w) == s
  {
    var f := s + END_FLAG + w;
    assert f[|s|..|s| + 5] == END_FLAG;
    forall q | 0 <= q < |s| ensures !Occurs(f, END_FLAG, q) {
      if q + 5 <= |s| {
        // an occurrence at q would lie inside s
        assert f[q..q + 5] == s[q..q + 5];
        assert !Occurs(s, END_FLAG, q);
      } else {
        // the '>' of an occurrence at q would fall on one of "<END"
        assert f[q + 4] == END_FLAG[q + 4 - |s|] != '>';
      }
    }
    IndexOfIsFirst(f, END_FLAG, |s|);
  }

  /**
    Since '>' stands in END_FLAG only at its end, a prefix of `m + END_FLAG` that ends
    with the terminator is all of it, unless `m` itself contains the terminator.
   */
  lemma OnlyFullFrameEndsWithFlag(m: string, p: string)
    requires !Contains(m, END_FLAG)
    requires p <= m + END_FLAG
    requires EndsWith(p, END_FLAG)
    ensures p == m + END_FLAG
  {
    var f := m + END_FLAG;
    FirstFlagAfterText(m, "");
    assert f + "" == f;
    assert p == f[..|p|];
    PrefixOccurrences(f, |p|, END_FLAG);
    EndsWithContains(p, END_FLAG);
    assert Occurs(f, END_FLAG, |p| - 5);
  }

  /** A prefix ending with the terminator is cut where the whole text is cut. */
  lemma CutAtFlagOfPrefix(p: string, s: string)
    requires p <= s && EndsWith(p, END_FLAG)
    ensures Contains(p, END_FLAG) && Contains(s, END_FLAG)
    ensures CutAtFlag(p) == CutAtFlag(s)
  {
    EndsWithContains(p, END_FLAG);
    var i := IndexOf(p, END_FLAG).value;
    assert p == s[..|p|];
    PrefixOccurrences(s, |p|, END_FLAG);
    assert i + 5 <= |p|;
    assert Occurs(s, END_FLAG, i);
    IndexOfIsFirst(s, END_FLAG, i);
  }

  // ---------------------------------------------------------------------------
  // Frames
  // ---------------------------------------------------------------------------

  /** The bytes Send writes for `message`: one byte per character, then the five bytes of the terminator. */
  function Frame(message: string): (r: seq<byte>)
    ensures |r| == |message| + |END_FLAG|
  {
    Encode(message + END_FLAG)
  }

  /** A frame reads back as the sanitised text followed by the terminator. */
  lemma FrameText(message: string)
    ensures Decode(Frame(message)) == Sanitize(message) + END_FLAG
  {
    EncodeAppend(message, END_FLAG);
    DecodeAppend(Encode(message), Encode(END_FLAG));
    DecodeEncode(END_FLAG);
  }

  // ---------------------------------------------------------------------------
  // Receiving a stream of chunks
  // ---------------------------------------------------------------------------

  /** Every chunk fits the receive buffer. */
  predicate ChunksFit(stream: seq<seq<byte>>) {
    forall i :: 0 <= i < |stream| ==> |stream[i]| <= BUFFER
  }

  /** The bytes of the chunks, in order. */
  function Flatten(chunks: seq<seq<byte>>): (r: seq<byte>) {
    if chunks == [] then [] else Flatten(chunks[..|chunks| - 1]) + chunks[|chunks| - 1]
  }

  lemma {:induction false} FlattenConcat(a: seq<seq<byte>>, b: seq<seq<byte>>)
    ensures Flatten(a + b) == Flatten(a) + Flatten(b)
  {
    if b != [] {
      var init := b[..|b| - 1];
      FlattenConcat(a, init);
      assert (a + b)[..|a + b| - 1] == a + init;
    } else {
      assert a + b == a;
    }
  }

  /** The bytes cut into pieces of `size` (the last one possibly shorter), as a network may deliver them. */
  function Segments(bs: seq<byte>, size: nat): (r: seq<seq<byte>>)
    requires size > 0
    decreases |bs|
    ensures forall i :: 0 <= i < |r| ==> 0 < |r[i]| <= size
    ensures Flatten(r) == bs
  {
    if bs == [] then []
    else if |bs| <= size then
      assert [bs][..0] == [];
      [bs]
    else
      var rest := Segments(bs[size..], size);
      FlattenConcat([bs[..size]], rest);
      assert [bs[..size]][..0] == [];
      [bs[..size]] + rest
  }

  /** The receiver's text after the chunks: each chunk decoded on its own and appended. */
  function Accumulated(chunks: seq<seq<byte>>): (r: string) {
    if chunks == [] then "" else Accumulated(chunks[..|chunks| - 1]) + Decode(chunks[|chunks| - 1])
  }

  /** Decoding chunk by chunk gives the same text as decoding all the bytes at once. */
  lemma {:induction false} ChunkwiseDecoding(chunks: seq<seq<byte>>)
    ensures Accumulated(chunks) == Decode(Flatten(chunks))
  {
    if chunks != [] {
      var init := chunks[..|chunks| - 1];
      ChunkwiseDecoding(init);
      DecodeAppend(Flatten(init), chunks[|chunks| - 1]);
    }
  }

  lemma {:induction false} FlattenPrefix(stream: seq<seq<byte>>, j: nat, k: nat)
    requires j <= k <= |stream|
    ensures Flatten(stream[..j]) <= Flatten(stream[..k])
  {
    if j < k {
      FlattenPrefix(stream, j, k - 1);
      assert stream[..k][..k - 1] == stream[..k - 1];
    } else {
      assert stream[..j] == stream[..k];
    }
  }

  /** The text received so far only grows: after j chunks it is a prefix of the text after k >= j chunks. */
  lemma AccumulatedPrefix(stream: seq<seq<byte>>, j: nat, k: nat)
    requires j <= k <= |stream|
    ensures Accumulated(stream[..j]) <= Accumulated(stream[..k])
  {
    var a, b := Flatten(stream[..j]), Flatten(stream[..k]);
    FlattenPrefix(stream, j, k);
    ChunkwiseDecoding(stream[..j]);
    ChunkwiseDecoding(stream[..k]);
    assert b == a + b[|a|..];
    DecodeAppend(a, b[|a|..]);
  }

  /** One more chunk appends its decoded text. */
  lemma AccumulatedStep(stream: seq<seq<byte>>, k: nat)
    requires k < |stream|
    ensures Accumulated(stream[..k + 1]) == Accumulated(stream[..k]) + Decode(stream[k])
  {
    assert stream[..k + 1][..k] == stream[..k];
  }

  /** The receive loop stops after the k-th chunk (counting from 1). */
  predicate StopsAt(stream: seq<seq<byte>>, k: nat) {
    1 <= k <= |stream| && EndsWith(Accumulated(stream[..k]), END_FLAG)
  }

  /** The first chunk count at or after `from` after which the receive loop stops. */
  function FirstStop(stream: seq<seq<byte>>, from: nat): (r: Option<nat>)
    decreases |stream| + 1 - from
    ensures r.Some? ==> from <= r.value && StopsAt(stream, r.value)
    ensures forall k :: from <= k && (r.None? || k < r.value) ==> !StopsAt(stream, k)
  {
    if from > |stream| then None
    else if StopsAt(stream, from) then Some(from)
    else FirstStop(stream, from + 1)
  }

  /**
    What one Receive makes of a stream of chunks: the message and the number of
    chunks it consumed, or (the stream ending first) the text gathered while the
    source is still waiting for more bytes.
   */
  datatype Delivery = Delivered(text: string, consumed: nat) | Starved(text: string)

  function Deliver(stream: seq<seq<byte>>): (d: Delivery)
    ensures d.Delivered? ==>
      && 1 <= d.consumed <= |stream|
      && StopsAt(stream, d.consumed)
      && (forall k :: 1 <= k < d.consumed ==> !StopsAt(stream, k))
      && BeforeFirstFlag(d.text, Accumulated(stream[..d.consumed]))
      && !Contains(d.text, END_FLAG)
    ensures d.Starved? ==>
      && d.text == Accumulated(stream)
      && forall k :: 1 <= k <= |stream| ==> !StopsAt(stream, k)
  {
    match FirstStop(stream, 1)
    case Some(k) =>
      EndsWithContains(Accumulated(stream[..k]), END_FLAG);
      Delivered(CutAtFlag(Accumulated(stream[..k])), k)
    case None =>
      assert stream[..|stream|] == stream;
      Starved(Accumulated(stream))
  }

  /** Receive ends at the first chunk count after which the text ends with the terminator. */
  lemma DeliverAtFirstStop(stream: seq<seq<byte>>, c: nat)
    requires StopsAt(stream, c)
    requires forall k :: 1 <= k < c ==> !StopsAt(stream, k)
    ensures Contains(Accumulated(stream[..c]), END_FLAG)
    ensures Deliver(stream) == Delivered(CutAtFlag(Accumulated(stream[..c])), c)
  {
    EndsWithContains(Accumulated(stream[..c]), END_FLAG);
  }

  /** Without such a chunk count, Receive is still waiting with all the text gathered. */
  lemma DeliverWithoutStop(stream: seq<seq<byte>>)
    requires forall k :: 1 <= k <= |stream| ==> !StopsAt(stream, k)
    ensures Deliver(stream) == Starved(Accumulated(stream))
  {
  }

  /** If the loop would stop after k chunks, Receive delivers within them the text before the terminator found there. */
  lemma DeliverWithin(stream: seq<seq<byte>>, k: nat)
    requires StopsAt(stream, k)
    ensures Deliver(stream).Delivered? && Deliver(stream).consumed <= k
    ensures Contains(Accumulated(stream[..k]), END_FLAG)
    ensures Deliver(stream).text == CutAtFlag(Accumulated(stream[..k]))
  {
    var j := Deliver(stream).consumed;
    AccumulatedPrefix(stream, j, k);
    CutAtFlagOfPrefix(Accumulated(stream[..j]), Accumulated(stream[..k]));
  }

  /**
    Whatever the chunking, once the first k chunks carry the frame of `m`, Receive
    delivers the sent text up to its first terminator, within those k chunks.
   */
  lemma DeliverAfterSend(m: string, stream: seq<seq<byte>>, k: nat)
    requires k <= |stream| && Flatten(stream[..k]) == Frame(m)
    ensures Contains(Sanitize(m) + END_FLAG, END_FLAG)
    ensures Deliver(stream).Delivered? && Deliver(stream).consumed <= k
    ensures Deliver(stream).text == CutAtFlag(Sanitize(m) + END_FLAG)
  {
    var sent := Sanitize(m) + END_FLAG;
    FrameText(m);
    ChunkwiseDecoding(stream[..k]);
    assert sent[|sent| - 5..] == END_FLAG;
    DeliverWithin(stream, k);
  }

  /**
    Round trip: ASCII text without the terminator, sent as one frame and received in
    any chunking, comes back unchanged, and Receive stops exactly at the end of the frame.
   */
  lemma RoundTrip(m: string, stream: seq<seq<byte>>, k: nat)
    requires IsAscii(m) && !Contains(m, END_FLAG)
    requires k <= |stream| && Flatten(stream[..k]) == Frame(m)
    ensures Deliver(stream).Delivered? && Deliver(stream).text == m
    ensures Flatten(stream[..Deliver(stream).consumed]) == Frame(m)
  {
    DeliverAfterSend(m, stream, k);
    FirstFlagAfterText(m, "");
    assert m + END_FLAG + "" == m + END_FLAG;
    var j := Deliver(stream).consumed;
    FrameText(m);
    ChunkwiseDecoding(stream[..k]);
    AccumulatedPrefix(stream, j, k);
    OnlyFullFrameEndsWithFlag(m, Accumulated(stream[..j]));
    FlattenPrefix(stream, j, k);
    ChunkwiseDecoding(stream[..j]);
  }

  /**
    A terminator inside the message cuts it: the receiver gets only the text before
    it, whatever the chunking.
   */
  lemma EmbeddedFlagCutsMessage(a: string, b: string, stream: seq<seq<byte>>, k: nat)
    requires IsAscii(a + END_FLAG + b) && !Contains(a, END_FLAG)
    requires k <= |stream| && Flatten(stream[..k]) == Frame(a + END_FLAG + b)
    ensures Deliver(stream).Delivered? && Deliver(stream).text == a
  {
    DeliverAfterSend(a + END_FLAG + b, stream, k);
    FirstFlagAfterText(a, b + END_FLAG);
    assert a + END_FLAG + b + END_FLAG == a + END_FLAG + (b + END_FLAG);
  }

  /**
    Two frames that arrive in the same read are delivered as the first message alone:
    both are consumed with that read, so the second message is lost.
   */
  lemma CoalescedFrames(m1: string, m2: string, later: seq<seq<byte>>)
    requires IsAscii(m1) && !Contains(m1, END_FLAG)
    ensures Deliver([Frame(m1) + Frame(m2)] + later) == Delivered(m1, 1)
  {
    var stream := [Frame(m1) + Frame(m2)] + later;
    var t := Sanitize(m1) + END_FLAG + (Sanitize(m2) + END_FLAG);
    assert stream[..1] == [Frame(m1) + Frame(m2)];
    assert stream[..1][..0] == [];
    FrameText(m1);
    FrameText(m2);
    DecodeAppend(Frame(m1), Frame(m2));
    assert Accumulated(stream[..1]) == t;
    assert t[|t| - 5..] == END_FLAG;
    DeliverAtFirstStop(stream, 1);
    FirstFlagAfterText(m1, Sanitize(m2) + END_FLAG);
  }

  /** Sending "hi<END>there" makes the receiver read "hi". */
  lemma HiThere(stream: seq<seq<byte>>, k: nat)
    requires k <= |stream| && Flatten(stream[..k]) == Frame("hi<END>there")
    ensures Deliver(stream).Delivered? && Deliver(stream).text == "hi"
  {
    assert "hi<END>there" == "hi" + END_FLAG + "there";
    EmbeddedFlagCutsMessage("hi", "there", stream, k);
  }
}
