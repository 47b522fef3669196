/** The line-coding tail shared by the Manchester device encoders: a frame of
    byte values goes through `bytes_to_bits` and `manchester_encode`, and the
    message is a preamble followed by the inverted result. */
module Framing {
  import opened Results
  import opened BitUtils
  import Manchester

  /** `manchester_encode(bytes_to_bits(frame))`. It raises ValueError
      exactly when a negative element puts a '-' into the bit string; an
      element of 256 or more only widens it. */
  function EncodeFrame(frame: seq<int>): (r: Result<string>)
    ensures r.Ok? <==> NonNegative(frame)
    ensures r.Err? ==> r.error == ValueError
    ensures r.Ok? ==> IsBinary(r.value) && |r.value| == 2 * |BytesToBits(frame)|
  {
    BitsBinary(frame);
    Manchester.Encode(BytesToBits(frame))
  }

  /** `preamble + bitbuffer_invert(encoded)`. */
  function Transmit(preamble: string, frame: seq<int>): (r: Result<string>)
    ensures r.Ok? <==> NonNegative(frame)
    ensures r.Err? ==> r.error == ValueError
    ensures r.Ok? ==> |r.value| >= |preamble| && r.value[..|preamble|] == preamble
  {
    var encoded :- EncodeFrame(frame);
    Ok(preamble + Invert(encoded))
  }

  /** A frame of bytes takes sixteen line bits per byte after the preamble. */
  lemma TransmitLength(preamble: string, frame: seq<int>)
    requires AllBytes(frame)
    ensures Transmit(preamble, frame).Ok?
    ensures |Transmit(preamble, frame).value| == |preamble| + 16 * |frame|
  {
    assert NonNegative(frame);
    BitsLength(frame);
  }

  /** Widening: with no negative element, the message is longer than
      `|preamble| + 16 * |frame|` exactly when some element is not a byte. */
  lemma TransmitWidens(preamble: string, frame: seq<int>)
    requires NonNegative(frame)
    ensures |Transmit(preamble, frame).value| >= |preamble| + 16 * |frame|
    ensures |Transmit(preamble, frame).value| == |preamble| + 16 * |frame| <==> AllBytes(frame)
  {
    BitsLength(frame);
  }

  /** Inverting the part after the preamble gives back the Manchester line
      bits. */
  lemma InvertedTail(preamble: string, frame: seq<int>)
    requires NonNegative(frame)
    ensures Invert(Transmit(preamble, frame).value[|preamble|..]) == EncodeFrame(frame).value
  {
    var encoded := EncodeFrame(frame).value;
    assert Transmit(preamble, frame).value[|preamble|..] == Invert(encoded);
    InvertInvolution(encoded);
  }

  /** Manchester-decoding the line bits of a frame of bytes gives its bits. */
  lemma DecodeEncoded(frame: seq<int>)
    requires AllBytes(frame)
    ensures EncodeFrame(frame).Ok?
    ensures Manchester.Decode(EncodeFrame(frame).value, 0, 0) == Ok((BytesToBits(frame), 16 * |frame|))
  {
    var bits := BytesToBits(frame);
    BytesToBitsShape(frame);
    assert 2 * |bits| == 16 * |frame|;
    BitsBinary(frame);
    assert EncodeFrame(frame) == Manchester.Encode(bits);
    Manchester.RoundTrip(bits);
  }

  /** The receiving side undoes each stage: dropping the preamble, inverting
      again and `manchester_decode` from position 0 give the frame's bits,
      which `bits_to_bytes` turns back into the frame (`BytesRoundTrip`). */
  lemma ReceiveFrame(preamble: string, frame: seq<int>)
    requires AllBytes(frame)
    ensures Transmit(preamble, frame).Ok?
    ensures Manchester.Decode(Invert(Transmit(preamble, frame).value[|preamble|..]), 0, 0)
      == Ok((BytesToBits(frame), 16 * |frame|))
  {
    assert NonNegative(frame);
    InvertedTail(preamble, frame);
    DecodeEncoded(frame);
  }
}
