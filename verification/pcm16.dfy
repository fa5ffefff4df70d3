/** Packing of quantised 16-bit samples into the little-endian byte buffer
    handed to the recogniser (and to the diagnostic dump). A sample is the
    already clamped and scaled `short`; the floating-point quantisation that
    produces it is outside the model. */
module Pcm16 {

  type Int16 = x: int | -0x8000 <= x < 0x8000
  type Byte = x: int | 0 <= x < 0x100

  /** `(byte)(s & 0xff)`: the low eight bits of the two's-complement form. */
  function LowByte(s: Int16): (lo: Byte)
    ensures lo == (if s < 0 then s + 0x10000 else s) % 0x100
  {
    s % 0x100
  }

  /** `(byte)((s >> 8) & 0xff)`: the arithmetic shift floors, which is what
      Dafny's division by a positive divisor does. */
  function HighByte(s: Int16): (hi: Byte)
    ensures hi == (if s < 0 then s + 0x10000 else s) / 0x100
  {
    (s / 0x100) % 0x100
  }

  /** How the recogniser reads two bytes back: the little-endian 16-bit
      pattern read as a signed `short`. */
  function DecodeSample(lo: Byte, hi: Byte): Int16 {
    var u := lo + 0x100 * hi;
    if u >= 0x8000 then u - 0x10000 else u
  }

  /** Reading back the two bytes of a sample gives the sample. */
  lemma SampleRoundTrip(s: Int16)
    ensures DecodeSample(LowByte(s), HighByte(s)) == s
  {
    var lo, hi := LowByte(s), HighByte(s);
    if s >= 0 {
      assert s == lo as int + 0x100 * (hi as int);
    } else {
      assert s + 0x10000 == lo as int + 0x100 * (hi as int);
    }
  }

  /** Every byte pair is the packing of the sample it decodes to. */
  lemma BytePairRoundTrip(lo: Byte, hi: Byte)
    ensures LowByte(DecodeSample(lo, hi)) == lo && HighByte(DecodeSample(lo, hi)) == hi
  {
    var s := DecodeSample(lo, hi);
    if hi < 0x80 {
      assert s == lo as int + 0x100 * (hi as int);
    } else {
      assert s == lo as int + 0x100 * (hi as int - 0x100);
    }
  }

  /** A 16-bit pattern is its masked high byte times 256 plus its masked low
      byte. */
  lemma BitsSplit(b: bv16)
    ensures (b & 0xFF) as int < 0x100 && ((b >> 8) & 0xFF) as int < 0x100
    ensures b as int == ((b >> 8) & 0xFF) as int * 0x100 + (b & 0xFF) as int
  {
  }

  /** For every `short` and its 16-bit two's-complement pattern `b`, the
      integer byte arithmetic agrees with the mask and shift the source
      writes on `b`. */
  lemma BytesAreMaskAndShift(s: Int16, b: bv16)
    requires b as int == (if s < 0 then s + 0x10000 else s)
    ensures LowByte(s) == (b & 0xFF) as int
    ensures HighByte(s) == ((b >> 8) & 0xFF) as int
  {
    BitsSplit(b);
    var lo: Byte, hi: Byte := (b & 0xFF) as int, ((b >> 8) & 0xFF) as int;
    PatternDecodes(s, lo, hi);
    BytePairRoundTrip(lo, hi);
  }

  /** Bytes that spell a sample's two's-complement pattern decode to it. */
  lemma PatternDecodes(s: Int16, lo: Byte, hi: Byte)
    requires lo + 0x100 * hi == (if s < 0 then s + 0x10000 else s)
    ensures DecodeSample(lo, hi) == s
  {
  }

  /** The recogniser's view of a byte buffer: consecutive little-endian
      pairs as signed samples. */
  function DecodeAll(bytes: seq<Byte>): (samples: seq<Int16>)
    requires |bytes| % 2 == 0
    ensures |samples| * 2 == |bytes|
  {
    if bytes == [] then []
    else [DecodeSample(bytes[0], bytes[1])] + DecodeAll(bytes[2..])
  }

  /** The conversion loop: `read` samples become `2 * read` bytes, the low
      byte of each sample first, and the recogniser reads the same samples
      back from them. */
  method PackSamples(samples: seq<Int16>) returns (bytes: seq<Byte>)
    ensures |bytes| == 2 * |samples|
    ensures forall i :: 0 <= i < |samples| ==>
      bytes[2 * i] == LowByte(samples[i]) && bytes[2 * i + 1] == HighByte(samples[i])
    ensures DecodeAll(bytes) == samples
  {
    bytes := [];
    var i := 0;
    while i < |samples|
      invariant 0 <= i <= |samples|
      invariant |bytes| == 2 * i
      invariant forall j :: 0 <= j < i ==>
        bytes[2 * j] == LowByte(samples[j]) && bytes[2 * j + 1] == HighByte(samples[j])
    {
      bytes := bytes + [LowByte(samples[i]), HighByte(samples[i])];
      i := i + 1;
    }
    DecodePacked(samples, bytes);
  }

  /** A buffer laid out pair by pair from `samples` decodes to `samples`. */
  lemma {:induction false} DecodePacked(samples: seq<Int16>, bytes: seq<Byte>)
    requires |bytes| == 2 * |samples|
    requires forall i :: 0 <= i < |samples| ==>
      bytes[2 * i] == LowByte(samples[i]) && bytes[2 * i + 1] == HighByte(samples[i])
    ensures DecodeAll(bytes) == samples
    decreases |samples|
  {
    if samples != [] {
      SampleRoundTrip(samples[0]);
      assert bytes[0] == LowByte(samples[0]) && bytes[1] == HighByte(samples[0]);
      forall i | 0 <= i < |samples[1..]|
        ensures bytes[2..][2 * i] == LowByte(samples[1..][i])
        ensures bytes[2..][2 * i + 1] == HighByte(samples[1..][i])
      {
        assert bytes[2 * (i + 1)] == LowByte(samples[i + 1]);
        assert bytes[2 * (i + 1) + 1] == HighByte(samples[i + 1]);
      }
      DecodePacked(samples[1..], bytes[2..]);
    }
  }
}
