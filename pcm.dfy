/**
 * The sample decoder (`filterAudioData`): an accumulated byte buffer is
 * trimmed to an even length and read as signed 16-bit samples in the byte
 * order of Apple hardware, which is little-endian.
 */
module Pcm {
  import opened Bytes

  /** The `Int16` whose in-memory little-endian bytes are `lo`, then `hi`. */
  function Int16LE(lo: uint8, hi: uint8): (x: int16)
    ensures x % 0x10000 == lo + 0x100 * hi
    ensures x < 0 <==> hi >= 0x80
  {
    var u := lo + 0x100 * hi;
    if u >= 0x8000 then u - 0x10000 else u
  }

  /** The unsigned 16-bit pattern of a sample (two's complement). */
  function Bits(x: int16): (u: int)
    ensures 0 <= u < 0x10000
  {
    if x < 0 then x + 0x10000 else x
  }

  /** The first byte in memory of a sample. */
  function LowByte(x: int16): (lo: uint8) {
    Bits(x) % 0x100
  }

  /** The second byte in memory of a sample. */
  function HighByte(x: int16): (hi: uint8) {
    Bits(x) / 0x100
  }

  lemma Int16RoundTrip(x: int16)
    ensures Int16LE(LowByte(x), HighByte(x)) == x
  {
    assert LowByte(x) + 0x100 * HighByte(x) == Bits(x);
  }

  lemma BytePairRoundTrip(lo: uint8, hi: uint8)
    ensures LowByte(Int16LE(lo, hi)) == lo && HighByte(Int16LE(lo, hi)) == hi
  {
    assert Bits(Int16LE(lo, hi)) == lo + 0x100 * hi;
  }

  /**
   * The samples of a byte buffer: one per complete byte pair, in order; a
   * trailing odd byte is not read.
   */
  function Decode(bytes: seq<uint8>): (samples: seq<int16>)
    ensures |samples| == |bytes| / 2
    decreases |bytes|
  {
    if |bytes| < 2 then [] else [Int16LE(bytes[0], bytes[1])] + Decode(bytes[2..])
  }

  /** The in-memory bytes of a sample sequence, the inverse of `Decode`. */
  function Encode(samples: seq<int16>): (bytes: seq<uint8>)
    ensures |bytes| == 2 * |samples|
  {
    if samples == [] then [] else [LowByte(samples[0]), HighByte(samples[0])] + Encode(samples[1..])
  }

  /** Sample `i` is the little-endian value of bytes `2i` and `2i+1`. */
  lemma {:induction false} DecodeAt(bytes: seq<uint8>, i: nat)
    requires i < |bytes| / 2
    ensures Decode(bytes)[i] == Int16LE(bytes[2 * i], bytes[2 * i + 1])
    decreases i
  {
    if i > 0 {
      DecodeAt(bytes[2..], i - 1);
    }
  }

  /** A trailing odd byte contributes nothing. */
  lemma {:induction false} DecodeDropsOddByte(bytes: seq<uint8>)
    requires |bytes| % 2 == 1
    ensures Decode(bytes) == Decode(bytes[..|bytes| - 1])
    decreases |bytes|
  {
    if |bytes| > 1 {
      DecodeDropsOddByte(bytes[2..]);
      assert bytes[..|bytes| - 1][2..] == bytes[2..][..|bytes| - 3];
    }
  }

  /** Decoding an even-length prefix and the rest is decoding the whole. */
  lemma {:induction false} DecodeAppend(a: seq<uint8>, b: seq<uint8>)
    requires |a| % 2 == 0
    ensures Decode(a + b) == Decode(a) + Decode(b)
    decreases |a|
  {
    if a != [] {
      DecodeAppend(a[2..], b);
      assert (a + b)[2..] == a[2..] + b;
    } else {
      assert a + b == b;
    }
  }

  lemma {:induction false} DecodeEncode(samples: seq<int16>)
    ensures Decode(Encode(samples)) == samples
  {
    if samples != [] {
      DecodeEncode(samples[1..]);
      Int16RoundTrip(samples[0]);
      assert Encode(samples)[2..] == Encode(samples[1..]);
    }
  }

  /** Re-encoding the samples gives back the buffer minus any odd trailing byte. */
  lemma {:induction false} EncodeDecode(bytes: seq<uint8>)
    ensures Encode(Decode(bytes)) == bytes[..|bytes| - |bytes| % 2]
    decreases |bytes|
  {
    if |bytes| >= 2 {
      EncodeDecode(bytes[2..]);
      BytePairRoundTrip(bytes[0], bytes[1]);
      var rest := bytes[2..];
      assert Decode(bytes)[1..] == Decode(rest);
      assert bytes[..|bytes| - |bytes| % 2] == bytes[..2] + rest[..|rest| - |rest| % 2];
    }
  }

  /**
   * `filterAudioData`: drop the `count % 2` excess bytes from a copy of the
   * buffer, then read it as `count / 2` samples.
   */
  method FilterAudioData(audioData: seq<uint8>) returns (samples: seq<int16>)
    ensures samples == Decode(audioData)
  {
    var trimmedData := audioData;
    var remainder := |trimmedData| % 2;
    if remainder != 0 {
      trimmedData := trimmedData[..|trimmedData| - remainder];
    }
    var count := |trimmedData| / 2;
    samples := seq(count, i requires 0 <= i < count => Int16LE(trimmedData[2 * i], trimmedData[2 * i + 1]));
    forall i | 0 <= i < count
      ensures samples[i] == Decode(audioData)[i]
    {
      DecodeAt(audioData, i);
    }
  }

  /** A header-free packet carrying bytes FF 7F decodes to the largest sample. */
  lemma DecodeMaxSample()
    ensures Decode([0xFF, 0x7F]) == [0x7FFF]
  {
  }
}
