/**
 The size-prefixed LZ4 wrapper that compresses packets: four bytes of big-endian length, then one block.
 */
module PacketCompression {
  import opened Bytes
  import opened BlockFormat
  import opened BlockEncoder
  import opened BlockCompressor
  import opened BlockAcceptance
  import opened BlockDecoder

  function WriteSize(n: nat): (r: seq<byte>)
    requires n < TWO32
    ensures |r| == 4 && ReadSize(r) == n
  {
    SizeBytes(n);
    [n / 0x100_0000, n / 0x1_0000 % 256, n / 256 % 256, n % 256]
  }

  lemma SizeBytes(n: nat)
    requires n < TWO32
    ensures n / 0x100_0000 < 256
    ensures n == n / 0x100_0000 * 0x100_0000 + n / 0x1_0000 % 256 * 0x1_0000 + n / 256 % 256 * 256 + n % 256
  {
    var a, b, c := n / 256, n / 0x1_0000, n / 0x100_0000;
    assert b == a / 256 && c == b / 256;
  }

  function ReadSize(w: seq<byte>): nat
    requires |w| >= 4
  {
    (w[0] as int) * 0x100_0000 + (w[1] as int) * 0x1_0000 + (w[2] as int) * 256 + (w[3] as int)
  }

  /** The first byte in which they differ decides. */
  ghost predicate Before(a: seq<byte>, b: seq<byte>) {
    exists i :: 0 <= i < |a| && i < |b| && a[i] < b[i] && a[..i] == b[..i]
  }

  /** The most significant byte comes first: sizes are ordered as their bytes are, from the left. */
  lemma {:induction false} SizesInOrder(m: nat, n: nat)
    requires m < n < TWO32
    ensures Before(WriteSize(m), WriteSize(n))
  {
    var a, b := WriteSize(m), WriteSize(n);
    hide WriteSize;
    assert a[..0] == b[..0] && (a[0] == b[0] ==> a[..1] == b[..1]);
    assert a[0] == b[0] && a[1] == b[1] ==> a[..2] == b[..2];
    assert a[0] == b[0] && a[1] == b[1] && a[2] == b[2] ==> a[..3] == b[..3];
    assert a[0] <= b[0] && (a[0] == b[0] ==> a[1] <= b[1] && (a[1] == b[1] ==> a[2] <= b[2]));
    assert a[0] == b[0] && a[1] == b[1] && a[2] == b[2] ==> a[3] < b[3];
  }

  /** compress: fails on oversized input; otherwise the length of `src` and a block that decodes to it. */
  method Compress(src: seq<byte>) returns (r: Option<seq<byte>>)
    ensures r.None? <==> |src| > MAX_INPUT_SIZE
    ensures r.Some? ==> 4 < |r.value| <= 4 + CompressBound(|src|)
    ensures r.Some? ==> ReadSize(r.value) == |src| && Compresses(src, r.value[4..])
  {
    BoundIsPositive(|src|);
    hide Compresses, CompressBound, ReadSize, WriteSize;
    if |src| > MAX_INPUT_SIZE {
      return None;
    }
    var stream := new Stream();
    var dst := new byte[CompressBound(|src|)](_ => 0);
    var n := stream.CompressFastReset(src, dst, 1);
    var size := WriteSize(|src|);
    Prefixed(size, dst[..n]);
    r := Some(size + dst[..n]);
  }

  lemma BoundIsPositive(n: nat)
    ensures n <= MAX_INPUT_SIZE ==> CompressBound(n) > 0
  {
  }

  lemma {:induction false} Prefixed(size: seq<byte>, block: seq<byte>)
    requires |size| == 4
    ensures (size + block)[4..] == block && ReadSize(size + block) == ReadSize(size)
  {
    var packet := size + block;
    assert packet[0] == size[0] && packet[1] == size[1] && packet[2] == size[2] && packet[3] == size[3];
  }

  /** The largest size a packet may announce; a limit of zero means none but the range of an int. */
  predicate SizeAllowed(size: nat, maxSize: nat) {
    if maxSize == 0 then size < TWO31 else size <= Min(maxSize, MAX_INPUT_SIZE)
  }

  /** A packet as `Compress` makes them, of a size the receiver allows. */
  ghost predicate WellFormed(packet: seq<byte>, maxSize: nat) {
    && |packet| >= 4 && 0 < ReadSize(packet) && SizeAllowed(ReadSize(packet), maxSize)
    && Decode(packet[4..], 0, []).Some? && WellEnded(packet[4..], 0, false)
    && |Decode(packet[4..], 0, []).value| == ReadSize(packet)
  }

  /**
   decompress: what it returns is what the reference decoder makes of the block, and has the announced
   size; a block of our own making with an allowed, non-zero size is always accepted.
   */
  method Decompress(packet: seq<byte>, maxSize: nat) returns (r: Option<seq<byte>>)
    ensures r.Some? <==>
              && |packet| >= 4 && 0 < ReadSize(packet) && SizeAllowed(ReadSize(packet), maxSize)
              && AcceptsBlock(packet[4..], ReadSize(packet), 0, 0) && Extent(packet[4..], 0) == ReadSize(packet)
    ensures r.Some? ==> |r.value| == ReadSize(packet) && Decode(packet[4..], 0, []) == Some(r.value)
    ensures WellFormed(packet, maxSize) ==> r.Some?
  {
    if |packet| < 4 {
      return None;
    }
    var size := ReadSize(packet);
    if maxSize != 0 && size > Min(maxSize, MAX_INPUT_SIZE) {
      return None;
    }
    var dest := new byte[size](_ => 0);
    var block := packet[4..];
    var n := DecompressSized(block, dest, size);
    DecodeLength(block, 0, []);
    if size >= TWO31 {
      NothingFits(block, size - TWO32, 0, 0);
    }
    if WellFormed(packet, maxSize) {
      WellEndedAccepted(block, 0, false, [], size, 0, 0);
    }
    if n <= 0 || n != size {
      return None;
    }
    r := Some(dest[..]);
    assert [] + dest[..][0..0 + n] == dest[..];
  }

  /** The size goes to the decoder as an int, so one of 2^31 or more turns negative. */
  method DecompressSized(block: seq<byte>, dest: array<byte>, size: nat) returns (n: int)
    requires dest.Length == size < TWO32
    modifies dest
    ensures Decoded(block, [], dest[..], 0, if size < TWO31 then size else size - TWO32, 0, 0, n)
  {
    var capacity: int := if size < TWO31 then size else size - TWO32;
    n := DecompressSafe(block, dest, 0, capacity);
  }

  /**
   Decompressing what was compressed gives it back exactly when it is not empty, not oversized, and
   within the receiver's limit. (The empty packet fails: its decoded size, zero, counts as an error.)
   */
  method RoundTrip(x: seq<byte>, maxSize: nat) returns (r: Option<seq<byte>>)
    ensures r == Some(x) <==> x != [] && |x| <= MAX_INPUT_SIZE && SizeAllowed(|x|, maxSize)
    ensures r.Some? ==> r.value == x
  {
    var packet := Compress(x);
    if packet.None? {
      return None;
    }
    r := Decompress(packet.value, maxSize);
  }
}
