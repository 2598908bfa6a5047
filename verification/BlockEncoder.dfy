/**
 Writing sequences: length fields, literals, offsets and the last literals, as the two compressors write them, and the
 longest common prefix by which they measure matches.
 */
module BlockEncoder {
  import opened Bytes
  import opened BlockFormat
  import opened BlockCopy

  const MAX_INPUT_SIZE := 0x7E000000
  const LIMIT_64K := 65536 + (MFLIMIT - 1)
  const MIN_LENGTH := MFLIMIT + 1

  datatype TableType = ByU32 | ByU16

  function CompressBound(n: nat): nat {
    if n > MAX_INPUT_SIZE then 0 else n + n / 255 + 16
  }

  // ---------------------------------------------------------------- counting

  /** Number of equal leading bytes of two eight-byte words that differ. */
  function CommonBytes(a: seq<byte>, b: seq<byte>): (c: nat)
    requires |a| == |b| && a != b
    ensures c < |a| && a[c] != b[c] && a[..c] == b[..c]
  {
    if a[0] != b[0] then 0
    else
      assert a == [a[0]] + a[1..] && b == [b[0]] + b[1..];
      var c := 1 + CommonBytes(a[1..], b[1..]);
      assert a[..c] == [a[0]] + a[1..][..c - 1] && b[..c] == [b[0]] + b[1..][..c - 1];
      c
  }

  /** The `c` bytes at `p` are those at `q`. */
  ghost predicate Same(src: seq<byte>, p: nat, q: nat, c: nat) {
    q <= p && p + c <= |src| && forall j :: p <= j < p + c ==> src[j] == src[j - (p - q)]
  }

  lemma {:induction false} SameWord(src: seq<byte>, p: nat, q: nat, c: nat, w: nat)
    requires Same(src, p, q, c) && p + c + w <= |src|
    ensures src[q + c..q + c + w] == src[p + c..p + c + w] <==> Same(src, p, q, c + w)
  {
    var a, b := src[q + c..q + c + w], src[p + c..p + c + w];
    if a == b {
      forall j | p + c <= j < p + c + w
        ensures src[j] == src[j - (p - q)]
      {
        assert src[j] == b[j - p - c] && src[j - (p - q)] == a[j - p - c];
      }
    }
    if Same(src, p, q, c + w) {
      assert forall i :: 0 <= i < w ==> b[i] == src[p + c + i] && a[i] == src[q + c + i];
    }
  }

  lemma {:induction false} WordPrefix(src: seq<byte>, p: nat, n: nat, k: nat)
    requires k < n && p + n <= |src|
    ensures src[p..p + n][..k] == src[p..p + k] && src[p..p + n][k] == src[p + k]
  {
  }

  lemma {:induction false} FirstDifference(src: seq<byte>, p: nat, q: nat, c: nat, k: nat)
    requires Same(src, p, q, c) && p + c + 8 <= |src| && k < 8
    requires var a, b := src[q + c..q + c + 8], src[p + c..p + c + 8]; a[k] != b[k] && a[..k] == b[..k]
    ensures Same(src, p, q, c + k) && src[p + c + k] != src[q + c + k]
  {
    WordPrefix(src, p + c, 8, k);
    WordPrefix(src, q + c, 8, k);
    SameWord(src, p, q, c, k);
  }

  /** Eight bytes at a time while they agree; then the position of the first difference. */
  method CountWords(src: seq<byte>, p: nat, q: nat, limit: nat) returns (c: nat, stopped: bool)
    requires q <= p <= limit <= |src|
    ensures p + c <= limit && Same(src, p, q, c)
    ensures stopped ==> p + c < limit && src[p + c] != src[q + c]
    ensures !stopped ==> limit <= p + c + 7
  {
    assert Same(src, p, q, 0);
    hide Same, CommonBytes;
    c := 0;
    while p + c < limit - 7
      invariant p + c <= limit && Same(src, p, q, c)
    {
      var a, b := src[q + c..q + c + 8], src[p + c..p + c + 8];
      if a != b {
        var k := CommonBytes(a, b);
        FirstDifference(src, p, q, c, k);
        return c + k, true;
      }
      SameWord(src, p, q, c, 8);
      c := c + 8;
    }
    stopped := false;
  }

  /** One comparison of `w` bytes. */
  method CountOnce(src: seq<byte>, p: nat, q: nat, limit: nat, c: nat, w: nat) returns (r: nat)
    requires p + c <= limit <= |src| && Same(src, p, q, c) && w >= 1
    ensures r == if p + c + w <= limit && Same(src, p, q, c + w) then c + w else c
  {
    r := c;
    if p + c + w <= limit {
      SameWord(src, p, q, c, w);
      if src[q + c..q + c + w] == src[p + c..p + c + w] {
        r := c + w;
      }
    }
  }

  /** LZ4_count: the length of the longest common prefix at `p` and `q`, up to `limit`. */
  method Count(src: seq<byte>, p: nat, q: nat, limit: nat) returns (c: nat)
    requires q <= p <= limit <= |src|
    ensures p + c <= limit && Same(src, p, q, c)
    ensures p + c < limit ==> src[p + c] != src[q + c]
  {
    var stopped;
    c, stopped := CountWords(src, p, q, limit);
    if stopped {
      return;
    }
    c := CountOnce(src, p, q, limit, c, 4);
    c := CountOnce(src, p, q, limit, c, 2);
    c := CountOnce(src, p, q, limit, c, 1);
    assert p + c < limit ==> !Same(src, p, q, c + 1);
  }

  // ---------------------------------------------------------------- writing one sequence

  lemma {:induction false} LengthBytesAt(n: nat)
    ensures |LengthBytes(n)| == n / 255 + 1
    ensures forall k :: 0 <= k < n / 255 ==> LengthBytes(n)[k] == 255
    ensures LengthBytes(n)[n / 255] == n % 255
  {
    if n >= 255 {
      LengthBytesAt(n - 255);
      var r := LengthBytes(n - 255);
      assert (n - 255) / 255 == n / 255 - 1 && (n - 255) % 255 == n % 255;
      var w := [255] + r;
      assert LengthBytes(n) == w;
      hide LengthBytes;
      assert forall k :: 1 <= k < |w| ==> w[k] == r[k - 1];
    }
  }

  lemma {:induction false} AtLengthBytes(s: seq<byte>, op: nat, n: nat)
    requires op + n / 255 < |s|
    requires forall j :: op <= j < op + n / 255 ==> s[j] == 255
    requires s[op + n / 255] == n % 255
    ensures At(s, op, LengthBytes(n))
  {
    LengthBytesAt(n);
  }

  /** Literal-length extension, one byte at a time. */
  method EmitLength(dst: array<byte>, op: nat, n: nat) returns (end: nat)
    requires op + n / 255 < dst.Length
    modifies dst
    ensures end == op + n / 255 + 1 && At(dst[..], op, LengthBytes(n))
    ensures forall j :: 0 <= j < dst.Length && !(op <= j < end) ==> dst[j] == old(dst[j])
  {
    var o, len := op, n;
    while len >= 255
      invariant op <= o <= op + n / 255 && 0 <= len && len + 255 * (o - op) == n
      invariant forall j :: op <= j < o ==> dst[j] == 255
      invariant forall j :: 0 <= j < dst.Length && !(op <= j < o) ==> dst[j] == old(dst[j])
    {
      dst[o] := 255;
      o, len := o + 1, len - 255;
    }
    dst[o] := len;
    end := o + 1;
    AtLengthBytes(dst[..], op, n);
  }

  /** Match-length extension: four bytes of 255 are written ahead each time. */
  method EmitMatchLength(dst: array<byte>, op: nat, n: nat) returns (end: nat)
    requires op + n / 255 + 4 <= dst.Length
    modifies dst
    ensures end == op + n / 255 + 1 && At(dst[..], op, LengthBytes(n))
    ensures forall j :: 0 <= j < op ==> dst[j] == old(dst[j])
  {
    var o, code := op, n;
    dst[o], dst[o + 1], dst[o + 2], dst[o + 3] := 255, 255, 255, 255;
    while code >= 4 * 255
      invariant op <= o && code + 255 * (o - op) == n && o + 4 <= dst.Length
      invariant forall j :: op <= j < o + 4 ==> dst[j] == 255
      invariant forall j :: 0 <= j < op ==> dst[j] == old(dst[j])
    {
      o := o + 4;
      dst[o], dst[o + 1], dst[o + 2], dst[o + 3] := 255, 255, 255, 255;
      code := code - 4 * 255;
    }
    o := o + code / 255;
    dst[o] := code % 255;
    end := o + 1;
    AtLengthBytes(dst[..], op, n);
  }

  /** The same field as the HC encoder writes it: two bytes at a time. */
  method EmitPairs(dst: array<byte>, op: nat, n: nat) returns (end: nat)
    requires op + n / 255 + 1 <= dst.Length
    modifies dst
    ensures end == op + n / 255 + 1 && At(dst[..], op, LengthBytes(n))
    ensures forall j :: 0 <= j < op ==> dst[j] == old(dst[j])
  {
    var o, length := op, n;
    while length >= 510
      invariant op <= o && 0 <= length && length + 255 * (o - op) == n
      invariant forall j :: op <= j < o ==> dst[j] == 255
      invariant forall j :: 0 <= j < op ==> dst[j] == old(dst[j])
    {
      dst[o], dst[o + 1] := 255, 255;
      o, length := o + 2, length - 510;
    }
    if length >= 255 {
      dst[o] := 255;
      o, length := o + 1, length - 255;
    }
    dst[o] := length;
    end := o + 1;
    assert o - op == n / 255 && length == n % 255;
    AtLengthBytes(dst[..], op, n);
  }

  /** Token and literal-length extension; the low half of the token is filled in later. */
  method EmitHead(dst: array<byte>, op: nat, lit: nat) returns (end: nat)
    requires op + lit / 255 + 2 <= dst.Length
    modifies dst
    ensures end == op + |Head(lit, 0)| <= op + lit / 255 + 2 && At(dst[..], op, Head(lit, 0))
    ensures forall j :: 0 <= j < op ==> dst[j] == old(dst[j])
  {
    dst[op] := Nibble(lit) * 16;
    end := op + 1;
    if lit >= 15 {
      end := EmitLength(dst, end, lit - 15);
    }
    AtJoin(dst[..], op, [Nibble(lit) * 16 + Nibble(0)], Extension(lit));
  }

  method EmitLiterals(src: seq<byte>, dst: array<byte>, anchor: nat, ip: nat, op: nat) returns (end: nat)
    requires anchor <= ip && ip + 8 <= |src|
    requires op + (ip - anchor) + (ip - anchor) / 255 + 10 <= dst.Length
    modifies dst
    ensures end == op + |Head(ip - anchor, 0)| + (ip - anchor) <= op + (ip - anchor) + (ip - anchor) / 255 + 2
    ensures At(dst[..], op, Head(ip - anchor, 0))
    ensures At(dst[..], op + |Head(ip - anchor, 0)|, src[anchor..ip])
    ensures forall j :: 0 <= j < op ==> dst[j] == old(dst[j])
  {
    var lit := ip - anchor;
    var o := EmitHead(dst, op, lit);
    ghost var s0 := dst[..];
    end := o + lit;
    WildCopyIn(dst, o, src, anchor, end);
    AtUnchanged(s0, dst[..], op, Head(lit, 0));
    assert forall k :: 0 <= k < lit ==> src[anchor..ip][k] == dst[o + k];
  }

  /** Offset and match length; completes the token. */
  method EmitMatch(dst: array<byte>, token: nat, op: nat, ghost lit: nat, offset: nat, code: nat, pairs: bool)
    returns (end: nat)
    requires offset <= MAX_DISTANCE && token + |Head(lit, 0)| <= op
    requires op + 2 + code / 255 + 4 <= dst.Length
    requires At(dst[..], token, Head(lit, 0))
    modifies dst
    ensures end == op + 2 + |Extension(code)|
    ensures At(dst[..], token, Head(lit, code))
    ensures At(dst[..], op, OffsetBytes(offset))
    ensures At(dst[..], op + 2, Extension(code))
    ensures forall j :: 0 <= j < op && j != token ==> dst[j] == old(dst[j])
  {
    ghost var s0 := dst[..];
    HeadOpen(s0, token, lit);
    hide Head, At;
    dst[op] := offset % 256;
    dst[op + 1] := offset / 256;
    end := op + 2;
    if code >= 15 {
      dst[token] := dst[token] + 15;
      if pairs {
        end := EmitPairs(dst, end, code - 15);
      } else {
        end := EmitMatchLength(dst, end, code - 15);
      }
    } else {
      dst[token] := dst[token] + code;
    }
    HeadCompleted(s0, dst[..], token, lit, code);
    OffsetWritten(dst[..], op, offset);
    if code < 15 {
      assert At(dst[..], op + 2, []);
    }
  }

  /** The low half of a fresh token is empty. */
  lemma {:induction false} HeadOpen(s: seq<byte>, token: nat, lit: nat)
    requires At(s, token, Head(lit, 0))
    ensures token + |Head(lit, 0)| <= |s| && s[token] == Nibble(lit) * 16
  {
    assert s[token + 0] == Head(lit, 0)[0];
  }

  lemma {:induction false} HeadCompleted(s0: seq<byte>, s: seq<byte>, token: nat, lit: nat, code: nat)
    requires At(s0, token, Head(lit, 0)) && |s| == |s0| && s[token] == s0[token] + Nibble(code)
    requires forall j :: token < j < token + |Head(lit, 0)| ==> s[j] == s0[j]
    ensures At(s, token, Head(lit, code))
  {
    HeadOpen(s0, token, lit);
    assert forall k :: 1 <= k < |Head(lit, 0)| ==> Head(lit, code)[k] == Head(lit, 0)[k] == s0[token + k];
  }

  lemma {:induction false} OffsetWritten(s: seq<byte>, op: nat, offset: nat)
    requires offset <= MAX_DISTANCE && op + 2 <= |s| && s[op] == offset % 256 && s[op + 1] == offset / 256
    ensures At(s, op, OffsetBytes(offset))
  {
  }

  /** The bytes written for a sequence are its encoding. */
  lemma {:induction false} SequenceWritten(s: seq<byte>, op: nat, lits: seq<byte>, offset: nat, code: nat)
    requires offset <= MAX_DISTANCE
    requires At(s, op, Head(|lits|, code)) && At(s, op + |Head(|lits|, code)|, lits)
    requires At(s, op + |Head(|lits|, code)| + |lits|, OffsetBytes(offset))
    requires At(s, op + |Head(|lits|, code)| + |lits| + 2, Extension(code))
    ensures At(s, op, EncodeSequence(Sequence(lits, offset, code + MINMATCH)))
  {
    hide Head, Extension, At, OffsetBytes;
    AtJoin(s, op, Head(|lits|, code), lits);
    AtJoin(s, op + |Head(|lits|, code)| + |lits|, OffsetBytes(offset), Extension(code));
    AtJoin(s, op, Head(|lits|, code) + lits, OffsetBytes(offset) + Extension(code));
  }

  /** The final literals. */
  method EmitLast(src: seq<byte>, dst: array<byte>, anchor: nat, op: nat) returns (end: nat)
    requires anchor <= |src|
    requires op + (|src| - anchor) + (|src| - anchor) / 255 + 2 <= dst.Length
    modifies dst
    ensures end == op + |EncodeLast(src[anchor..])| && At(dst[..], op, EncodeLast(src[anchor..]))
    ensures forall j :: 0 <= j < op ==> dst[j] == old(dst[j])
  {
    var lit := |src| - anchor;
    var o := EmitHead(dst, op, lit);
    ghost var s0 := dst[..];
    CopyIn(dst, o, src, anchor, lit);
    AtUnchanged(s0, dst[..], op, Head(lit, 0));
    assert forall k :: 0 <= k < lit ==> src[anchor..][k] == dst[o + k];
    AtJoin(dst[..], op, Head(lit, 0), src[anchor..]);
    end := o + lit;
  }
}
