/** Bytes and the fixed-width integers the file formats are made of. */
module Bytes {

  type byte = b: int | 0 <= b < 256

  /** 256 to the `width`: the first number that does not fit. */
  function Bound(width: nat): (n: nat)
    ensures n > 0
  {
    if width == 0 then 1 else 256 * Bound(width - 1)
  }

  lemma Bounds()
    ensures Bound(1) == 0x100 && Bound(2) == 0x1_0000 && Bound(4) == 0x1_0000_0000
    ensures Bound(8) == 0x1_0000_0000_0000_0000
  {
    assert Bound(5) == 256 * Bound(4) && Bound(6) == 256 * Bound(5) && Bound(7) == 256 * Bound(6);
  }

  function BigEndian(n: nat, width: nat): (s: seq<byte>)
    ensures |s| == width
  {
    if width == 0 then [] else BigEndian(n / 256, width - 1) + [n % 256]
  }

  function FromBigEndian(s: seq<byte>): nat {
    if s == [] then 0 else 256 * FromBigEndian(s[..|s| - 1]) + s[|s| - 1]
  }

  function LittleEndian(n: nat, width: nat): (s: seq<byte>)
    ensures |s| == width
  {
    if width == 0 then [] else [n % 256] + LittleEndian(n / 256, width - 1)
  }

  function FromLittleEndian(s: seq<byte>): nat {
    if s == [] then 0 else s[0] + 256 * FromLittleEndian(s[1..])
  }

  /** The first byte of a big-endian word, and the last of a little-endian one,
      weighs the most. */
  lemma WordWeights(a: byte, b: byte, c: byte, d: byte)
    ensures FromBigEndian([a, b, c, d]) == 0x100_0000 * a + 0x1_0000 * b + 0x100 * c + d
    ensures FromLittleEndian([d, c, b, a]) == 0x100_0000 * a + 0x1_0000 * b + 0x100 * c + d
  {
    assert [] + [a] == [a] && [a] + [b] == [a, b];
    assert [a, b] + [c] == [a, b, c] && [a, b, c] + [d] == [a, b, c, d];
    BigEndianSnoc([], a);
    BigEndianSnoc([a], b);
    BigEndianSnoc([a, b], c);
    BigEndianSnoc([a, b, c], d);
    LittleEndianCons(a, []);
    LittleEndianCons(b, [a]);
    LittleEndianCons(c, [b, a]);
    LittleEndianCons(d, [c, b, a]);
  }

  lemma BigEndianSnoc(s: seq<byte>, b: byte)
    ensures FromBigEndian(s + [b]) == 256 * FromBigEndian(s) + b
  {
    assert (s + [b])[..|s|] == s;
  }

  lemma LittleEndianCons(b: byte, s: seq<byte>)
    ensures FromLittleEndian([b] + s) == b + 256 * FromLittleEndian(s)
  {
    assert ([b] + s)[1..] == s;
  }

  lemma {:induction false} BigEndianRoundTrip(n: nat, width: nat)
    requires n < Bound(width)
    ensures FromBigEndian(BigEndian(n, width)) == n
  {
    if width > 0 {
      BigEndianRoundTrip(n / 256, width - 1);
      assert BigEndian(n, width)[..width - 1] == BigEndian(n / 256, width - 1);
    }
  }

  lemma {:induction false} BigEndianOf(s: seq<byte>)
    ensures FromBigEndian(s) < Bound(|s|)
    ensures BigEndian(FromBigEndian(s), |s|) == s
  {
    if s != [] {
      var front, last := s[..|s| - 1], s[|s| - 1];
      BigEndianOf(front);
      assert FromBigEndian(s) / 256 == FromBigEndian(front) && FromBigEndian(s) % 256 == last;
      assert s == front + [last];
    }
  }

  lemma {:induction false} LittleEndianRoundTrip(n: nat, width: nat)
    requires n < Bound(width)
    ensures FromLittleEndian(LittleEndian(n, width)) == n
  {
    if width > 0 {
      LittleEndianRoundTrip(n / 256, width - 1);
      assert LittleEndian(n, width)[1..] == LittleEndian(n / 256, width - 1);
    }
  }

  lemma {:induction false} LittleEndianOf(s: seq<byte>)
    ensures FromLittleEndian(s) < Bound(|s|)
    ensures LittleEndian(FromLittleEndian(s), |s|) == s
  {
    if s != [] {
      LittleEndianOf(s[1..]);
      assert FromLittleEndian(s) / 256 == FromLittleEndian(s[1..]) && FromLittleEndian(s) % 256 == s[0];
      assert s == [s[0]] + s[1..];
    }
  }

  predicate IsAscii(s: string) {
    forall i :: 0 <= i < |s| ==> s[i] < 128 as char
  }

  /** UTF-8 of an ASCII text. */
  function Ascii(s: string): (b: seq<byte>)
    requires IsAscii(s)
    ensures |b| == |s| && forall i :: 0 <= i < |s| ==> b[i] as int == s[i] as int
  {
    seq(|s|, i requires 0 <= i < |s| => s[i] as int)
  }

  function Concat(parts: seq<seq<byte>>): seq<byte> {
    if parts == [] then [] else parts[0] + Concat(parts[1..])
  }

  function Zeros(n: nat): (z: seq<byte>)
    ensures |z| == n && forall i :: 0 <= i < n ==> z[i] == 0
  {
    seq(n, _ => 0)
  }

  /** `part` lies in `s` from `offset` on. */
  predicate At(s: seq<byte>, offset: nat, part: seq<byte>) {
    offset + |part| <= |s| && s[offset..offset + |part|] == part
  }

  lemma AtSplit(s: seq<byte>, offset: nat, a: seq<byte>, b: seq<byte>)
    ensures At(s, offset, a + b) <==> At(s, offset, a) && At(s, offset + |a|, b)
  {
    if offset + |a + b| <= |s| {
      var all := s[offset..offset + |a + b|];
      assert all == s[offset..offset + |a|] + s[offset + |a|..offset + |a| + |b|];
      assert all[..|a|] == s[offset..offset + |a|];
    }
  }

  lemma AtWhole(s: seq<byte>)
    ensures At(s, 0, s)
  {
  }
}
