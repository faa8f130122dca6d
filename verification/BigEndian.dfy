/** Fixed-width big-endian integers. */
module BigEndian {
  type Byte = b: int | 0 <= b < 256

  function Pow256(width: nat): nat { if width == 0 then 1 else 256 * Pow256(width - 1) }

  /** The `width` low-order bytes of `v`, most significant first. */
  function ToBytes(v: nat, width: nat): (s: seq<Byte>)
    ensures |s| == width
  {
    if width == 0 then [] else ToBytes(v / 256, width - 1) + [v % 256]
  }

  function FromBytes(s: seq<Byte>): nat {
    if s == [] then 0 else FromBytes(s[..|s| - 1]) * 256 + s[|s| - 1]
  }

  lemma {:induction false} FromToBytes(v: nat, width: nat)
    requires v < Pow256(width)
    ensures FromBytes(ToBytes(v, width)) == v
  {
    if width > 0 {
      var s := ToBytes(v, width);
      assert s[..width - 1] == ToBytes(v / 256, width - 1);
      FromToBytes(v / 256, width - 1);
    }
  }

  lemma {:induction false} ToFromBytes(s: seq<Byte>)
    ensures FromBytes(s) < Pow256(|s|)
    ensures ToBytes(FromBytes(s), |s|) == s
  {
    if s != [] {
      ToFromBytes(s[..|s| - 1]);
      assert s == s[..|s| - 1] + [s[|s| - 1]];
    }
  }

  lemma Widths()
    ensures Pow256(2) == 0x1_0000 && Pow256(4) == 0x1_0000_0000 && Pow256(8) == 0x1_0000_0000_0000_0000
  {
    assert Pow256(1) == 256 && Pow256(3) == 256 * Pow256(2) && Pow256(5) == 256 * Pow256(4);
    assert Pow256(6) == 256 * Pow256(5) && Pow256(7) == 256 * Pow256(6) && Pow256(8) == 256 * Pow256(7);
  }

  /** The first byte counts most. */
  lemma FourBytes(a: Byte, b: Byte, c: Byte, d: Byte)
    ensures FromBytes([a, b, c, d]) == a * 0x100_0000 + b * 0x1_0000 + c * 0x100 + d
  {
    assert [a, b, c, d][..3] == [a, b, c] && [a, b, c][..2] == [a, b] && [a, b][..1] == [a] && [a][..0] == [];
    assert FromBytes([a]) == FromBytes([]) * 256 + a == a;
    assert FromBytes([a, b]) == a * 256 + b;
    assert FromBytes([a, b, c]) == FromBytes([a, b]) * 256 + c;
  }

  lemma EightBytes(s: seq<Byte>)
    requires |s| == 8
    ensures FromBytes(s) == FromBytes(s[..4]) * 0x1_0000_0000 + FromBytes(s[4..])
  {
    var t := s[4..];
    assert s[..5][..4] == s[..4] && s[..6][..5] == s[..5] && s[..7][..6] == s[..6] && s[..8] == s && s[..8][..7] == s[..7];
    assert FromBytes(s[..5]) == FromBytes(s[..4]) * 256 + s[4];
    assert FromBytes(s[..6]) == FromBytes(s[..5]) * 256 + s[5];
    assert FromBytes(s[..7]) == FromBytes(s[..6]) * 256 + s[6];
    assert FromBytes(s) == FromBytes(s[..7]) * 256 + s[7];
    FourBytes(s[4], s[5], s[6], s[7]);
    assert t == [s[4], s[5], s[6], s[7]];
  }
}
