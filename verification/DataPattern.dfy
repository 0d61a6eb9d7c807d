/** The data buffer whose metadata is tested: written with a pattern and compared with it. */
module DataPattern {

  type Byte = x: nat | x < 256

  const DATA_SIZE: nat := 8 * 1024 * 1024

  /** The pattern: a sum cut to `unsigned char`. */
  function DataByte(offset: int, k: nat): Byte { (0xaa + offset + k) % 256 }

  ghost predicate HoldsData(s: seq<Byte>, offset: int) {
    forall k :: 0 <= k < |s| ==> s[k] == DataByte(offset, k)
  }

  method InitData(d: array<Byte>, offset: int)
    requires d.Length == DATA_SIZE
    modifies d
    ensures HoldsData(d[..], offset)
  {
    for i := 0 to DATA_SIZE
      invariant forall k :: 0 <= k < i ==> d[k] == DataByte(offset, k)
    {
      d[i] := (0xaa + offset + i) % 256;
    }
  }

  method CheckData(d: array<Byte>, offset: int) returns (ret: int)
    requires d.Length == DATA_SIZE
    ensures ret == 0 || ret == -1
    ensures ret == 0 <==> HoldsData(d[..], offset)
  {
    for i := 0 to DATA_SIZE
      invariant forall k :: 0 <= k < i ==> d[k] == DataByte(offset, k)
    {
      if d[i] != (0xaa + offset + i) % 256 {
        assert d[..][i] != DataByte(offset, i);
        return -1;
      }
    }
    return 0;
  }

  lemma SameResidue(x: int, y: int, q: int)
    requires x == y + 256 * q
    ensures x % 256 == y % 256
  {
  }

  /** Shifting both numbers keeps whether they agree modulo 256. */
  lemma ShiftedResidues(x: int, y: int, c: int)
    requires x % 256 == y % 256
    ensures (c + x) % 256 == (c + y) % 256
  {
    SameResidue(c + x, c + y, x / 256 - y / 256);
  }

  /** Data written for one offset passes the check for another exactly when they agree modulo 256. */
  lemma OffsetsToldApartModulo256(s: seq<Byte>, a: int, b: int)
    requires |s| > 0 && HoldsData(s, a)
    ensures HoldsData(s, b) <==> a % 256 == b % 256
  {
    if HoldsData(s, b) {
      assert DataByte(a, 0) == s[0] == DataByte(b, 0);
      ShiftedResidues(0xaa + a, 0xaa + b, -0xaa);
    } else {
      var k :| 0 <= k < |s| && s[k] != DataByte(b, k);
      if a % 256 == b % 256 { ShiftedResidues(a, b, 0xaa + k); }
    }
  }
}
