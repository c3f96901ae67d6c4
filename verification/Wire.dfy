/** Big-endian numbers on the wire. */
module Wire {
  import opened Types

  type Bytes = seq<u8>

  function Pow256(width: nat): (r: nat)
    ensures r > 0
  {
    if width == 0 then 1 else 256 * Pow256(width - 1)
  }

  /** `n` in `width` octets, most significant first. */
  function Put(n: nat, width: nat): (s: Bytes)
    ensures |s| == width
  {
    if width == 0 then [] else Put(n / 256, width - 1) + [n % 256]
  }

  function Get(s: Bytes): (n: nat)
    ensures n < Pow256(|s|)
  {
    if |s| == 0 then 0 else 256 * Get(s[..|s| - 1]) + s[|s| - 1]
  }

  lemma {:induction false} GetPut(n: nat, width: nat)
    requires n < Pow256(width)
    ensures Get(Put(n, width)) == n
  {
    if width > 0 {
      GetPut(n / 256, width - 1);
      assert Put(n, width)[..width - 1] == Put(n / 256, width - 1);
    }
  }

  lemma {:induction false} PutGet(s: Bytes)
    ensures Put(Get(s), |s|) == s
  {
    if |s| > 0 {
      PutGet(s[..|s| - 1]);
      assert s[..|s| - 1] + [s[|s| - 1]] == s;
    }
  }

  /** Octet `i` of a number on the wire, counted from the most significant. */
  lemma {:induction false} OctetAt(n: nat, width: nat, i: nat)
    requires i < width
    ensures Put(n, width)[i] == n / Pow256(width - 1 - i) % 256
  {
    if i < width - 1 {
      OctetAt(n / 256, width - 1, i);
      ShiftedQuotient(n, Pow256(width - 2 - i));
    }
  }

  lemma ShiftedQuotient(n: nat, p: nat)
    requires p > 0
    ensures n / 256 / p == n / (256 * p)
  {
    var q := n / (256 * p);
    assert 256 * p * q <= n < 256 * p * (q + 1);
    assert 256 * (p * q) <= n < 256 * (p * (q + 1));
    Quotient(n / 256, p, q);
  }

  lemma Widths()
    ensures Pow256(1) == 0x100 && Pow256(2) == 0x1_0000 && Pow256(4) == 0x1_0000_0000
    ensures Pow256(6) == 0x1_0000_0000_0000 && Pow256(8) == 0x1_0000_0000_0000_0000
    ensures Pow256(16) == 0x1_0000_0000_0000_0000_0000_0000_0000_0000
  {
    assert Pow256(3) == 256 * Pow256(2);
    assert Pow256(5) == 256 * Pow256(4);
    assert Pow256(7) == 256 * Pow256(6);
    assert Pow256(9) == 256 * Pow256(8);
    assert Pow256(10) == 256 * Pow256(9);
    assert Pow256(11) == 256 * Pow256(10);
    assert Pow256(12) == 256 * Pow256(11);
    assert Pow256(13) == 256 * Pow256(12);
    assert Pow256(14) == 256 * Pow256(13);
    assert Pow256(15) == 256 * Pow256(14);
    assert Pow256(16) == 256 * Pow256(15);
  }

  function GetU16(s: Bytes): u16
    requires |s| == 2
  {
    Widths();
    Get(s)
  }
  function GetU32(s: Bytes): u32
    requires |s| == 4
  {
    Widths();
    Get(s)
  }
  function GetU48(s: Bytes): u48
    requires |s| == 6
  {
    Widths();
    Get(s)
  }
  function GetU64(s: Bytes): u64
    requires |s| == 8
  {
    Widths();
    Get(s)
  }
  function GetU128(s: Bytes): u128
    requires |s| == 16
  {
    Widths();
    Get(s)
  }

  lemma TwoOctets(s: Bytes)
    requires |s| == 2
    ensures GetU16(s) as nat == s[0] as nat * 256 + s[1] as nat
  {
    assert s[..1][..0] == [];
    assert Get(s[..1]) == s[0];
  }

  lemma Put16(n: u16) ensures |Put(n, 2)| == 2 && GetU16(Put(n, 2)) == n { Widths(); GetPut(n, 2); }
  lemma Put32(n: u32) ensures GetU32(Put(n, 4)) == n { Widths(); GetPut(n, 4); }
  lemma Put48(n: u48) ensures GetU48(Put(n, 6)) == n { Widths(); GetPut(n, 6); }
  lemma Put64(n: u64) ensures GetU64(Put(n, 8)) == n { Widths(); GetPut(n, 8); }
  lemma Put128(n: u128) ensures GetU128(Put(n, 16)) == n { Widths(); GetPut(n, 16); }
}
