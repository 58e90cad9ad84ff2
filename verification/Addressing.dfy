/** Server addresses: node ids are packed into the two middle bytes of 11.x.y.1. */
module Addressing {
  const U32 := 0x1_0000_0000

  function NodeIdToIp(id: nat): nat {
    (0x0b000001 + (id / 256) * 0x00010000 + (id % 256) * 0x00000100) % U32
  }

  function IpToNodeId(ip: nat): nat {
    ip / 256 % 0x10000
  }

  lemma NodeIdToIpLinear(id: nat)
    ensures NodeIdToIp(id) == (0x0b0000 + id) % 0x1000000 * 256 + 1
  {
    var k, r := (0x0b0000 + id) / 0x1000000, (0x0b0000 + id) % 0x1000000;
    assert 0x0b000001 + (id / 256) * 0x00010000 + (id % 256) * 0x00000100 == 0x0b000001 + 256 * id;
    assert 0x0b000001 + 256 * id == k * U32 + (r * 256 + 1);
  }

  /** Decoding gives the id modulo 2^16, so the round trip holds exactly for ids below 2^16. */
  lemma AddressRoundTrip(id: nat)
    ensures IpToNodeId(NodeIdToIp(id)) == id % 0x10000
    ensures IpToNodeId(NodeIdToIp(id)) == id <==> id < 0x10000
  {
    NodeIdToIpLinear(id);
    var r := (0x0b0000 + id) % 0x1000000;
    assert (r * 256 + 1) / 256 == r;
    var k := (0x0b0000 + id) / 0x1000000;
    assert id == r + (k * 0x100 - 0x0b) * 0x10000;
    assert id % 0x10000 == r % 0x10000;
  }

  /** Two nodes share an address exactly when their ids agree modulo 2^24. */
  lemma AddressesDistinct(i: nat, j: nat)
    ensures NodeIdToIp(i) == NodeIdToIp(j) <==> i % 0x1000000 == j % 0x1000000
  {
    NodeIdToIpLinear(i);
    NodeIdToIpLinear(j);
    ShiftedModulus(i, j, 0x0b0000, 0x1000000);
  }

  lemma ShiftedModulus(i: nat, j: nat, s: nat, m: nat)
    requires m > 0
    ensures (s + i) % m == (s + j) % m <==> i % m == j % m
  {
    var a, b := (s + i) / m, (s + j) / m;
    var c, d := i / m, j / m;
    if (s + i) % m == (s + j) % m {
      assert i - j == (a - b) * m;
      ModulusOfDifference(i, j, a - b, m);
    }
    if i % m == j % m {
      assert (s + i) - (s + j) == (c - d) * m;
      ModulusOfDifference(s + i, s + j, c - d, m);
    }
  }

  lemma ModulusOfDifference(x: nat, y: nat, k: int, m: nat)
    requires m > 0 && x - y == k * m
    ensures x % m == y % m
  {
    var q, r := y / m, y % m;
    assert x == (q + k) * m + r;
    DivisionIsUnique(x, q + k, r, m);
  }

  lemma DivisionIsUnique(x: int, q: int, r: int, m: nat)
    requires m > 0 && 0 <= r < m && x == q * m + r
    ensures x % m == r && x / m == q
  {
    var e := x / m - q;
    NonzeroMultiple(e, m);
    assert x % m - r == -e * m;
  }

  lemma NonzeroMultiple(e: int, m: nat)
    ensures e >= 1 ==> e * m >= m
    ensures e <= -1 ==> -e * m >= m
  {
  }
}
