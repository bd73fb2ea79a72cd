/** The addresses and the listen port of a namespace (internal/namespaces/ns.go), for the
    infra subnets that the configuration accepts (internal/config/config.go). */
module VethAddresses {
  import opened Text

  const WORD: nat := 0x1_0000_0000
  const LISTEN_PORT_BASE: nat := 41641

  function Power(n: nat): (r: nat)
    ensures r > 0
  {
    if n == 0 then 1 else 2 * Power(n - 1)
  }

  lemma Powers()
    ensures Power(2) == 4 && Power(16) == 65536 && Power(32) == WORD
  {
    assert Power(4) == 16 && Power(8) == 256;
    assert Power(12) == 4096;
    assert Power(16) == 65536;
    assert Power(20) == 1048576;
    assert Power(24) == 16777216;
    assert Power(28) == 268435456;
  }

  lemma {:induction false} PowerGrows(m: nat, n: nat)
    requires m <= n
    ensures Power(m) <= Power(n)
    decreases n
  {
    if m < n {
      PowerGrows(m, n - 1);
    }
  }

  /** The address under a mask: its low bits are zero. */
  function Masked(x: nat, bits: nat): nat {
    if bits == 0 then x else 2 * Masked(x / 2, bits - 1)
  }

  lemma {:induction false} MaskedBounds(x: nat, bits: nat)
    ensures Masked(x, bits) <= x < Masked(x, bits) + Power(bits)
  {
    if bits > 0 {
      MaskedBounds(x / 2, bits - 1);
    }
  }

  /** The addresses with one masked value are the addresses of one interval. */
  lemma {:induction false} MaskedExactly(x: nat, y: nat, bits: nat)
    ensures Masked(y, bits) == Masked(x, bits) <==> Masked(x, bits) <= y < Masked(x, bits) + Power(bits)
  {
    MaskedBounds(y, bits);
    if bits > 0 {
      MaskedExactly(x / 2, y / 2, bits - 1);
    }
  }

  lemma {:induction false} MaskedFits(x: nat, bits: nat, width: nat)
    requires x < Power(width) && bits <= width
    ensures Masked(x, bits) + Power(bits) <= Power(width)
  {
    if bits > 0 {
      MaskedFits(x / 2, bits - 1, width - 1);
    }
  }

  lemma MaskedIsAligned(x: nat, bits: nat)
    requires bits >= 2
    ensures Masked(x, bits) % 4 == 0
  {
    var quarter := Masked(x / 2 / 2, bits - 2);
    assert Masked(x / 2, bits - 1) == 2 * quarter;
    assert Masked(x, bits) == 4 * quarter;
  }

  // ----- a subnet

  /** An IPv4 subnet: any address of it, and the one bits of its mask. */
  datatype Subnet = Subnet(address: nat, ones: nat)

  predicate IsSubnet(s: Subnet) {
    s.address < WORD && s.ones <= 32
  }

  function Size(s: Subnet): nat
    requires IsSubnet(s)
  {
    Power(32 - s.ones)
  }

  function Base(s: Subnet): nat
    requires IsSubnet(s)
  {
    Masked(s.address, 32 - s.ones)
  }

  /** net.IPNet.Contains. */
  predicate Contains(s: Subnet, address: nat)
    requires IsSubnet(s)
  {
    Masked(address, 32 - s.ones) == Base(s)
  }

  // ----- the addresses

  /** A conversion to uint32. */
  function Word(x: int): nat {
    x % WORD
  }

  datatype Pair = Pair(host: nat, ns: nat)

  /** VethIPs: the two addresses of the block of an index, or None out of range. */
  function VethIPs(s: Subnet, index: int): Option<Pair>
    requires IsSubnet(s)
  {
    var offset := Word(Word(index - 1) * 4);
    var host := Word(Word(Base(s) + offset) + 1);
    var ns := Word(Word(Base(s) + offset) + 2);
    if Contains(s, host) && Contains(s, ns) then Some(Pair(host, ns)) else None
  }

  /** VethIndex, from the first four bytes of the hash of a namespace name. */
  function VethIndex(hash: nat): (index: nat)
    ensures 1 <= index <= 254
  {
    hash % 254 + 1
  }

  /** A block exists exactly when the subnet has room for it, whatever the subnet is: no sum
      that wraps the 32-bit word leads back into the subnet. */
  lemma VethFitsExactly(s: Subnet, index: int)
    requires IsSubnet(s) && 1 <= index <= 254
    ensures VethIPs(s, index).Some? <==> 4 * index - 2 < Size(s)
    ensures VethIPs(s, index).Some? ==> VethIPs(s, index) == Some(Pair(Base(s) + 4 * index - 3, Base(s) + 4 * index - 2))
  {
    BaseFits(s);
    assert Word(index - 1) == index - 1 && Word((index - 1) * 4) == 4 * index - 4;
    SumIn(s, 4 * index - 4, 1);
    SumIn(s, 4 * index - 4, 2);
  }

  lemma BaseFits(s: Subnet)
    requires IsSubnet(s)
    ensures Base(s) + Size(s) <= WORD
  {
    Powers();
    MaskedFits(s.address, 32 - s.ones, 32);
  }

  lemma InSubnet(s: Subnet, address: nat)
    requires IsSubnet(s)
    ensures Contains(s, address) <==> Base(s) <= address < Base(s) + Size(s)
  {
    MaskedExactly(s.address, address, 32 - s.ones);
  }

  /** A sum of the code lies in the subnet exactly when the sum without a wrap does. */
  lemma SumIn(s: Subnet, offset: nat, more: nat)
    requires IsSubnet(s) && offset + more < 65536
    ensures var sum := Word(Word(Base(s) + offset) + more);
      (Contains(s, sum) <==> offset + more < Size(s)) && (Contains(s, sum) ==> sum == Base(s) + offset + more)
  {
    BaseFits(s);
    SumWraps(Base(s), offset, more);
    WrapIn(Base(s), Size(s), offset + more);
    InSubnet(s, Word(Base(s) + (offset + more)));
  }

  lemma SumWraps(base: nat, offset: nat, more: nat)
    requires base < WORD && offset + more < WORD
    ensures Word(Word(base + offset) + more) == Word(base + (offset + more))
  {
  }

  /** A sum that wraps lands below the interval that it left. */
  lemma WrapIn(base: nat, size: nat, more: nat)
    requires 0 < size && base + size <= WORD && more < WORD
    ensures base <= Word(base + more) < base + size <==> more < size
    ensures more < size ==> Word(base + more) == base + more
  {
    assert Word(base + more) == if base + more < WORD then base + more else base + more - WORD;
  }

  /** The four addresses of the /30 block that holds an address. */
  function BlockStart(address: nat): nat {
    address - address % 4
  }

  lemma StartsOfBlock(base: nat, k: nat)
    requires base % 4 == 0
    ensures BlockStart(base + 4 * k + 1) == BlockStart(base + 4 * k + 2) == base + 4 * k
  {
    assert (base + 4 * k) % 4 == 0;
  }

  lemma RoomForBlocks(s: Subnet)
    requires IsSubnet(s) && s.ones <= 16
    ensures Size(s) >= 65536 && Base(s) % 4 == 0
  {
    Powers();
    PowerGrows(16, 32 - s.ones);
    MaskedIsAligned(s.address, 32 - s.ones);
  }

  /** The block of one index. */
  lemma BlockOfIndex(s: Subnet, i: int)
    requires IsSubnet(s) && s.ones <= 16 && 1 <= i <= 254
    ensures VethIPs(s, i).Some?
    ensures var a := VethIPs(s, i).value;
      && BlockStart(a.host) == BlockStart(a.ns) == Base(s) + 4 * (i - 1)
      && Contains(s, BlockStart(a.host)) && Contains(s, BlockStart(a.host) + 3)
  {
    RoomForBlocks(s);
    VethFitsExactly(s, i);
    StartsOfBlock(Base(s), i - 1);
    InSubnet(s, Base(s) + 4 * (i - 1));
    InSubnet(s, Base(s) + 4 * (i - 1) + 3);
  }

  /** Every subnet that the configuration accepts has a block for every index. Both addresses
      of an index lie in its block and in the subnet, and two indices never share a block. */
  lemma BlocksAreDisjoint(s: Subnet, i: int, j: int)
    requires IsSubnet(s) && s.ones <= 16 && 1 <= i <= 254 && 1 <= j <= 254
    ensures VethIPs(s, i).Some? && VethIPs(s, j).Some?
    ensures var a, b := VethIPs(s, i).value, VethIPs(s, j).value;
      && BlockStart(a.host) == BlockStart(a.ns) == Base(s) + 4 * (i - 1)
      && Contains(s, BlockStart(a.host)) && Contains(s, BlockStart(a.host) + 3)
      && (BlockStart(a.host) == BlockStart(b.host) <==> i == j)
  {
    BlockOfIndex(s, i);
    BlockOfIndex(s, j);
  }

  /** The bound of the configuration is not tight: a /22 is the least subnet with every block. */
  lemma EveryIndexFitsExactly(s: Subnet)
    requires IsSubnet(s)
    ensures (forall index: nat :: 1 <= index <= 254 ==> VethIPs(s, index).Some?) <==> s.ones <= 22
  {
    assert Power(9) == 512 && Power(10) == 1024 by {
      assert Power(5) == 32;
    }
    if s.ones <= 22 {
      PowerGrows(10, 32 - s.ones);
    } else {
      PowerGrows(32 - s.ones, 9);
    }
    forall index: nat | 1 <= index <= 254
      ensures VethIPs(s, index).Some? <==> 4 * index - 2 < Size(s)
    {
      VethFitsExactly(s, index);
    }
    if s.ones > 22 {
      VethFitsExactly(s, 254);
    }
  }

  // ----- the listen port

  function ListenPort(index: nat): nat {
    LISTEN_PORT_BASE + index
  }

  /** Two namespaces share a listen port exactly when they share a block: both follow from the
      index alone, so two names whose hashes agree modulo 254 collide in both. */
  lemma NamespacesCollideExactly(s: Subnet, hash: nat, other: nat)
    requires IsSubnet(s) && s.ones <= 16
    ensures LISTEN_PORT_BASE < ListenPort(VethIndex(hash)) <= 65535
    ensures ListenPort(VethIndex(hash)) == 41642 + hash % 254
    ensures ListenPort(VethIndex(hash)) == ListenPort(VethIndex(other)) <==> hash % 254 == other % 254
    ensures VethIPs(s, VethIndex(hash)) == VethIPs(s, VethIndex(other)) <==> hash % 254 == other % 254
  {
    BlocksAreDisjoint(s, VethIndex(hash), VethIndex(other));
  }
}
