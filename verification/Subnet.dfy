/** Subnets: masks and networks kept as host words, against the leading bits of an address. */
module Subnets {
  /** The bits of an address, the most significant first. */
  datatype Address = Address(v4: bool, bits: seq<bool>)
  {
    predicate Ok() { |bits| == if v4 then 32 else 128 }
  }

  /** What a subnet means (section 3.1 of RFC 4632, section 2.3 of RFC 4291). */
  predicate InSubnet(a: Address, base: Address, prefix: nat)
    requires a.Ok() && base.Ok()
  {
    a.v4 == base.v4 && forall i :: 0 <= i < prefix && i < |base.bits| ==> a.bits[i] == base.bits[i]
  }

  lemma LeadingBits(a: Address, base: Address, prefix: nat)
    requires a.Ok() && base.Ok() && a.v4 == base.v4 && prefix <= |base.bits|
    ensures InSubnet(a, base, prefix) <==> a.bits[..prefix] == base.bits[..prefix]
  {
    if a.bits[..prefix] == base.bits[..prefix] {
      assert forall i :: 0 <= i < prefix ==> a.bits[i] == a.bits[..prefix][i] == base.bits[..prefix][i];
    }
  }

  /** A longer prefix of the same address is a smaller subnet. */
  lemma LongerPrefix(a: Address, base: Address, p: nat, q: nat)
    requires a.Ok() && base.Ok() && p <= q && InSubnet(a, base, q)
    ensures InSubnet(a, base, p)
  {
  }

  /** Any member of a subnet stands for it. */
  lemma SameSubnet(a: Address, b: Address, base: Address, p: nat)
    requires a.Ok() && b.Ok() && base.Ok() && InSubnet(a, base, p)
    ensures InSubnet(b, a, p) <==> InSubnet(b, base, p)
  {
    if b.v4 == base.v4 {
      assert forall i :: 0 <= i < p && i < |base.bits| ==> a.bits[i] == base.bits[i];
    }
  }

  // ---- host words -----------------------------------------------------------------------------

  function Same(b: bool, n: nat): seq<bool>
  {
    seq(n, _ => b)
  }

  /** A 32-bit word of a little-endian host; bit `i` has the weight 2 to the power `i`. */
  type Word = w: seq<bool> | |w| == 32 witness Same(false, 32)

  const ZERO: Word := Same(false, 32)
  const ONES: Word := Same(true, 32)

  function And(a: Word, b: Word): Word
  {
    seq(32, i requires 0 <= i < 32 => a[i] && b[i])
  }

  function ShiftLeft(a: Word, n: nat): Word
  {
    seq(32, i requires 0 <= i < 32 => i >= n && a[i - n])
  }

  /** Reverses the bytes of a word. */
  function Htonl(a: Word): Word
  {
    seq(32, i requires 0 <= i < 32 => a[8 * (3 - i / 8) + i % 8])
  }

  /** Where bit `i` of a loaded word lies in the address, counted from the word's first bit. */
  function Place(i: nat): nat
    requires i < 32
  {
    8 * (i / 8) + (7 - i % 8)
  }

  /** The `k`th word of an address as it lies in memory, its bytes in network order. */
  function Load(a: Address, k: nat): Word
    requires a.Ok() && 32 * (k + 1) <= |a.bits|
  {
    seq(32, i requires 0 <= i < 32 => a.bits[32 * k + Place(i)])
  }

  /** How many of the leading bits fall into the `k`th word. */
  function Part(prefix: nat, k: nat): (n: nat)
    ensures n <= 32
  {
    if prefix <= 32 * k then 0 else if prefix >= 32 * (k + 1) then 32 else prefix - 32 * k
  }

  function MaskWord(n: nat): Word
    requires n <= 32
  {
    Htonl(ShiftLeft(ONES, 32 - n))
  }

  /** In network order, a shifted mask covers exactly the leading bits. */
  lemma MaskBit(n: nat, i: nat)
    requires n <= 32 && i < 32
    ensures MaskWord(n)[i] <==> Place(i) < n
  {
    var s := 8 * (3 - i / 8) + i % 8;
    assert 0 <= s < 32 && Place(i) == 31 - s;
    assert ShiftLeft(ONES, 32 - n)[s] == (s >= 32 - n);
  }

  lemma MaskEnds()
    ensures MaskWord(0) == ZERO && MaskWord(32) == ONES
  {
    forall i | 0 <= i < 32
      ensures MaskWord(0)[i] == ZERO[i] && MaskWord(32)[i] == ONES[i]
    {
      MaskBit(0, i);
      MaskBit(32, i);
    }
  }

  lemma PlaceTwice(i: nat)
    requires i < 32
    ensures Place(i) < 32 && Place(Place(i)) == i
  {
  }

  /** Comparing masked words compares the leading bits. */
  lemma MaskedEqual(a: Address, b: Address, k: nat, n: nat)
    requires a.Ok() && b.Ok() && 32 * (k + 1) <= |a.bits| && |a.bits| == |b.bits| && n <= 32
    ensures And(Load(a, k), MaskWord(n)) == And(Load(b, k), MaskWord(n))
      <==> forall j :: 32 * k <= j < 32 * k + n ==> a.bits[j] == b.bits[j]
  {
    var x, y := And(Load(a, k), MaskWord(n)), And(Load(b, k), MaskWord(n));
    if x == y {
      forall j | 32 * k <= j < 32 * k + n
        ensures a.bits[j] == b.bits[j]
      {
        var i := Place(j - 32 * k);
        PlaceTwice(j - 32 * k);
        MaskBit(n, i);
        assert x[i] == y[i];
      }
    }
    if forall j :: 32 * k <= j < 32 * k + n ==> a.bits[j] == b.bits[j] {
      forall i | 0 <= i < 32
        ensures x[i] == y[i]
      {
        MaskBit(n, i);
        PlaceTwice(i);
      }
    }
  }

  /** Leading bits agree if they do word by word. */
  lemma WordByWord(a: Address, b: Address, prefix: nat, words: nat)
    requires a.Ok() && b.Ok() && a.v4 == b.v4 && |a.bits| == 32 * words
    ensures InSubnet(a, b, prefix) <==>
      forall k :: 0 <= k < words ==>
        And(Load(a, k), MaskWord(Part(prefix, k))) == And(Load(b, k), MaskWord(Part(prefix, k)))
  {
    if InSubnet(a, b, prefix) {
      forall k | 0 <= k < words
        ensures And(Load(a, k), MaskWord(Part(prefix, k))) == And(Load(b, k), MaskWord(Part(prefix, k)))
      {
        MaskedEqual(a, b, k, Part(prefix, k));
      }
    }
    if forall k :: 0 <= k < words ==>
      And(Load(a, k), MaskWord(Part(prefix, k))) == And(Load(b, k), MaskWord(Part(prefix, k))) {
      forall i | 0 <= i < prefix && i < |b.bits|
        ensures a.bits[i] == b.bits[i]
      {
        var k := i / 32;
        assert And(Load(a, k), MaskWord(Part(prefix, k))) == And(Load(b, k), MaskWord(Part(prefix, k)));
        MaskedEqual(a, b, k, Part(prefix, k));
      }
    }
  }

  /** The `k`th words of a network and its mask are what they should be. */
  ghost predicate WordDone(address: Address, prefix: nat, k: nat, network: Word, mask: Word)
    requires address.Ok() && 32 * (k + 1) <= |address.bits|
  {
    mask == MaskWord(Part(prefix, k)) && network == And(Load(address, k), mask)
  }

  lemma FullWord(address: Address, prefix: nat, k: nat)
    requires address.Ok() && 32 * (k + 1) <= |address.bits| && prefix >= 32 * (k + 1)
    ensures WordDone(address, prefix, k, Load(address, k), ONES)
  {
    MaskEnds();
  }

  lemma PartialWord(address: Address, prefix: nat, k: nat)
    requires address.Ok() && 32 * (k + 1) <= |address.bits| && 32 * k < prefix < 32 * (k + 1)
    ensures var m := Htonl(ShiftLeft(ONES, 32 - (prefix - 32 * k)));
      WordDone(address, prefix, k, And(Load(address, k), m), m)
  {
  }

  lemma ClearedWord(address: Address, prefix: nat, k: nat)
    requires address.Ok() && 32 * (k + 1) <= |address.bits| && prefix <= 32 * k
    ensures WordDone(address, prefix, k, ZERO, ZERO)
  {
    MaskEnds();
  }

  function Words(a: Address): nat
  {
    if a.v4 then 1 else 4
  }

  lemma AndCommutes(a: Word, b: Word)
    ensures And(a, b) == And(b, a)
  {
  }

  class Subnet {
    const v4: bool
    const prefix: nat
    const network: array<Word>
    const mask: array<Word>
    /** The address the subnet was built from. */
    ghost const base: Address

    ghost predicate Valid()
      reads network, mask
    {
      && base.Ok() && base.v4 == v4 && 0 < prefix <= |base.bits|
      && network.Length == mask.Length == Words(base)
      && forall k :: 0 <= k < Words(base) ==> WordDone(base, prefix, k, network[k], mask[k])
    }

    static method BuildV4(address: Address, prefix: nat) returns (network: array<Word>, mask: array<Word>)
      requires address.Ok() && address.v4 && 0 < prefix <= 32
      ensures fresh(network) && fresh(mask) && network != mask && network.Length == mask.Length == 1
      ensures mask[0] == MaskWord(prefix) && network[0] == And(Load(address, 0), MaskWord(prefix))
    {
      var m := ONES;
      if prefix < 32 {
        m := ShiftLeft(m, 32 - prefix);
      } else {
        assert ShiftLeft(ONES, 0) == ONES;
      }
      mask := new Word[1](_ => Htonl(m));
      network := new Word[1](_ => Load(address, 0));
      network[0] := And(network[0], mask[0]);
    }

    /** The words that the prefix reaches. */
    static method FillMask(ghost address: Address, prefix: nat, network: array<Word>, mask: array<Word>)
      returns (at: nat)
      requires address.Ok() && !address.v4 && 0 < prefix <= 128 && network != mask && network.Length == mask.Length == 4
      requires forall k :: 0 <= k < 4 ==> mask[k] == ZERO && network[k] == Load(address, k)
      modifies network, mask
      ensures at <= 4 && prefix <= 32 * at
      ensures forall k :: 0 <= k < at ==> WordDone(address, prefix, k, network[k], mask[k])
      ensures forall k :: at <= k < 4 ==> mask[k] == ZERO
    {
      hide WordDone, Load, ZERO;
      var remain := prefix;
      at := 0;
      while remain > 0
        invariant at <= 4 && (if remain == 0 then prefix <= 32 * at else remain == prefix - 32 * at)
        invariant forall k :: 0 <= k < at ==> WordDone(address, prefix, k, network[k], mask[k])
        invariant forall k :: at <= k < 4 ==> mask[k] == ZERO && network[k] == Load(address, k)
      {
        if remain >= 32 {
          FullWord(address, prefix, at);
          mask[at] := ONES;
          remain := remain - 32;
        } else {
          PartialWord(address, prefix, at);
          mask[at] := Htonl(ShiftLeft(ONES, 32 - remain));
          network[at] := And(network[at], mask[at]);
          remain := 0;
        }
        at := at + 1;
      }
    }

    static method ClearRest(ghost address: Address, ghost prefix: nat, network: array<Word>, mask: array<Word>,
                            from: nat)
      requires address.Ok() && !address.v4 && network != mask && network.Length == mask.Length == 4
      requires from <= 4 && prefix <= 32 * from
      requires forall k :: 0 <= k < from ==> WordDone(address, prefix, k, network[k], mask[k])
      requires forall k :: from <= k < 4 ==> mask[k] == ZERO
      modifies network
      ensures forall k :: 0 <= k < 4 ==> WordDone(address, prefix, k, network[k], mask[k])
    {
      hide WordDone, ZERO;
      var at, n := from, 4 - from;
      while n > 0
        invariant from <= at == 4 - n <= 4
        invariant forall k :: 0 <= k < at ==> WordDone(address, prefix, k, network[k], mask[k])
        invariant forall k :: at <= k < 4 ==> mask[k] == ZERO
      {
        ClearedWord(address, prefix, at);
        network[at] := ZERO;
        at := at + 1;
        n := n - 1;
      }
    }

    static method BuildV6(address: Address, prefix: nat) returns (network: array<Word>, mask: array<Word>)
      requires address.Ok() && !address.v4 && 0 < prefix <= 128
      ensures fresh(network) && fresh(mask) && network != mask && network.Length == mask.Length == 4
      ensures forall k :: 0 <= k < 4 ==> WordDone(address, prefix, k, network[k], mask[k])
    {
      network := new Word[4](k requires 0 <= k < 4 => Load(address, k));
      mask := new Word[4](_ => ZERO);
      var at := FillMask(address, prefix, network, mask);
      ClearRest(address, prefix, network, mask, at);
    }

    constructor (address: Address, prefix: nat)
      requires address.Ok() && 0 < prefix <= |address.bits|
      ensures Valid() && base == address && this.prefix == prefix && fresh(network) && fresh(mask)
    {
      v4, base, this.prefix := address.v4, address, prefix;
      var network, mask;
      if address.v4 {
        network, mask := BuildV4(address, prefix);
      } else {
        network, mask := BuildV6(address, prefix);
      }
      this.network, this.mask := network, mask;
    }

    /** An address lies in the subnet if and only if the families agree and so do the leading bits. */
    method Contains(address: Address) returns (r: bool)
      requires Valid() && address.Ok()
      ensures r <==> InSubnet(address, base, prefix)
      ensures r <==> address.v4 == base.v4 && address.bits[..prefix] == base.bits[..prefix]
    {
      hide And, Load;
      if address.v4 != v4 {
        return false;
      }
      LeadingBits(address, base, prefix);
      WordByWord(address, base, prefix, Words(base));
      if v4 {
        r := And(Load(address, 0), mask[0]) == network[0];
      } else {
        var k := 0;
        while k < 4
          invariant 0 <= k <= 4
          invariant forall j :: 0 <= j < k ==> And(Load(address, j), mask[j]) == network[j]
        {
          if And(mask[k], Load(address, k)) != network[k] {
            AndCommutes(mask[k], Load(address, k));
            return false;
          }
          AndCommutes(mask[k], Load(address, k));
          k := k + 1;
        }
        r := true;
      }
    }
  }
}
