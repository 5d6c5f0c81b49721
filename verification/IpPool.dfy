/** How src/ip-lease.c picks an address for a session, and the mask arithmetic of src/ip-util.c. */
module IpPool {
  import opened Options
  import opened Words

  const MAX_IP_TRIES := 16

  type Address = seq<Byte>
  type Quad = a: Address | |a| == 4 witness [0, 0, 0, 0]
  type Wide = a: Address | |a| == 16 witness seq(16, _ => 0)

  /** A configured address: not given, not an address, or its bytes. */
  datatype Given<+T> = Absent | Unreadable | Bytes(bytes: T)

  /** What asking for a lease ends in: none configured, an error, or a lease. */
  datatype Outcome =
    | NoLease
    | Refused
    | Leased(rip: Address, lip: Address, sig: Address, prefix: nat, pooled: bool)

  // ----- bytes

  function And(a: Address, m: Address): (r: Address)
    requires |a| == |m|
    ensures |r| == |a|
  {
    seq(|a|, i requires 0 <= i < |a| => a[i] & m[i])
  }

  /** The bits of `a` outside the mask. */
  function Without(a: Address, m: Address): (r: Address)
    requires |a| == |m|
    ensures |r| == |a|
  {
    seq(|a|, i requires 0 <= i < |a| => a[i] & !m[i])
  }

  function Or(a: Address, b: Address): (r: Address)
    requires |a| == |b|
    ensures |r| == |a|
  {
    seq(|a|, i requires 0 <= i < |a| => a[i] | b[i])
  }

  method AndInto(a: array<Byte>, m: Address)
    requires a.Length == |m|
    modifies a
    ensures a[..] == And(old(a[..]), m)
  {
    for i := 0 to a.Length
      invariant forall j | 0 <= j < a.Length :: a[j] == if j < i then old(a[j]) & m[j] else old(a[j])
    {
      a[i] := a[i] & m[i];
    }
  }

  method AndNotInto(a: array<Byte>, m: Address)
    requires a.Length == |m|
    modifies a
    ensures a[..] == Without(old(a[..]), m)
  {
    for i := 0 to a.Length
      invariant forall j | 0 <= j < a.Length :: a[j] == if j < i then old(a[j]) & !m[j] else old(a[j])
    {
      a[i] := a[i] & !m[i];
    }
  }

  method OrInto(a: array<Byte>, b: Address)
    requires a.Length == |b|
    modifies a
    ensures a[..] == Or(old(a[..]), b)
  {
    for i := 0 to a.Length
      invariant forall j | 0 <= j < a.Length :: a[j] == if j < i then old(a[j]) | b[j] else old(a[j])
    {
      a[i] := a[i] | b[i];
    }
  }

  /** The server's own address in a network: its first address. */
  function Local(net: Address): (r: Address)
    requires net != []
    ensures |r| == |net|
  {
    net[|net| - 1 := net[|net| - 1] | 1]
  }

  /** The address of the network that has the host bits of `raw`. */
  function Host(net: Address, mask: Address, raw: Address): (r: Address)
    requires |net| == |mask| == |raw|
    ensures |r| == |net|
  {
    Or(Without(raw, mask), net)
  }

  function Broadcast(net: Address, mask: Address): (r: Address)
    requires |net| == |mask|
    ensures |r| == |net|
  {
    seq(|net|, i requires 0 <= i < |net| => net[i] | !mask[i])
  }

  /** Setting host bits does not leave the network, whatever the mask. */
  lemma HostInNetwork(n: Address, mask: Address, raw: Address)
    requires |n| == |mask| == |raw|
    ensures And(Host(And(n, mask), mask, raw), mask) == And(n, mask)
    ensures And(And(n, mask), mask) == And(n, mask)
  {
    var h := Host(And(n, mask), mask, raw);
    forall i | 0 <= i < |n| ensures h[i] & mask[i] == n[i] & mask[i] && (n[i] & mask[i]) & mask[i] == n[i] & mask[i] {
      HostByte(n[i], mask[i], raw[i]);
    }
  }

  lemma HostByte(n: Byte, mask: Byte, raw: Byte)
    ensures ((raw & !mask) | (n & mask)) & mask == n & mask && (n & mask) & mask == n & mask
  {
  }

  // ----- prefixes

  function MaskByte(i: int): Byte {
    if i >= 8 then 0xff
    else if i <= 0 then 0
    else if i == 7 then 0xfe
    else if i == 6 then 0xfc
    else if i == 5 then 0xf8
    else if i == 4 then 0xf0
    else if i == 3 then 0xe0
    else if i == 2 then 0xc0
    else 0x80
  }

  /** The mask of a prefix: 128 bits, the first `prefix` of them set. */
  function PrefixMask(prefix: nat): Wide {
    seq(16, j requires 0 <= j < 16 => MaskByte(prefix - 8 * j))
  }

  function BitMask(b: nat): Byte
    requires b < 8
  {
    if b == 0 then 0x80 else if b == 1 then 0x40 else if b == 2 then 0x20 else if b == 3 then 0x10
    else if b == 4 then 8 else if b == 5 then 4 else if b == 6 then 2 else 1
  }

  /** Bit `b` of byte `j` is set exactly when it is among the first `prefix` bits. */
  lemma PrefixMaskBits(prefix: nat, j: nat, b: nat)
    requires j < 16 && b < 8
    ensures PrefixMask(prefix)[j] & BitMask(b) != 0 <==> 8 * j + b < prefix
  {
    MaskByteBits(prefix - 8 * j, b);
  }

  lemma MaskByteBits(i: int, b: nat)
    requires b < 8
    ensures MaskByte(i) & BitMask(b) != 0 <==> b < i
  {
  }

  /** 0xffU << (8 - i), cut to a byte. */
  lemma MaskByteShift(i: nat)
    requires 1 <= i < 8
    ensures (0xff as Byte) << (8 - i) == MaskByte(i)
  {
    assert i == 1 || i == 2 || i == 3 || i == 4 || i == 5 || i == 6 || i == 7;
  }

  /** ipv6_prefix_to_mask. */
  method PrefixToMask(in6: array<Byte>, prefix: nat) returns (ok: bool)
    requires in6.Length == 16
    modifies in6
    ensures ok <==> 1 <= prefix <= 128
    ensures in6[..] == if ok then PrefixMask(prefix) else old(in6[..])
  {
    if prefix == 0 || prefix > 128 {
      return false;
    }
    forall k | 0 <= k < 16 {
      in6[k] := 0;
    }
    var i: int, j: nat := prefix, 0;
    while i > 0
      invariant i == prefix - 8 * j && j <= 16
      invariant forall k | 0 <= k < 16 :: in6[k] == if k < j then MaskByte(prefix - 8 * k) else 0
    {
      if i >= 8 {
        in6[j] := 0xff;
      } else {
        MaskByteShift(i);
        in6[j] := (0xff as Byte) << (8 - i);
      }
      i, j := i - 8, j + 1;
    }
    return true;
  }

  lemma MaskBytesNest(i: int, j: int)
    requires i <= j
    ensures MaskByte(i) & MaskByte(j) == MaskByte(i)
  {
  }

  /** A shorter prefix keeps fewer bits. */
  lemma MasksNest(a: Wide, p: nat, q: nat)
    requires p <= q
    ensures And(And(a, PrefixMask(p)), PrefixMask(q)) == And(a, PrefixMask(p))
    ensures And(And(a, PrefixMask(q)), PrefixMask(p)) == And(a, PrefixMask(p))
  {
    forall k | 0 <= k < 16
      ensures (a[k] & PrefixMask(p)[k]) & PrefixMask(q)[k] == a[k] & PrefixMask(p)[k]
      ensures (a[k] & PrefixMask(q)[k]) & PrefixMask(p)[k] == a[k] & PrefixMask(p)[k]
    {
      MaskBytesNest(p - 8 * k, q - 8 * k);
      NestedMasks(a[k], PrefixMask(p)[k], PrefixMask(q)[k]);
    }
  }

  lemma NestedMasks(a: Byte, m: Byte, n: Byte)
    requires m & n == m
    ensures (a & m) & n == a & m && (a & n) & m == a & m
  {
  }

  // ----- picking

  /** The first of the tries from number `k` on that will do. */
  function Pick(k: nat, tries: nat -> Address, ok: Address -> bool): (r: Option<Address>)
    ensures r.Some? ==> ok(r.value)
    decreases MAX_IP_TRIES - k
  {
    if k >= MAX_IP_TRIES then None
    else if ok(tries(k)) then Some(tries(k))
    else Pick(k + 1, tries, ok)
  }

  /** There is no lease exactly when none of the tries will do. */
  lemma {:induction false} PickFails(k: nat, tries: nat -> Address, ok: Address -> bool)
    ensures Pick(k, tries, ok).None? <==> forall j | k <= j < MAX_IP_TRIES :: !ok(tries(j))
    ensures Pick(k, tries, ok).Some? ==> exists j: nat :: j < MAX_IP_TRIES && Pick(k, tries, ok) == Some(tries(j))
    decreases MAX_IP_TRIES - k
  {
    if k < MAX_IP_TRIES && !ok(tries(k)) {
      PickFails(k + 1, tries, ok);
    }
  }

  /** Otherwise the first of them that will do is leased. */
  lemma {:induction false} PickFirst(k: nat, tries: nat -> Address, ok: Address -> bool, j: nat)
    requires k <= j < MAX_IP_TRIES && ok(tries(j)) && forall i | k <= i < j :: !ok(tries(i))
    ensures Pick(k, tries, ok) == Some(tries(j))
    decreases j - k
  {
    if k < j {
      PickFirst(k + 1, tries, ok, j);
    }
  }

  // ----- addresses of a network

  /** The broadcast address has the network's bits where the mask has, and ones elsewhere. */
  lemma BroadcastIsLast(n: Address, mask: Address, i: nat)
    requires |n| == |mask| && i < |n|
    ensures var b := Broadcast(And(n, mask), mask);
            b[i] & mask[i] == n[i] & mask[i] && b[i] | mask[i] == 0xff
  {
    LastByte(n[i], mask[i]);
  }

  lemma LastByte(n: Byte, mask: Byte)
    ensures ((n & mask) | !mask) & mask == n & mask && ((n & mask) | !mask) | mask == 0xff
  {
  }

  /** The server's own address is the network's with the lowest bit set. */
  lemma LocalIsFirst(net: Address, i: nat)
    requires i < |net|
    ensures i < |net| - 1 ==> Local(net)[i] == net[i]
    ensures i == |net| - 1 ==> Local(net)[i] & 1 == 1 && Local(net)[i] & 0xfe == net[i] & 0xfe
  {
    LowBit(net[i]);
  }

  lemma LowBit(x: Byte)
    ensures (x | 1) & 1 == 1 && (x | 1) & 0xfe == x & 0xfe
  {
  }

  /** The bits of an address outside the mask are the drawn ones. */
  lemma HostIsDrawn(n: Address, mask: Address, raw: Address, i: nat)
    requires |n| == |mask| == |raw| && i < |n|
    ensures Host(And(n, mask), mask, raw)[i] & !mask[i] == raw[i] & !mask[i]
  {
    DrawnByte(n[i], mask[i], raw[i]);
  }

  lemma DrawnByte(n: Byte, mask: Byte, raw: Byte)
    ensures ((raw & !mask) | (n & mask)) & !mask == raw & !mask
  {
  }

  // ----- IPv4

  predicate Vacant4(taken: set<Address>, net: Quad, mask: Quad, ip: Address) {
    ip !in taken && ip != net && ip != Broadcast(net, mask)
  }

  /** An address of the pool that may be leased. */
  predicate Fits4(taken: set<Address>, net: Quad, mask: Quad, answers: Address -> bool, ip: Address) {
    Vacant4(taken, net, mask, ip) && ip != Local(net) && !answers(ip)
  }

  function Pick4(taken: set<Address>, net: Quad, mask: Quad, draw: nat -> Quad, answers: Address -> bool): Option<Address> {
    Pick(0, (k: nat) => Host(net, mask, draw(k)), ip => Fits4(taken, net, mask, answers, ip))
  }

  /** What get_ipv4_lease ends in: `draw` gives the bytes the seed, the hash and the random generator
      yield, `answers` tells which addresses answer a ping. */
  function Lease4(taken: set<Address>, network: Given<Quad>, netmask: Given<Quad>, explicit: Given<Quad>,
                  draw: nat -> Quad, answers: Address -> bool): Outcome
  {
    if network.Absent? || netmask.Absent? then NoLease
    else if network.Unreadable? || netmask.Unreadable? || explicit.Unreadable? then Refused
    else
      var mask := netmask.bytes;
      var net := And(network.bytes, mask);
      if explicit.Bytes? then
        if Vacant4(taken, net, mask, explicit.bytes) && explicit.bytes != Local(net)
        then Leased(explicit.bytes, Local(net), explicit.bytes, 0, false) else Refused
      else
        var x := Pick4(taken, net, mask, draw, answers);
        if x.Some? then Leased(x.value, Local(net), x.value, 0, true) else Refused
  }

  /** is_ipv4_ok. */
  method IsIpv4Ok(taken: set<Address>, ip: Address, net: Quad, mask: Quad) returns (ok: bool)
    ensures ok <==> Vacant4(taken, net, mask, ip)
  {
    var broadcast := new Byte[4];
    for i := 0 to 4
      invariant forall j | 0 <= j < i :: broadcast[j] == net[j] | !mask[j]
    {
      broadcast[i] := net[i] | !mask[i];
    }
    assert broadcast[..] == Broadcast(net, mask);
    return ip !in taken && ip != net && ip != broadcast[..];
  }

  /** One round of the search: the address made of drawn bytes, and whether it will do. */
  method Try4(taken: set<Address>, net: Quad, mask: Quad, raw: Quad, answers: Address -> bool)
    returns (ip: Quad, ok: bool)
    ensures ip == Host(net, mask, raw)
    ensures ok <==> Fits4(taken, net, mask, answers, ip)
  {
    var rnd := new Byte[4](i requires 0 <= i < 4 => raw[i]);
    assert rnd[..] == raw;
    AndNotInto(rnd, mask);
    OrInto(rnd, net);
    ip := rnd[..];
    ok := IsIpv4Ok(taken, ip, net, mask);
    if ok {
      ok := Local(net) != ip && !answers(ip);
    }
  }

  /** The search of the pool. */
  method Search4(taken: set<Address>, net: Quad, mask: Quad, draw: nat -> Quad, answers: Address -> bool)
    returns (x: Option<Address>)
    ensures x == Pick4(taken, net, mask, draw, answers)
  {
    hide Host, Fits4;
    ghost var tries := (k: nat) => Host(net, mask, draw(k));
    ghost var fits := ip => Fits4(taken, net, mask, answers, ip);
    var ip, ok;
    var maxLoops: nat := MAX_IP_TRIES;
    while true
      invariant maxLoops <= MAX_IP_TRIES
      invariant Pick(MAX_IP_TRIES - maxLoops, tries, fits) == Pick(0, tries, fits)
      decreases maxLoops
    {
      if maxLoops == 0 {
        return None;
      }
      ip, ok := Try4(taken, net, mask, draw(MAX_IP_TRIES - maxLoops), answers);
      assert ip == tries(MAX_IP_TRIES - maxLoops) && ok == fits(ip);
      maxLoops := maxLoops - 1;
      if ok {
        return Some(ip);
      }
    }
  }

  /** get_ipv4_lease. */
  method GetIpv4Lease(taken: set<Address>, network: Given<Quad>, netmask: Given<Quad>, explicit: Given<Quad>,
                      draw: nat -> Quad, answers: Address -> bool) returns (o: Outcome)
    ensures o == Lease4(taken, network, netmask, explicit, draw, answers)
  {
    hide And, Broadcast, Pick4, Local;
    if network.Absent? || netmask.Absent? {
      return NoLease;
    }
    if network.Unreadable? || netmask.Unreadable? {
      return Refused;
    }
    var mask := netmask.bytes;
    var masked := new Byte[4](i requires 0 <= i < 4 => network.bytes[i]);
    assert masked[..] == network.bytes;
    AndInto(masked, mask);
    var net: Quad := masked[..];
    var ok;
    if !explicit.Absent? {
      if explicit.Unreadable? {
        return Refused;
      }
      ok := IsIpv4Ok(taken, explicit.bytes, net, mask);
      if !ok || Local(net) == explicit.bytes {
        return Refused;
      }
      return Leased(explicit.bytes, Local(net), explicit.bytes, 0, false);
    }
    var x := Search4(taken, net, mask, draw, answers);
    return if x.Some? then Leased(x.value, Local(net), x.value, 0, true) else Refused;
  }

  /** An IPv4 lease from the pool lies in the network, whatever the mask, and is neither the network,
      nor the broadcast, nor the server's own address; no lease has an address of the table. */
  lemma Lease4Sound(taken: set<Address>, network: Given<Quad>, netmask: Given<Quad>, explicit: Given<Quad>,
                    draw: nat -> Quad, answers: Address -> bool)
    ensures var o := Lease4(taken, network, netmask, explicit, draw, answers);
      o.Leased? ==>
        var mask := netmask.bytes;
        var net := And(network.bytes, mask);
        && |o.rip| == 4 && o.sig == o.rip && o.sig !in taken && o.lip == Local(net)
        && o.rip != net && o.rip != Broadcast(net, mask) && o.rip != o.lip
        && (o.pooled ==> And(o.rip, mask) == net && !answers(o.rip))
  {
    hide And, Host, PrefixMask, Pick, Broadcast, Local;
    if network.Bytes? && netmask.Bytes? && explicit.Absent? {
      var mask := netmask.bytes;
      var net := And(network.bytes, mask);
      var tries := (k: nat) => Host(net, mask, draw(k));
      var fits := ip => Fits4(taken, net, mask, answers, ip);
      PickFails(0, tries, fits);
      var x := Pick(0, tries, fits);
      if x.Some? {
        var k: nat :| k < MAX_IP_TRIES && x == Some(tries(k));
        HostInNetwork(network.bytes, mask, draw(k));
      }
    }
  }

  /** The search of the pool fails exactly when none of its 16 tries may be leased. */
  lemma Lease4Exhaustive(taken: set<Address>, network: Quad, mask: Quad, draw: nat -> Quad, answers: Address -> bool)
    ensures var net := And(network, mask);
      Lease4(taken, Bytes(network), Bytes(mask), Absent, draw, answers).Refused?
      <==> forall k | 0 <= k < 16 :: !Fits4(taken, net, mask, answers, Host(net, mask, draw(k)))
  {
    var net := And(network, mask);
    var tries, fits := (k: nat) => Host(net, mask, draw(k)), ip => Fits4(taken, net, mask, answers, ip);
    PickFails(0, tries, fits);
    forall k: nat ensures fits(tries(k)) == Fits4(taken, net, mask, answers, Host(net, mask, draw(k))) {
    }
  }

  /** The pool leases the first try that may be leased, and remembers that it came from the pool. */
  lemma Lease4FromPool(taken: set<Address>, network: Quad, mask: Quad, draw: nat -> Quad, answers: Address -> bool, k: nat)
    requires var net := And(network, mask);
      && k < 16 && Fits4(taken, net, mask, answers, Host(net, mask, draw(k)))
      && forall i: nat | i < k :: !Fits4(taken, net, mask, answers, Host(net, mask, draw(i)))
    ensures var net := And(network, mask);
      Lease4(taken, Bytes(network), Bytes(mask), Absent, draw, answers)
      == Leased(Host(net, mask, draw(k)), Local(net), Host(net, mask, draw(k)), 0, true)
  {
    hide And, Host, Fits4, Local;
    var net := And(network, mask);
    var tries, fits := (i: nat) => Host(net, mask, draw(i)), ip => Fits4(taken, net, mask, answers, ip);
    PickFirst(0, tries, fits, k);
  }

  /** An address asked for is leased, and not counted to the pool, exactly when it is not in the table and
      is neither the network, nor the broadcast, nor the server's own address. */
  lemma Lease4Explicit(taken: set<Address>, network: Quad, mask: Quad, ip: Quad, draw: nat -> Quad, answers: Address -> bool)
    ensures var net := And(network, mask);
      Lease4(taken, Bytes(network), Bytes(mask), Bytes(ip), draw, answers)
      == if ip !in taken && ip != net && ip != Broadcast(net, mask) && ip != Local(net)
         then Leased(ip, Local(net), ip, 0, false) else Refused
  {
  }

  /** Without a network or a mask there is no lease and no error; one that cannot be read is an error. */
  lemma Lease4Unset(taken: set<Address>, network: Given<Quad>, netmask: Given<Quad>, explicit: Given<Quad>,
                    draw: nat -> Quad, answers: Address -> bool)
    ensures var o := Lease4(taken, network, netmask, explicit, draw, answers);
      && (o.NoLease? <==> network.Absent? || netmask.Absent?)
      && (!o.NoLease? && (network.Unreadable? || netmask.Unreadable? || explicit.Unreadable?) ==> o.Refused?)
  {
    hide And, Pick4, Broadcast, Local;
  }

  // ----- IPv6

  predicate Vacant6(taken: set<Address>, net: Wide, sig: Address) {
    sig != net && sig !in taken
  }

  predicate Fits6(taken: set<Address>, net: Wide, subnet: Wide, ip: Address) {
    |ip| == 16 && Vacant6(taken, net, And(ip, subnet))
  }

  function Pick6(taken: set<Address>, net: Wide, mask: Wide, subnet: Wide, draw: nat -> Wide): (r: Option<Address>)
    ensures r.Some? ==> |r.value| == 16
  {
    Pick(0, (k: nat) => Host(net, mask, draw(k)), ip => Fits6(taken, net, subnet, ip))
  }

  /** What get_ipv6_lease ends in.  No address is pinged: the test that leads there reads the prefix of
      the lease before it is set. */
  function Lease6(taken: set<Address>, network: Given<Wide>, prefix: nat, subnetPrefix: nat, explicit: Given<Wide>,
                  draw: nat -> Wide): Outcome
  {
    if network.Absent? || prefix == 0 || subnetPrefix == 0 then NoLease
    else if prefix > 128 || subnetPrefix > 128 || network.Unreadable? || explicit.Unreadable? then Refused
    else
      var mask, subnet := PrefixMask(prefix), PrefixMask(subnetPrefix);
      var net := And(network.bytes, mask);
      var x := if explicit.Bytes? then
                 if Vacant6(taken, net, And(explicit.bytes, subnet)) then Some(explicit.bytes) else None
               else
                 Pick6(taken, net, mask, subnet, draw);
      if x.Some? then Leased(x.value, Local(net), And(x.value, subnet), subnetPrefix, explicit.Absent?) else Refused
  }

  method Try6(taken: set<Address>, net: Wide, mask: Wide, subnet: Wide, raw: Wide)
    returns (ip: Wide, sig: Wide, ok: bool)
    ensures ip == Host(net, mask, raw) && sig == And(ip, subnet)
    ensures ok <==> Vacant6(taken, net, sig)
  {
    var rnd := new Byte[16](i requires 0 <= i < 16 => raw[i]);
    assert rnd[..] == raw;
    AndNotInto(rnd, mask);
    OrInto(rnd, net);
    ip := rnd[..];
    AndInto(rnd, subnet);
    sig := rnd[..];
    ok := sig != net && sig !in taken;
  }

  /** The search of the pool. */
  method Search6(taken: set<Address>, net: Wide, mask: Wide, subnet: Wide, draw: nat -> Wide) returns (x: Option<Address>)
    ensures x == Pick6(taken, net, mask, subnet, draw)
  {
    hide Host, And, Vacant6;
    ghost var tries := (k: nat) => Host(net, mask, draw(k));
    ghost var fits := ip => Fits6(taken, net, subnet, ip);
    var ip, sig, ok;
    var maxLoops: nat := MAX_IP_TRIES;
    while true
      invariant maxLoops <= MAX_IP_TRIES
      invariant Pick(MAX_IP_TRIES - maxLoops, tries, fits) == Pick(0, tries, fits)
      decreases maxLoops
    {
      if maxLoops == 0 {
        return None;
      }
      ip, sig, ok := Try6(taken, net, mask, subnet, draw(MAX_IP_TRIES - maxLoops));
      assert ip == tries(MAX_IP_TRIES - maxLoops) && ok == fits(ip);
      maxLoops := maxLoops - 1;
      if ok {
        return Some(ip);
      }
    }
  }

  /** get_ipv6_lease. */
  method GetIpv6Lease(taken: set<Address>, network: Given<Wide>, prefix: nat, subnetPrefix: nat, explicit: Given<Wide>,
                      draw: nat -> Wide) returns (o: Outcome)
    ensures o == Lease6(taken, network, prefix, subnetPrefix, explicit, draw)
  {
    hide And, PrefixMask, Pick6, Local;
    if network.Absent? || prefix == 0 || subnetPrefix == 0 {
      return NoLease;
    }
    var in6 := new Byte[16];
    var ok := PrefixToMask(in6, prefix);
    if !ok {
      return Refused;
    }
    var mask: Wide := in6[..];
    ok := PrefixToMask(in6, subnetPrefix);
    if !ok {
      return Refused;
    }
    var subnet: Wide := in6[..];
    if network.Unreadable? {
      return Refused;
    }
    var masked := new Byte[16](i requires 0 <= i < 16 => network.bytes[i]);
    assert masked[..] == network.bytes;
    AndInto(masked, mask);
    var net: Wide := masked[..];
    if !explicit.Absent? {
      if explicit.Unreadable? {
        return Refused;
      }
      var sig := And(explicit.bytes, subnet);
      if sig == net || sig in taken {
        return Refused;
      }
      return Leased(explicit.bytes, Local(net), sig, subnetPrefix, false);
    }
    var x := Search6(taken, net, mask, subnet, draw);
    return if x.Some? then Leased(x.value, Local(net), And(x.value, subnet), subnetPrefix, true) else Refused;
  }

  /** An IPv6 lease is recorded by its subnet, which is neither in the table nor the network itself; a
      lease from the pool lies in the network. */
  lemma Lease6Sound(taken: set<Address>, network: Given<Wide>, prefix: nat, subnetPrefix: nat, explicit: Given<Wide>,
                    draw: nat -> Wide)
    ensures var o := Lease6(taken, network, prefix, subnetPrefix, explicit, draw);
      o.Leased? ==>
        var net := And(network.bytes, PrefixMask(prefix));
        && |o.rip| == 16 && o.sig == And(o.rip, PrefixMask(subnetPrefix)) && o.sig !in taken && o.sig != net
        && o.lip == Local(net) && o.prefix == subnetPrefix
        && (o.pooled ==> And(o.rip, PrefixMask(prefix)) == net)
  {
    hide And, Host, PrefixMask, Pick, Broadcast, Local;
    if network.Bytes? && explicit.Absent? && 0 < prefix <= 128 && 0 < subnetPrefix <= 128 {
      var mask, subnet := PrefixMask(prefix), PrefixMask(subnetPrefix);
      var net := And(network.bytes, mask);
      var tries := (k: nat) => Host(net, mask, draw(k));
      var fits := ip => Fits6(taken, net, subnet, ip);
      PickFails(0, tries, fits);
      var x := Pick(0, tries, fits);
      if x.Some? {
        var k: nat :| k < MAX_IP_TRIES && x == Some(tries(k));
        HostInNetwork(network.bytes, mask, draw(k));
      }
    }
  }

  /** The pool leases the first try whose subnet is vacant, and remembers that it came from the pool. */
  lemma Lease6FromPool(taken: set<Address>, network: Wide, prefix: nat, subnetPrefix: nat, draw: nat -> Wide, k: nat)
    requires 0 < prefix <= 128 && 0 < subnetPrefix <= 128
    requires var mask, subnet := PrefixMask(prefix), PrefixMask(subnetPrefix);
      var net := And(network, mask);
      && k < 16 && Fits6(taken, net, subnet, Host(net, mask, draw(k)))
      && forall i: nat | i < k :: !Fits6(taken, net, subnet, Host(net, mask, draw(i)))
    ensures var mask, subnet := PrefixMask(prefix), PrefixMask(subnetPrefix);
      var net := And(network, mask);
      var ip := Host(net, mask, draw(k));
      Lease6(taken, Bytes(network), prefix, subnetPrefix, Absent, draw)
      == Leased(ip, Local(net), And(ip, subnet), subnetPrefix, true)
  {
    hide And, Host, Fits6, Local, PrefixMask;
    var mask, subnet := PrefixMask(prefix), PrefixMask(subnetPrefix);
    var net := And(network, mask);
    var tries, fits := (i: nat) => Host(net, mask, draw(i)), ip => Fits6(taken, net, subnet, ip);
    PickFirst(0, tries, fits, k);
  }

  /** An address asked for is leased, and not counted to the pool, exactly when its subnet is not in the
      table and not the network's own. */
  lemma Lease6Explicit(taken: set<Address>, network: Wide, prefix: nat, subnetPrefix: nat, ip: Wide, draw: nat -> Wide)
    requires 0 < prefix <= 128 && 0 < subnetPrefix <= 128
    ensures var net, sig := And(network, PrefixMask(prefix)), And(ip, PrefixMask(subnetPrefix));
      Lease6(taken, Bytes(network), prefix, subnetPrefix, Bytes(ip), draw)
      == if sig !in taken && sig != net then Leased(ip, Local(net), sig, subnetPrefix, false) else Refused
  {
    hide And, Local, PrefixMask;
  }

  /** Without a network or a prefix there is no lease and no error; an impossible prefix, or an address
      that cannot be read, is an error. */
  lemma Lease6Unset(taken: set<Address>, network: Given<Wide>, prefix: nat, subnetPrefix: nat, explicit: Given<Wide>,
                    draw: nat -> Wide)
    ensures var o := Lease6(taken, network, prefix, subnetPrefix, explicit, draw);
      && (o.NoLease? <==> network.Absent? || prefix == 0 || subnetPrefix == 0)
      && (!o.NoLease? && (prefix > 128 || subnetPrefix > 128 || network.Unreadable? || explicit.Unreadable?) ==> o.Refused?)
  {
    hide And, Pick6, Local, PrefixMask;
  }

  lemma Lease6Exhaustive(taken: set<Address>, network: Wide, prefix: nat, subnetPrefix: nat, draw: nat -> Wide)
    requires 0 < prefix <= 128 && 0 < subnetPrefix <= 128
    ensures var mask, subnet := PrefixMask(prefix), PrefixMask(subnetPrefix);
      var net := And(network, mask);
      Lease6(taken, Bytes(network), prefix, subnetPrefix, Absent, draw).Refused?
      <==> forall k | 0 <= k < 16 :: !Fits6(taken, net, subnet, Host(net, mask, draw(k)))
  {
    var mask, subnet := PrefixMask(prefix), PrefixMask(subnetPrefix);
    var net := And(network, mask);
    var tries, fits := (k: nat) => Host(net, mask, draw(k)), ip => Fits6(taken, net, subnet, ip);
    PickFails(0, tries, fits);
    forall k: nat ensures fits(tries(k)) == Fits6(taken, net, subnet, Host(net, mask, draw(k))) {
    }
  }

  lemma LocalMasked(net: Wide, prefix: nat)
    ensures prefix < 128 ==> And(Local(net), PrefixMask(prefix)) == And(net, PrefixMask(prefix))
    ensures prefix == 128 ==> forall a: Wide :: And(a, PrefixMask(prefix)) == a
  {
    if prefix < 128 {
      forall k | 0 <= k < 16 ensures Local(net)[k] & PrefixMask(prefix)[k] == net[k] & PrefixMask(prefix)[k] {
        LowBitMasked(net[k], prefix - 8 * k);
      }
    } else if prefix == 128 {
      forall a: Wide ensures And(a, PrefixMask(prefix)) == a {
        forall k | 0 <= k < 16 ensures a[k] & PrefixMask(prefix)[k] == a[k] {
        }
      }
    }
  }

  lemma LowBitMasked(x: Byte, i: int)
    ensures i < 8 ==> (x | 1) & MaskByte(i) == x & MaskByte(i)
  {
  }

  /** The server's own address is outside a subnet leased from the pool exactly when the subnets are
      smaller than the network and, for single addresses, the lease is not that very address. */
  lemma LocalOutsideSubnet(taken: set<Address>, network: Given<Wide>, prefix: nat, subnetPrefix: nat, draw: nat -> Wide)
    ensures var o := Lease6(taken, network, prefix, subnetPrefix, Absent, draw);
      o.Leased? ==>
        (And(o.lip, PrefixMask(subnetPrefix)) != o.sig
         <==> prefix < subnetPrefix && (subnetPrefix < 128 || o.rip != o.lip))
  {
    var o := Lease6(taken, network, prefix, subnetPrefix, Absent, draw);
    if o.Leased? {
      var net := And(network.bytes, PrefixMask(prefix));
      Lease6Sound(taken, network, prefix, subnetPrefix, Absent, draw);
      LocalMasked(net, subnetPrefix);
      if prefix < subnetPrefix {
        MasksNest(network.bytes, prefix, subnetPrefix);
      } else {
        MasksNest(o.rip, subnetPrefix, prefix);
      }
    }
  }

  /** When the first try will do, it is leased. */
  lemma FirstTry6(taken: set<Address>, n: Wide, prefix: nat, subnetPrefix: nat, raw: Wide)
    requires 0 < prefix <= 128 && 0 < subnetPrefix <= 128
    requires var net := And(n, PrefixMask(prefix));
             Vacant6(taken, net, And(Host(net, PrefixMask(prefix), raw), PrefixMask(subnetPrefix)))
    ensures var net := And(n, PrefixMask(prefix));
            var ip := Host(net, PrefixMask(prefix), raw);
            Lease6(taken, Bytes(n), prefix, subnetPrefix, Absent, _ => raw)
            == Leased(ip, Local(net), And(ip, PrefixMask(subnetPrefix)), subnetPrefix, true)
  {
  }

  lemma LocalHostByte(n: Wide, prefix: nat, k: nat)
    requires prefix < 128 && k < 16
    ensures var net: Wide := And(n, PrefixMask(prefix));
            && Host(net, PrefixMask(prefix), Local(net))[k] == Local(net)[k]
            && (k == 15 ==> Local(net)[k] != net[k])
  {
    hide MaskByte;
    LocalByte(n[k], prefix - 8 * k);
  }

  /** The server's own address is an address of the network, other than the network itself. */
  lemma LocalIsHost(n: Wide, prefix: nat)
    requires prefix < 128
    ensures var net: Wide := And(n, PrefixMask(prefix));
            Host(net, PrefixMask(prefix), Local(net)) == Local(net) != net
  {
    hide And, PrefixMask, Host, Local;
    var mask := PrefixMask(prefix);
    var net: Wide := And(n, mask);
    forall k | 0 <= k < 16
      ensures Host(net, mask, Local(net))[k] == Local(net)[k]
      ensures k == 15 ==> Local(net)[k] != net[k]
    {
      LocalHostByte(n, prefix, k);
    }
    assert Local(net)[15] != net[15];
  }

  lemma LocalByte(n: Byte, i: int)
    ensures var x := n & MaskByte(i);
            && (x & !MaskByte(i)) | x == x
            && (i < 8 ==> ((x | 1) & !MaskByte(i)) | x == x | 1 && x | 1 != x)
  {
  }

  /** Whatever is leased and whatever is drawn, no subnet leased from the pool has the server's own
      address in it. */
  ghost predicate LocalKeptOut(network: Wide, prefix: nat, subnetPrefix: nat) {
    forall taken: set<Address>, draw: nat -> Wide ::
      var o := Lease6(taken, Bytes(network), prefix, subnetPrefix, Absent, draw);
      o.Leased? ==> And(o.lip, PrefixMask(subnetPrefix)) != o.sig
  }

  /** The configurations that keep the server's own address out of the leased subnets: those whose
      subnets are smaller than the network but more than one address, and those that lease nothing, as
      every draw gives the network itself. */
  predicate KeepsLocalOut(network: Wide, prefix: nat, subnetPrefix: nat) {
    var net := And(network, PrefixMask(prefix));
    || prefix < subnetPrefix < 128
    || (subnetPrefix <= prefix && And(net, PrefixMask(subnetPrefix)) == net)
  }

  /** A subnet at least as large as the network is the same for every draw. */
  lemma WideSubnetFixed(network: Wide, prefix: nat, subnetPrefix: nat, raw: Wide)
    requires subnetPrefix <= prefix
    ensures var mask := PrefixMask(prefix);
            var net := And(network, mask);
            And(Host(net, mask, raw), PrefixMask(subnetPrefix)) == And(net, PrefixMask(subnetPrefix))
  {
    var mask := PrefixMask(prefix);
    var net := And(network, mask);
    HostInNetwork(network, mask, raw);
    MasksNest(Host(net, mask, raw), subnetPrefix, prefix);
  }

  /** A configuration that does not keep it out can lease a subnet with it inside, to the first comer. */
  lemma LocalGetsIn(network: Wide, prefix: nat, subnetPrefix: nat)
    requires 0 < prefix <= 128 && 0 < subnetPrefix <= 128 && !KeepsLocalOut(network, prefix, subnetPrefix)
    ensures var net := And(network, PrefixMask(prefix));
            var o := Lease6({}, Bytes(network), prefix, subnetPrefix, Absent, _ => Local(net));
            o.Leased? && And(o.lip, PrefixMask(subnetPrefix)) == o.sig
  {
    var net := And(network, PrefixMask(prefix));
    if prefix < subnetPrefix {
      LocalIsHost(network, prefix);
      LocalMasked(net, 128);
    } else {
      WideSubnetFixed(network, prefix, subnetPrefix, Local(net));
      LocalMasked(net, subnetPrefix);
    }
    FirstTry6({}, network, prefix, subnetPrefix, Local(net));
  }

  /** The server's own address stays out of every subnet leased from the pool exactly when the
      configured network and prefixes say so. */
  lemma LocalKeptOutExactly(network: Wide, prefix: nat, subnetPrefix: nat)
    requires 0 < prefix <= 128 && 0 < subnetPrefix <= 128
    ensures LocalKeptOut(network, prefix, subnetPrefix) <==> KeepsLocalOut(network, prefix, subnetPrefix)
  {
    hide And, Host, Pick;
    if KeepsLocalOut(network, prefix, subnetPrefix) {
      forall taken: set<Address>, draw: nat -> Wide
        ensures var o := Lease6(taken, Bytes(network), prefix, subnetPrefix, Absent, draw);
                o.Leased? ==> And(o.lip, PrefixMask(subnetPrefix)) != o.sig
      {
        KeptOut(taken, network, prefix, subnetPrefix, draw);
      }
    } else {
      LocalGetsIn(network, prefix, subnetPrefix);
    }
  }

  lemma KeptOut(taken: set<Address>, network: Wide, prefix: nat, subnetPrefix: nat, draw: nat -> Wide)
    requires 0 < prefix <= 128 && 0 < subnetPrefix <= 128 && KeepsLocalOut(network, prefix, subnetPrefix)
    ensures var o := Lease6(taken, Bytes(network), prefix, subnetPrefix, Absent, draw);
            o.Leased? ==> And(o.lip, PrefixMask(subnetPrefix)) != o.sig
  {
    if prefix < subnetPrefix {
      LocalOutsideSubnet(taken, Bytes(network), prefix, subnetPrefix, draw);
    } else {
      Lease6Exhaustive(taken, network, prefix, subnetPrefix, draw);
      forall k | 0 <= k < MAX_IP_TRIES
        ensures var mask, subnet := PrefixMask(prefix), PrefixMask(subnetPrefix);
                var net := And(network, mask);
                !Fits6(taken, net, subnet, Host(net, mask, draw(k)))
      {
        WideSubnetFixed(network, prefix, subnetPrefix, draw(k));
      }
    }
  }

  /** With subnets of one address the server's own address can be leased. */
  lemma LocalLeased()
    ensures var net: Wide := seq(16, _ => 0);
            var o := Lease6({}, Bytes(net), 64, 128, Absent, _ => net[15 := 1]);
            o.Leased? && o.pooled && o.rip == o.lip
  {
    var net: Wide := seq(16, _ => 0);
    var mask, raw: Wide := PrefixMask(64), net[15 := 1];
    assert And(net, mask) == net;
    assert Host(net, mask, raw) == raw == Local(net);
    LocalMasked(net, 128);
    FirstTry6({}, net, 64, 128, raw);
  }
}
