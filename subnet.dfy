/** Subnet inference: `calculate_subnet_info` (src/windows.rs:168-178) and the
    parts of the `ipnet` crate's `Ipv4Net` it relies on (`netmask`,
    `hostmask`, `broadcast`), over 32-bit words. */
module Subnet {
  import opened Types
  import opened Ipv4Text

  /** A prefix length that `Ipv4Net::new` accepts (a `u8` of at most 32). */
  type PrefixLen = n: bv8 | n <= 32

  /** `u32::from(Ipv4Addr)`: the octets read as a big-endian word. */
  function ToU32(o: Octets): bv32
  {
    (o[0] as bv32 << 24) | (o[1] as bv32 << 16) | (o[2] as bv32 << 8) | o[3] as bv32
  }

  /** `Ipv4Addr::from(u32)`: the big-endian octets of a word. */
  function FromU32(x: bv32): Octets
  {
    [(x >> 24) as byte, ((x >> 16) & 0xFF) as byte, ((x >> 8) & 0xFF) as byte, (x & 0xFF) as byte]
  }

  lemma OctetsRoundTrip(o: Octets)
    ensures FromU32(ToU32(o)) == o
  {
  }

  lemma WordRoundTrip(x: bv32)
    ensures ToU32(FromU32(x)) == x
  {
  }

  /** Bit `i` of a word, counting from the most significant bit (bit 0) as
      an address is written. */
  predicate Bit(x: bv32, i: bv8)
    requires i < 32
  {
    (x >> (31 - i)) & 1 == 1
  }

  /** `Ipv4Net::netmask`: `u32::MAX.checked_shl(32 - len).unwrap_or(0)`. */
  function NetMask(len: PrefixLen): bv32
  {
    if len == 0 then 0 else 0xFFFF_FFFF << (32 - len)
  }

  /** The netmask is contiguous: `len` one-bits followed by `32 - len` zero-bits. */
  lemma NetMaskContiguous(len: PrefixLen, i: bv8)
    requires i < 32
    ensures Bit(NetMask(len), i) <==> i < len
  {
  }

  /** `Ipv4Net::hostmask`: `u32::MAX.checked_shr(len).unwrap_or(0)`. */
  function HostMask(len: PrefixLen): bv32
  {
    if len == 32 then 0 else 0xFFFF_FFFF >> len
  }

  /** The hostmask is the complement of the netmask. */
  lemma HostMaskComplement(len: PrefixLen)
    ensures HostMask(len) == !NetMask(len)
  {
  }

  /** `Ipv4Net::network`: the address with its host bits cleared. */
  function Network(addr: bv32, len: PrefixLen): bv32
  {
    addr & NetMask(len)
  }

  /** `Ipv4Net::broadcast`: the address with its host bits set. */
  function Broadcast(addr: bv32, len: PrefixLen): bv32
  {
    addr | HostMask(len)
  }

  /** `Ipv4Net::new` keeps the address as given; its broadcast is still that of
      the network it lies in. */
  lemma BroadcastOfNetwork(addr: bv32, len: PrefixLen)
    ensures Broadcast(Network(addr, len), len) == Broadcast(addr, len)
  {
  }

  lemma {:induction false} NetMaskInjective(len1: PrefixLen, len2: PrefixLen)
    requires NetMask(len1) == NetMask(len2)
    ensures len1 == len2
  {
    if len1 < len2 {
      NetMaskContiguous(len1, len1);
      NetMaskContiguous(len2, len1);
    } else if len2 < len1 {
      NetMaskContiguous(len1, len2);
      NetMaskContiguous(len2, len2);
    }
  }

  /** `len` is the longest prefix length whose broadcast from `addr` is `bcast`. */
  ghost predicate IsLongestMatch(addr: bv32, bcast: bv32, len: PrefixLen)
  {
    Broadcast(addr, len) == bcast
    && forall k: PrefixLen | len < k :: Broadcast(addr, k) != bcast
  }

  /** The loop of `calculate_subnet_info`: try `len`, `len - 1`, ..., 0 and stop
      at the first length whose broadcast is `bcast`. */
  function LongestPrefix(addr: bv32, bcast: bv32, len: PrefixLen): (r: Option<PrefixLen>)
    ensures r.Some? ==> r.value <= len && Broadcast(addr, r.value) == bcast
    ensures r.Some? ==> forall k: PrefixLen | r.value < k <= len :: Broadcast(addr, k) != bcast
    ensures r.None? <==> forall k: PrefixLen | k <= len :: Broadcast(addr, k) != bcast
    decreases len as int
  {
    if Broadcast(addr, len) == bcast then Some(len)
    else if len == 0 then None
    else LongestPrefix(addr, bcast, len - 1)
  }

  /** The dotted-decimal netmask of a prefix length, `net.netmask().to_string()`. */
  function MaskText(len: PrefixLen): string
  {
    Format(FromU32(NetMask(len)))
  }

  lemma MaskTextInjective(len1: PrefixLen, len2: PrefixLen)
    requires MaskText(len1) == MaskText(len2)
    ensures len1 == len2
  {
    FormatInjective(FromU32(NetMask(len1)), FromU32(NetMask(len2)));
    NetMaskInjective(len1, len2);
  }

  /** `calculate_subnet_info(network, broadcast)`. Both strings are parsed with
      `unwrap`, so a malformed one is a panic; otherwise the result is the
      netmask text of the longest matching prefix length, or `None`. */
  function CalculateSubnetInfo(network: string, broadcast: string): (r: Result<Option<string>>)
    ensures r.Err? <==> Parse(network).None? || Parse(broadcast).None?
    ensures r.Err? ==> r.panic == UnparsableAddress
  {
    match Parse(network)
    case None => Err(UnparsableAddress)
    case Some(net) =>
      match Parse(broadcast)
      case None => Err(UnparsableAddress)
      case Some(bcast) =>
        match LongestPrefix(ToU32(net), ToU32(bcast), 32)
        case Some(len) => Ok(Some(MaskText(len)))
        case None => Ok(None)
  }

  /** The loop of `calculate_subnet_info` as written: parse the network
      address, then try prefix lengths 32 down to 0, parsing the broadcast
      address in each round, and return the netmask text of the first length
      whose broadcast matches. */
  method FindSubnetMask(network: string, broadcast: string) returns (r: Result<Option<string>>)
    ensures r == CalculateSubnetInfo(network, broadcast)
  {
    var networkAddr := Parse(network);
    if networkAddr.None? {
      return Err(UnparsableAddress);
    }
    var addr := ToU32(networkAddr.value);
    // `remaining` counts the lengths not yet tried: they are 0 .. remaining - 1.
    var remaining: bv8 := 33;
    while remaining > 0
      invariant remaining <= 33
      invariant remaining < 33 ==> Parse(broadcast).Some?
      invariant remaining < 33 ==>
                  LongestPrefix(addr, ToU32(Parse(broadcast).value), 32)
                    == if remaining == 0 then None
                       else LongestPrefix(addr, ToU32(Parse(broadcast).value), remaining - 1)
    {
      var len: PrefixLen := remaining - 1;
      // `Ipv4Net::new` accepts every length up to 32, so its `unwrap` never fires.
      var broadcastAddr := Parse(broadcast);
      if broadcastAddr.None? {
        return Err(UnparsableAddress);
      }
      var bcast := ToU32(broadcastAddr.value);
      if Broadcast(addr, len) == bcast {
        SubnetInfoSearch(network, broadcast);
        return Ok(Some(MaskText(len)));
      }
      remaining := remaining - 1;
    }
    SubnetInfoSearch(network, broadcast);
    return Ok(None);
  }

  /** What the search finds on well-formed input. */
  lemma SubnetInfoSearch(network: string, broadcast: string)
    requires Parse(network).Some? && Parse(broadcast).Some?
    ensures var found := LongestPrefix(ToU32(Parse(network).value), ToU32(Parse(broadcast).value), 32);
            CalculateSubnetInfo(network, broadcast)
              == if found.Some? then Ok(Some(MaskText(found.value))) else Ok(None)
  {
  }

  /** The search from 32 finds `len` exactly when `len` is the longest
      matching prefix length. */
  lemma LongestPrefixIsLongestMatch(addr: bv32, bcast: bv32, len: PrefixLen)
    ensures LongestPrefix(addr, bcast, 32) == Some(len) <==> IsLongestMatch(addr, bcast, len)
  {
    if IsLongestMatch(addr, bcast, len) {
      LongestMatchFound(addr, bcast, len);
    }
    if LongestPrefix(addr, bcast, 32) == Some(len) {
      FoundIsLongestMatch(addr, bcast, len);
    }
  }

  /** What the search finds is the longest match. */
  lemma FoundIsLongestMatch(addr: bv32, bcast: bv32, len: PrefixLen)
    requires LongestPrefix(addr, bcast, 32) == Some(len)
    ensures IsLongestMatch(addr, bcast, len)
  {
  }

  lemma LongestMatchFound(addr: bv32, bcast: bv32, len: PrefixLen)
    requires IsLongestMatch(addr, bcast, len)
    ensures LongestPrefix(addr, bcast, 32) == Some(len)
  {
    MatchIsFound(addr, bcast, len);
    var r := LongestPrefix(addr, bcast, 32).value;
    FoundNotShorter(addr, bcast, len);
    FoundNotLonger(addr, bcast, len, r);
  }

  /** A matching length means the search finds something. */
  lemma MatchIsFound(addr: bv32, bcast: bv32, len: PrefixLen)
    requires Broadcast(addr, len) == bcast
    ensures LongestPrefix(addr, bcast, 32).Some?
  {
  }

  /** What the search finds is no shorter than any matching length. */
  lemma FoundNotShorter(addr: bv32, bcast: bv32, len: PrefixLen)
    requires Broadcast(addr, len) == bcast && LongestPrefix(addr, bcast, 32).Some?
    ensures len <= LongestPrefix(addr, bcast, 32).value
  {
  }

  /** What the search finds matches, so it is no longer than the longest match. */
  lemma FoundNotLonger(addr: bv32, bcast: bv32, len: PrefixLen, r: PrefixLen)
    requires IsLongestMatch(addr, bcast, len) && LongestPrefix(addr, bcast, 32) == Some(r)
    ensures r <= len
  {
    assert Broadcast(addr, r) == bcast;
  }

  /** On well-formed input the result is the netmask of `len` exactly when
      `len` is the longest prefix length reproducing the broadcast. */
  lemma SubnetInfoIsLongestMatch(network: string, broadcast: string, len: PrefixLen)
    requires Parse(network).Some? && Parse(broadcast).Some?
    ensures CalculateSubnetInfo(network, broadcast) == Ok(Some(MaskText(len)))
        <==> IsLongestMatch(ToU32(Parse(network).value), ToU32(Parse(broadcast).value), len)
  {
    var addr, bcast := ToU32(Parse(network).value), ToU32(Parse(broadcast).value);
    var found := LongestPrefix(addr, bcast, 32);
    SubnetInfoSearch(network, broadcast);
    LongestPrefixIsLongestMatch(addr, bcast, len);
    if CalculateSubnetInfo(network, broadcast) == Ok(Some(MaskText(len))) {
      MaskTextInjective(found.value, len);
    }
  }

  /** On well-formed input there is no mask exactly when none of the 33 prefix
      lengths reproduces the broadcast. */
  lemma SubnetInfoNoMatch(network: string, broadcast: string)
    requires Parse(network).Some? && Parse(broadcast).Some?
    ensures CalculateSubnetInfo(network, broadcast) == Ok(None)
        <==> forall k: PrefixLen :: Broadcast(ToU32(Parse(network).value), k) != ToU32(Parse(broadcast).value)
  {
    SubnetInfoSearch(network, broadcast);
  }

  /** A network address set up with prefix length `len` (host bits zero) and
      its broadcast address give back the netmask of `len`: no longer prefix
      reproduces that broadcast. */
  lemma NetworkPrefixRecovered(net: Octets, len: PrefixLen)
    requires Network(ToU32(net), len) == ToU32(net)
    ensures CalculateSubnetInfo(Format(net), Format(FromU32(Broadcast(ToU32(net), len))))
         == Ok(Some(MaskText(len)))
  {
    var addr := ToU32(net);
    var bcast := FromU32(Broadcast(addr, len));
    ParseFormat(net);
    ParseFormat(bcast);
    WordRoundTrip(Broadcast(addr, len));
    forall k: PrefixLen | len < k
      ensures Broadcast(addr, k) != Broadcast(addr, len)
    {
      LongerPrefixNarrowsBroadcast(addr, len, k);
    }
    SubnetInfoIsLongestMatch(Format(net), Format(bcast), len);
  }

  /** Bit `len` separates the two broadcasts: it is a host bit for `len` (so
      set in the first) and a network bit for `k`, clear in `addr`. */
  lemma LongerPrefixNarrowsBroadcast(addr: bv32, len: PrefixLen, k: PrefixLen)
    requires Network(addr, len) == addr && len < k
    ensures Broadcast(addr, k) != Broadcast(addr, len)
  {
    assert Bit(Broadcast(addr, len), len);
    assert !Bit(Broadcast(addr, k), len);
  }

  lemma FormatOf(o: Octets, g0: string, g1: string, g2: string, g3: string)
    requires Decimal(o[0] as int) == g0 && Decimal(o[1] as int) == g1
    requires Decimal(o[2] as int) == g2 && Decimal(o[3] as int) == g3
    ensures Format(o) == g0 + "." + g1 + "." + g2 + "." + g3
  {
    JoinFour(g0, g1, g2, g3);
  }

  /** Four groups joined with dots. */
  lemma JoinFour(g0: string, g1: string, g2: string, g3: string)
    ensures Join([g0, g1, g2, g3]) == g0 + "." + g1 + "." + g2 + "." + g3
  {
    assert [g0, g1, g2, g3][1..] == [g1, g2, g3];
    assert [g1, g2, g3][1..] == [g2, g3];
    assert [g2, g3][1..] == [g3];
    assert Join([g2, g3]) == g2 + "." + g3;
    assert Join([g1, g2, g3]) == g1 + "." + (g2 + "." + g3);
  }

  lemma DecimalExamples()
    ensures Decimal(0) == "0" && Decimal(1) == "1" && Decimal(10) == "10"
    ensures Decimal(168) == "168" && Decimal(192) == "192" && Decimal(255) == "255"
  {
    assert Decimal(16) == "16";
    assert Decimal(19) == "19";
    assert Decimal(25) == "25";
  }

  lemma FormatNet(o: Octets)
    requires o == [192, 168, 1, 0]
    ensures Format(o) == "192.168.1.0"
  {
    DecimalExamples();
    FormatOf(o, "192", "168", "1", "0");
  }

  lemma FormatBcast(o: Octets)
    requires o == [192, 168, 1, 255]
    ensures Format(o) == "192.168.1.255"
  {
    DecimalExamples();
    FormatOf(o, "192", "168", "1", "255");
  }

  lemma FormatMask24(o: Octets)
    requires o == [255, 255, 255, 0]
    ensures Format(o) == "255.255.255.0"
  {
    DecimalExamples();
    FormatOf(o, "255", "255", "255", "0");
  }

  lemma FormatTenOne(o: Octets)
    requires o == [10, 0, 0, 1]
    ensures Format(o) == "10.0.0.1"
  {
    DecimalExamples();
    FormatOf(o, "10", "0", "0", "1");
  }

  lemma FormatNetOne(o: Octets)
    requires o == [192, 168, 1, 1]
    ensures Format(o) == "192.168.1.1"
  {
    DecimalExamples();
    FormatOf(o, "192", "168", "1", "1");
  }

  /** 192.168.1.0 with broadcast 192.168.1.255 gives the /24 netmask: the
      /25 to /32 networks of 192.168.1.0 all end below .255. */
  lemma ExampleClassC(network: string, broadcast: string)
    requires network == "192.168.1.0" && broadcast == "192.168.1.255"
    ensures CalculateSubnetInfo(network, broadcast) == Ok(Some("255.255.255.0"))
  {
    var net: Octets := [192, 168, 1, 0];
    var bcast: Octets := [192, 168, 1, 255];
    FormatNet(net);
    FormatBcast(bcast);
    FormatMask24(FromU32(NetMask(24)));
    assert Broadcast(ToU32(net), 24) == ToU32(bcast);
    OctetsRoundTrip(bcast);
    NetworkPrefixRecovered(net, 24);
  }

  /** 10.0.0.1 and 192.168.1.1 agree on no prefix: there is no mask. */
  lemma ExampleNoMatch(network: string, broadcast: string)
    requires network == "10.0.0.1" && broadcast == "192.168.1.1"
    ensures CalculateSubnetInfo(network, broadcast) == Ok(None)
  {
    var net: Octets := [10, 0, 0, 1];
    var bcast: Octets := [192, 168, 1, 1];
    FormatTenOne(net);
    FormatNetOne(bcast);
    ParseFormat(net);
    ParseFormat(bcast);
    forall k: PrefixLen
      ensures Broadcast(ToU32(net), k) != ToU32(bcast)
    {
      assert Bit(ToU32(net), 0) != Bit(ToU32(bcast), 0);
    }
    SubnetInfoNoMatch(network, broadcast);
  }
}
