/** Turning family-tagged socket addresses into text: `get_ipv4_addr` and
    `get_ip_addr` (src/windows.rs:140-166). Both push into vectors the caller
    owns through a `&mut` borrow; since such a borrow is exclusive, the model
    passes each vector in and returns its new value. */
module AddressDecoder {
  import opened Types
  import opened Ipv4Text

  /** Address family codes of the Windows socket headers. */
  const AF_INET: u16 := 2
  const AF_INET6: u16 := 23

  /** A `SOCKET_ADDRESS` as far as the code looks at it: its `sa_family` and
      the address bytes of the `SOCKADDR_IN` / `SOCKADDR_IN6` it is read as. */
  datatype Sockaddr = Sockaddr(family: u16, addr: seq<byte>)

  /** The layout the operating system guarantees: `sin_addr` holds four bytes,
      `sin6_addr` sixteen. */
  type SocketAddress = s: Sockaddr
    | (s.family == AF_INET ==> |s.addr| == 4) && (s.family == AF_INET6 ==> |s.addr| == 16)
    witness Sockaddr(0, [])

  /** `inet_ntop(AF_INET6, ..)`, which is not part of this model: the text of a
      16-byte IPv6 address. */
  type Ntop6 = seq<byte> -> string

  /** `get_ipv4_addr`: push the dotted-decimal text of an `AF_INET` address,
      ignore every other family. */
  method GetIpv4Addr(addr: SocketAddress, inAddr: seq<string>) returns (inAddr': seq<string>)
    ensures addr.family == AF_INET ==> inAddr' == inAddr + [Format(addr.addr)]
    ensures addr.family != AF_INET ==> inAddr' == inAddr
  {
    inAddr' := inAddr;
    if addr.family == AF_INET {
      inAddr' := inAddr' + [Format(addr.addr)];
    }
  }

  /** `get_ip_addr`: an `AF_INET` address goes to the first vector, an
      `AF_INET6` address to the second, any other family to neither; the
      vector of the other family never changes. */
  method GetIpAddr(addr: SocketAddress, inAddr: seq<string>, in6Addr: seq<string>, ntop6: Ntop6)
    returns (inAddr': seq<string>, in6Addr': seq<string>)
    ensures addr.family == AF_INET ==> inAddr' == inAddr + [Format(addr.addr)] && in6Addr' == in6Addr
    ensures addr.family == AF_INET6 ==> in6Addr' == in6Addr + [ntop6(addr.addr)] && inAddr' == inAddr
    ensures addr.family !in {AF_INET, AF_INET6} ==> inAddr' == inAddr && in6Addr' == in6Addr
    ensures |inAddr'| + |in6Addr'| <= |inAddr| + |in6Addr| + 1
  {
    inAddr', in6Addr' := inAddr, in6Addr;
    if addr.family == AF_INET {
      inAddr' := inAddr' + [Format(addr.addr)];
    }
    if addr.family == AF_INET6 {
      in6Addr' := in6Addr' + [ntop6(addr.addr)];
    }
  }

  /** The entries of `addrs` of the given family, in list order. */
  function OfFamily(addrs: seq<SocketAddress>, family: u16): (r: seq<SocketAddress>)
    ensures |r| <= |addrs|
    ensures forall i | 0 <= i < |r| :: r[i].family == family
  {
    if addrs == [] then []
    else
      var last := addrs[|addrs| - 1];
      OfFamily(addrs[..|addrs| - 1], family) + (if last.family == family then [last] else [])
  }

  /** Nothing of that family is dropped, and nothing else is kept. */
  lemma {:induction false} OfFamilyMembers(addrs: seq<SocketAddress>, family: u16, x: SocketAddress)
    ensures x in OfFamily(addrs, family) <==> x in addrs && x.family == family
  {
    if addrs != [] {
      var init := addrs[..|addrs| - 1];
      OfFamilyMembers(init, family, x);
      assert addrs == init + [addrs[|addrs| - 1]];
    }
  }

  /** What `get_ip_addr` leaves in its IPv4 vector after a walk over `addrs`
      that started from an empty vector. */
  function Ipv4Texts(addrs: seq<SocketAddress>): seq<string>
  {
    if addrs == [] then []
    else
      var last := addrs[|addrs| - 1];
      Ipv4Texts(addrs[..|addrs| - 1]) + (if last.family == AF_INET then [Format(last.addr)] else [])
  }

  /** What `get_ip_addr` leaves in its IPv6 vector after a walk over `addrs`. */
  function Ipv6Texts(addrs: seq<SocketAddress>, ntop6: Ntop6): seq<string>
  {
    if addrs == [] then []
    else
      var last := addrs[|addrs| - 1];
      Ipv6Texts(addrs[..|addrs| - 1], ntop6) + (if last.family == AF_INET6 then [ntop6(last.addr)] else [])
  }

  /** The IPv4 vector holds one text per `AF_INET` entry: the i-th text is
      that of the i-th such entry. */
  lemma {:induction false} Ipv4TextsOfFamily(addrs: seq<SocketAddress>)
    ensures |Ipv4Texts(addrs)| == |OfFamily(addrs, AF_INET)|
    ensures forall i | 0 <= i < |Ipv4Texts(addrs)| ::
      Ipv4Texts(addrs)[i] == Format(OfFamily(addrs, AF_INET)[i].addr)
  {
    if addrs != [] {
      Ipv4TextsOfFamily(addrs[..|addrs| - 1]);
    }
  }

  /** The IPv6 vector holds one text per `AF_INET6` entry, in the same order. */
  lemma {:induction false} Ipv6TextsOfFamily(addrs: seq<SocketAddress>, ntop6: Ntop6)
    ensures |Ipv6Texts(addrs, ntop6)| == |OfFamily(addrs, AF_INET6)|
    ensures forall i | 0 <= i < |Ipv6Texts(addrs, ntop6)| ::
      Ipv6Texts(addrs, ntop6)[i] == ntop6(OfFamily(addrs, AF_INET6)[i].addr)
  {
    if addrs != [] {
      Ipv6TextsOfFamily(addrs[..|addrs| - 1], ntop6);
    }
  }

  /** Every IPv4 text parses back to the address of its entry. */
  lemma Ipv4TextsParse(addrs: seq<SocketAddress>, i: nat)
    requires i < |OfFamily(addrs, AF_INET)|
    ensures |Ipv4Texts(addrs)| == |OfFamily(addrs, AF_INET)|
    ensures Parse(Ipv4Texts(addrs)[i]) == Some(OfFamily(addrs, AF_INET)[i].addr)
  {
    Ipv4TextsOfFamily(addrs);
    ParseFormat(OfFamily(addrs, AF_INET)[i].addr);
  }
}
