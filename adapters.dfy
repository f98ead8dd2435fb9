/** The adapter walk of `get_all_adapter_info` (src/windows.rs:54-138). The
    table that the second `GetAdaptersAddresses` call fills in is given as its
    status code and its adapters in list order; every pointer-linked list
    becomes a sequence in the same order. */
module Adapters {
  import opened Types
  import opened Ipv4Text
  import opened Subnet
  import opened WideString
  import opened AddressDecoder

  /** `NO_ERROR` from the Windows error headers. */
  const NO_ERROR: u32 := 0

  /** `IfOperStatusUp`, the `OperStatus` of an adapter that is up. */
  const IF_OPER_STATUS_UP: u32 := 1

  /** One `IP_ADAPTER_ADDRESSES` entry: the memory behind its string pointers
      (a null wide-string pointer is `None`), its `OperStatus`, and its
      unicast, gateway, DNS-server and prefix lists. */
  datatype RawAdapter = RawAdapter(
    adapterName: seq<byte>,
    friendlyName: Option<seq<u16>>,
    description: Option<seq<u16>>,
    operStatus: u32,
    unicast: seq<SocketAddress>,
    gateways: seq<SocketAddress>,
    dnsServers: seq<SocketAddress>,
    prefixes: seq<SocketAddress>)

  /** The library conversions the walk calls and this model does not contain:
      `inet_ntop` for IPv6, `OsString::into_string` for UTF-16 text and
      `CStr::to_string_lossy` for the adapter name. */
  datatype Platform = Platform(
    ntop6: Ntop6,
    decodeWide: seq<u16> -> Option<string>,
    decodeLossy: seq<byte> -> string)

  /** `AdapterInfo`, the record built for each adapter. */
  datatype AdapterInfo = AdapterInfo(
    adapterName: string,
    friendlyName: string,
    description: string,
    state: u32,
    inAddr: seq<string>,
    in6Addr: seq<string>,
    inGwAddr: seq<string>,
    in6GwAddr: seq<string>,
    inDnsAddr: seq<string>,
    in6DnsAddr: seq<string>,
    ipMask: string)

  /** The `addr_list` of IPv4 prefix texts, collected only from an adapter
      that is up. */
  function PrefixAddresses(a: RawAdapter): seq<string>
  {
    if a.operStatus == IF_OPER_STATUS_UP then Ipv4Texts(a.prefixes) else []
  }

  /** The `ip_mask` of the record: derived from the first and third prefix
      texts when more than two were collected, and `unwrap`ped, so that no
      matching prefix length is a panic. */
  function MaskOf(addrList: seq<string>): Result<string>
  {
    if |addrList| > 2 then
      match CalculateSubnetInfo(addrList[0], addrList[2])
      case Err(e) => Err(e)
      case Ok(None) => Err(NoMatchingPrefix)
      case Ok(Some(mask)) => Ok(mask)
    else Ok("")
  }

  /** The record the loop body builds for one adapter, or the panic that
      stops it. Fields are produced in the source's order: the names, then
      the address lists, then the mask. */
  function AdapterRecord(a: RawAdapter, env: Platform): Result<AdapterInfo>
  {
    var friendlyName :- PwcharToString(a.friendlyName, env.decodeWide);
    var description :- PwcharToString(a.description, env.decodeWide);
    var ipMask :- MaskOf(PrefixAddresses(a));
    Ok(AdapterInfo(
      env.decodeLossy(Terminated(a.adapterName, 0)), friendlyName, description, a.operStatus,
      Ipv4Texts(a.unicast), Ipv6Texts(a.unicast, env.ntop6),
      Ipv4Texts(a.gateways), Ipv6Texts(a.gateways, env.ntop6),
      Ipv4Texts(a.dnsServers), Ipv6Texts(a.dnsServers, env.ntop6),
      ipMask))
  }

  /** Apply `f` to each element in order, collecting the values; the first
      panic ends the walk. */
  function WalkAll<A, B>(xs: seq<A>, f: A -> Result<B>): Result<seq<B>>
  {
    if xs == [] then Ok([])
    else
      var init :- WalkAll(xs[..|xs| - 1], f);
      var last :- f(xs[|xs| - 1]);
      Ok(init + [last])
  }

  /** A walk succeeds exactly when every step does, and then it holds one
      value per element, in order. */
  lemma {:induction false} WalkAllOk<A, B>(xs: seq<A>, f: A -> Result<B>)
    ensures WalkAll(xs, f).Ok? <==> forall k | 0 <= k < |xs| :: f(xs[k]).Ok?
    ensures WalkAll(xs, f).Ok? ==>
              |WalkAll(xs, f).value| == |xs|
              && forall k | 0 <= k < |xs| :: f(xs[k]) == Ok(WalkAll(xs, f).value[k])
  {
    if xs != [] {
      var init := xs[..|xs| - 1];
      WalkAllOk(init, f);
      assert forall k | 0 <= k < |init| :: init[k] == xs[k];
    }
  }

  /** A panic in the walk over a prefix is the panic of the whole walk. */
  lemma {:induction false} WalkAllPanic<A, B>(xs: seq<A>, n: nat, f: A -> Result<B>)
    requires n <= |xs|
    requires WalkAll(xs[..n], f).Err?
    ensures WalkAll(xs, f) == WalkAll(xs[..n], f)
    decreases |xs| - n
  {
    if n < |xs| {
      assert xs[..n + 1][..n] == xs[..n];
      WalkAllPanic(xs, n + 1, f);
    } else {
      assert xs[..n] == xs;
    }
  }

  /** One more step of a walk over a prefix of `xs`. */
  lemma WalkAllStep<A, B>(xs: seq<A>, n: nat, f: A -> Result<B>)
    requires n < |xs| && WalkAll(xs[..n], f).Ok? && f(xs[n]).Ok?
    ensures WalkAll(xs[..n + 1], f) == Ok(WalkAll(xs[..n], f).value + [f(xs[n]).value])
  {
    assert xs[..n + 1][..n] == xs[..n];
  }

  /** The walk stops with the panic of the first failing step. */
  lemma WalkAllFirstPanic<A, B>(xs: seq<A>, k: nat, f: A -> Result<B>)
    requires k < |xs| && f(xs[k]).Err?
    requires forall j | 0 <= j < k :: f(xs[j]).Ok?
    ensures WalkAll(xs, f) == Err(f(xs[k]).panic)
  {
    var done := xs[..k];
    WalkAllOk(done, f);
    assert xs[..k + 1][..k] == done;
    WalkAllPanic(xs, k + 1, f);
  }

  /** The records of a walk over `adapters`. */
  function AdapterRecords(adapters: seq<RawAdapter>, env: Platform): Result<seq<AdapterInfo>>
  {
    WalkAll(adapters, (a: RawAdapter) => AdapterRecord(a, env))
  }

  /** The outcome of `get_all_adapter_info` for a given second-call status and
      adapter table. An empty table with `NO_ERROR` is admitted and gives no
      records, although the source's walk always starts at a non-null head. */
  function Enumeration(status: u32, adapters: seq<RawAdapter>, env: Platform): Result<seq<AdapterInfo>>
  {
    if status != NO_ERROR then Err(QueryFailed(status)) else AdapterRecords(adapters, env)
  }

  /** One of the first three inner loops of `get_all_adapter_info`: walk an
      address list and let `get_ip_addr` push each entry into the record's
      IPv4 or IPv6 vector, both empty at the start. */
  method WalkAddressList(addrs: seq<SocketAddress>, ntop6: Ntop6)
    returns (inAddr: seq<string>, in6Addr: seq<string>)
    ensures inAddr == Ipv4Texts(addrs) && in6Addr == Ipv6Texts(addrs, ntop6)
  {
    inAddr, in6Addr := [], [];
    var i := 0;
    while i < |addrs|
      invariant i <= |addrs|
      invariant inAddr == Ipv4Texts(addrs[..i]) && in6Addr == Ipv6Texts(addrs[..i], ntop6)
    {
      assert addrs[..i + 1][..i] == addrs[..i];
      inAddr, in6Addr := GetIpAddr(addrs[i], inAddr, in6Addr, ntop6);
      i := i + 1;
    }
    assert addrs[..i] == addrs;
  }

  /** The prefix loop: collect the IPv4 prefix texts, only when the adapter
      is up. */
  method WalkPrefixList(adapter: RawAdapter) returns (addrList: seq<string>)
    ensures addrList == PrefixAddresses(adapter)
  {
    addrList := [];
    var i := 0;
    while i < |adapter.prefixes|
      invariant i <= |adapter.prefixes|
      invariant addrList == if adapter.operStatus == IF_OPER_STATUS_UP
                            then Ipv4Texts(adapter.prefixes[..i]) else []
    {
      assert adapter.prefixes[..i + 1][..i] == adapter.prefixes[..i];
      var addr := adapter.prefixes[i];
      if addr.family == AF_INET && adapter.operStatus == IF_OPER_STATUS_UP {
        addrList := GetIpv4Addr(addr, addrList);
      }
      i := i + 1;
    }
    assert adapter.prefixes[..i] == adapter.prefixes;
  }

  /** The body of the adapter loop: build the record of one adapter, which
      starts with empty vectors and an empty mask. */
  method CollectAdapterInfo(adapter: RawAdapter, env: Platform) returns (r: Result<AdapterInfo>)
    ensures r == AdapterRecord(adapter, env)
  {
    var friendlyName := PwcharToString(adapter.friendlyName, env.decodeWide);
    if friendlyName.Err? {
      return Err(friendlyName.panic);
    }
    var description := PwcharToString(adapter.description, env.decodeWide);
    if description.Err? {
      return Err(description.panic);
    }
    var info := AdapterInfo(
      env.decodeLossy(Terminated(adapter.adapterName, 0)), friendlyName.value, description.value,
      adapter.operStatus, [], [], [], [], [], [], "");
    var v4, v6 := WalkAddressList(adapter.unicast, env.ntop6);
    info := info.(inAddr := v4, in6Addr := v6);
    v4, v6 := WalkAddressList(adapter.gateways, env.ntop6);
    info := info.(inGwAddr := v4, in6GwAddr := v6);
    v4, v6 := WalkAddressList(adapter.dnsServers, env.ntop6);
    info := info.(inDnsAddr := v4, in6DnsAddr := v6);
    var addrList := WalkPrefixList(adapter);
    if |addrList| > 2 {
      var subnet := FindSubnetMask(addrList[0], addrList[2]);
      if subnet.Err? {
        return Err(subnet.panic);
      }
      if subnet.value.None? {
        return Err(NoMatchingPrefix);
      }
      info := info.(ipMask := subnet.value.value);
    }
    return Ok(info);
  }

  /** `get_all_adapter_info`: fail on a second-call status other than
      `NO_ERROR`, otherwise build one record per adapter, in list order. */
  method GetAllAdapterInfo(status: u32, adapters: seq<RawAdapter>, env: Platform)
    returns (r: Result<seq<AdapterInfo>>)
    ensures r == Enumeration(status, adapters, env)
  {
    if status != NO_ERROR {
      return Err(QueryFailed(status));
    }
    ghost var f := (a: RawAdapter) => AdapterRecord(a, env);
    var adapterInfoList: seq<AdapterInfo> := [];
    var n := 0;
    while n < |adapters|
      invariant n <= |adapters|
      invariant WalkAll(adapters[..n], f) == Ok(adapterInfoList)
    {
      var info := CollectAdapterInfo(adapters[n], env);
      if info.Err? {
        assert adapters[..n + 1][..n] == adapters[..n];
        WalkAllPanic(adapters, n + 1, f);
        return Err(info.panic);
      }
      WalkAllStep(adapters, n, f);
      adapterInfoList := adapterInfoList + [info.value];
      n := n + 1;
    }
    assert adapters[..n] == adapters;
    return Ok(adapterInfoList);
  }

  /** A second-call status other than `NO_ERROR` aborts with that code and
      yields no record at all. */
  lemma EnumerationFailsOnStatus(status: u32, adapters: seq<RawAdapter>, env: Platform)
    requires status != NO_ERROR
    ensures Enumeration(status, adapters, env) == Err(QueryFailed(status))
  {
  }

  /** With status `NO_ERROR` the enumeration succeeds exactly when every
      adapter's record can be built, and then it holds one record per adapter,
      in list order. */
  lemma RecordsOnePerAdapter(adapters: seq<RawAdapter>, env: Platform)
    ensures Enumeration(NO_ERROR, adapters, env).Ok?
        <==> forall k | 0 <= k < |adapters| :: AdapterRecord(adapters[k], env).Ok?
    ensures Enumeration(NO_ERROR, adapters, env).Ok? ==>
              |Enumeration(NO_ERROR, adapters, env).value| == |adapters|
              && forall k | 0 <= k < |adapters| ::
                   AdapterRecord(adapters[k], env) == Ok(Enumeration(NO_ERROR, adapters, env).value[k])
  {
    WalkAllOk(adapters, (a: RawAdapter) => AdapterRecord(a, env));
  }

  /** Otherwise the enumeration stops with the panic of the first adapter
      whose record cannot be built: there are no partial results. */
  lemma FirstPanicAborts(adapters: seq<RawAdapter>, env: Platform, k: nat)
    requires k < |adapters| && AdapterRecord(adapters[k], env).Err?
    requires forall j | 0 <= j < k :: AdapterRecord(adapters[j], env).Ok?
    ensures Enumeration(NO_ERROR, adapters, env) == Err(AdapterRecord(adapters[k], env).panic)
  {
    WalkAllFirstPanic(adapters, k, (a: RawAdapter) => AdapterRecord(a, env));
  }

  /** `v4` and `v6` hold the texts of the `AF_INET` and the `AF_INET6` entries
      of `addrs`, one per entry, in list order. */
  ghost predicate HoldsFamilies(v4: seq<string>, v6: seq<string>, addrs: seq<SocketAddress>, ntop6: Ntop6)
  {
    && |v4| == |OfFamily(addrs, AF_INET)|
    && (forall i | 0 <= i < |v4| :: v4[i] == Format(OfFamily(addrs, AF_INET)[i].addr))
    && |v6| == |OfFamily(addrs, AF_INET6)|
    && (forall i | 0 <= i < |v6| :: v6[i] == ntop6(OfFamily(addrs, AF_INET6)[i].addr))
  }

  lemma FamiliesOfWalk(addrs: seq<SocketAddress>, ntop6: Ntop6)
    ensures HoldsFamilies(Ipv4Texts(addrs), Ipv6Texts(addrs, ntop6), addrs, ntop6)
  {
    Ipv4TextsOfFamily(addrs);
    Ipv6TextsOfFamily(addrs, ntop6);
  }

  /** Each vector of a record holds the matching-family entries of its list,
      in list order; the names are the decoded strings and the state is the
      adapter's `OperStatus`. */
  lemma RecordAddressLists(a: RawAdapter, env: Platform)
    requires AdapterRecord(a, env).Ok?
    ensures var info := AdapterRecord(a, env).value;
      && info.state == a.operStatus
      && info.adapterName == env.decodeLossy(Terminated(a.adapterName, 0))
      && a.friendlyName.Some? && env.decodeWide(Terminated(a.friendlyName.value, 0)) == Some(info.friendlyName)
      && a.description.Some? && env.decodeWide(Terminated(a.description.value, 0)) == Some(info.description)
      && HoldsFamilies(info.inAddr, info.in6Addr, a.unicast, env.ntop6)
      && HoldsFamilies(info.inGwAddr, info.in6GwAddr, a.gateways, env.ntop6)
      && HoldsFamilies(info.inDnsAddr, info.in6DnsAddr, a.dnsServers, env.ntop6)
  {
    FamiliesOfWalk(a.unicast, env.ntop6);
    FamiliesOfWalk(a.gateways, env.ntop6);
    FamiliesOfWalk(a.dnsServers, env.ntop6);
  }

  /** A record's mask is set exactly when the adapter is up and has more than
      two IPv4 prefix entries, and then it is what `calculate_subnet_info`
      gives for the first and the third of them. */
  lemma MaskOnlyFromUpAdapter(a: RawAdapter, env: Platform)
    requires AdapterRecord(a, env).Ok?
    ensures var info := AdapterRecord(a, env).value;
      && (info.ipMask != "" <==> a.operStatus == IF_OPER_STATUS_UP && |OfFamily(a.prefixes, AF_INET)| > 2)
      && (info.ipMask != "" ==>
            CalculateSubnetInfo(PrefixAddresses(a)[0], PrefixAddresses(a)[2]) == Ok(Some(info.ipMask)))
  {
    Ipv4TextsOfFamily(a.prefixes);
    var list := PrefixAddresses(a);
    if |list| > 2 {
      var mask := AdapterRecord(a, env).value.ipMask;
      assert CalculateSubnetInfo(list[0], list[2]) == Ok(Some(mask));
      Ipv4TextsParse(a.prefixes, 0);
      Ipv4TextsParse(a.prefixes, 2);
      SubnetInfoSearch(list[0], list[2]);
      MaskTextNonEmpty(LongestPrefix(ToU32(Parse(list[0]).value), ToU32(Parse(list[2]).value), 32).value);
    }
  }

  lemma MaskTextNonEmpty(len: PrefixLen)
    ensures MaskText(len) != ""
  {
    var o := FromU32(NetMask(len));
    assert Format(o) == Decimal(o[0] as int) + "." + Join([Decimal(o[1] as int), Decimal(o[2] as int), Decimal(o[3] as int)]);
  }

  /** A mask that is set is the netmask of the longest prefix length for
      which the network of the first IPv4 prefix entry has the third entry as
      its broadcast address. */
  lemma MaskIsLongestPrefix(a: RawAdapter, env: Platform)
    requires AdapterRecord(a, env).Ok? && AdapterRecord(a, env).value.ipMask != ""
    ensures |OfFamily(a.prefixes, AF_INET)| > 2
    ensures exists len: PrefixLen ::
      && AdapterRecord(a, env).value.ipMask == MaskText(len)
      && IsLongestMatch(ToU32(OfFamily(a.prefixes, AF_INET)[0].addr), ToU32(OfFamily(a.prefixes, AF_INET)[2].addr), len)
  {
    MaskOnlyFromUpAdapter(a, env);
    var list := PrefixAddresses(a);
    Ipv4TextsParse(a.prefixes, 0);
    Ipv4TextsParse(a.prefixes, 2);
    SubnetInfoSearch(list[0], list[2]);
    var net := ToU32(OfFamily(a.prefixes, AF_INET)[0].addr);
    var bcast := ToU32(OfFamily(a.prefixes, AF_INET)[2].addr);
    var len := LongestPrefix(net, bcast, 32).value;
    assert IsLongestMatch(net, bcast, len);
  }

  /** When no prefix length matches, the `unwrap` of the mask panics: the
      record is not built with an empty mask. */
  lemma NoMatchingPrefixPanics(a: RawAdapter, env: Platform)
    requires PwcharToString(a.friendlyName, env.decodeWide).Ok?
    requires PwcharToString(a.description, env.decodeWide).Ok?
    requires a.operStatus == IF_OPER_STATUS_UP && |OfFamily(a.prefixes, AF_INET)| > 2
    requires forall len: PrefixLen ::
      Broadcast(ToU32(OfFamily(a.prefixes, AF_INET)[0].addr), len) != ToU32(OfFamily(a.prefixes, AF_INET)[2].addr)
    ensures AdapterRecord(a, env) == Err(NoMatchingPrefix)
  {
    Ipv4TextsOfFamily(a.prefixes);
    var list := PrefixAddresses(a);
    Ipv4TextsParse(a.prefixes, 0);
    Ipv4TextsParse(a.prefixes, 2);
    SubnetInfoNoMatch(list[0], list[2]);
  }

  /** The `parse().unwrap()` calls inside `calculate_subnet_info` never fire:
      the prefix texts come from the dotted-decimal formatter and parse back. */
  lemma PrefixTextsAlwaysParse(a: RawAdapter, env: Platform)
    ensures AdapterRecord(a, env) != Err(UnparsableAddress)
  {
    Ipv4TextsOfFamily(a.prefixes);
    var list := PrefixAddresses(a);
    if |list| > 2 {
      Ipv4TextsParse(a.prefixes, 0);
      Ipv4TextsParse(a.prefixes, 2);
    }
  }

  /** An adapter with empty unicast, gateway, DNS and prefix lists gives a
      record whose vectors are all empty and whose mask is empty. */
  lemma EmptyAdapterRecord(a: RawAdapter, env: Platform)
    requires a.unicast == [] && a.gateways == [] && a.dnsServers == [] && a.prefixes == []
    requires PwcharToString(a.friendlyName, env.decodeWide).Ok?
    requires PwcharToString(a.description, env.decodeWide).Ok?
    ensures Enumeration(NO_ERROR, [a], env) == Ok([AdapterInfo(
      env.decodeLossy(Terminated(a.adapterName, 0)),
      PwcharToString(a.friendlyName, env.decodeWide).value,
      PwcharToString(a.description, env.decodeWide).value,
      a.operStatus, [], [], [], [], [], [], "")])
  {
    var info := AdapterInfo(
      env.decodeLossy(Terminated(a.adapterName, 0)),
      PwcharToString(a.friendlyName, env.decodeWide).value,
      PwcharToString(a.description, env.decodeWide).value,
      a.operStatus, [], [], [], [], [], [], "");
    assert PrefixAddresses(a) == [];
    assert MaskOf([]) == Ok("");
    assert AdapterRecord(a, env) == Ok(info);
    RecordsOnePerAdapter([a], env);
    var r := Enumeration(NO_ERROR, [a], env);
    assert [a][0] == a;
    assert r.Ok? && |r.value| == 1 && r.value[0] == info;
    assert r.value == [info];
  }
}
