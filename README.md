# winada adapter enumeration — a Dafny model

winada lists a Windows host's network adapters. `get_all_adapter_info`
asks the operating system for its adapter-address table. It then walks the
linked list of `IP_ADAPTER_ADDRESSES` entries and builds one `AdapterInfo`
record per adapter. A record holds:

- the adapter name, the friendly name and the description;
- the operational state;
- the IPv4 and IPv6 texts of the adapter's unicast, gateway and DNS-server
  addresses;
- a subnet mask, which `calculate_subnet_info` infers from the first and the
  third IPv4 prefix entries.

The inference searches prefix lengths 32 down to 0 and stops at the first
length whose broadcast address, taken from the first entry, is the third
entry.

This project models that core (`src/windows.rs`) in six modules:

- `Types`: machine integer types, `Option`, and `Result` with a `Panic`
  reason. Every `panic!`, `assert!` and `unwrap` that can fire in the source
  becomes an `Err` that ends the whole enumeration.
- `Ipv4Text`: dotted-decimal formatting, as `inet_ntop(AF_INET, ..)` and
  `Ipv4Addr`'s `Display` produce it. Strict dotted-decimal parsing, as
  `Ipv4Addr`'s `FromStr` does it. The two are proved to be inverse in both
  directions.
- `Subnet`: the `Ipv4Net` masks (`netmask`, `hostmask`, `broadcast`) over
  32-bit words, `calculate_subnet_info` as a function, and its loop as a
  method proved equal to that function. Lemmas state:
  - the netmask is contiguous;
  - the result is the longest matching prefix;
  - there is no mask exactly when no prefix matches;
  - network and broadcast of a prefix give back that prefix's netmask;
  - two worked examples.
- `WideString`: the NUL scan of `pwchar_to_string` and its null-pointer and
  decoding failures.
- `AddressDecoder`: `get_ipv4_addr` and `get_ip_addr`, which push into
  vectors the caller owns, plus what a walk over an address list leaves in
  those vectors.
- `Adapters`: the adapter walk of `get_all_adapter_info` as loops over
  sequences, proved equal to a specification function. Lemmas cover the
  status abort, one record per adapter in order, the family-sorted vectors,
  when the mask is set, and the panic when no prefix matches.

Each pointer-linked list of the table is a sequence in list order. A
null wide-string pointer is `None`. A socket address is its family code
and its address bytes.

## Model

| member | source | states |
|---|---|---|
| Ipv4Text.Decimal | src/windows.rs:145 | the decimal numeral of a number is canonical (digits only, no leading zero) and has one digit exactly when the number is below 10 |
| Ipv4Text.DecimalRoundTrip | src/windows.rs:145 | the numeral written for `n` reads back as `n` |
| Ipv4Text.CanonicalRoundTrip | src/windows.rs:169 | every canonical numeral is the numeral of its own value |
| Ipv4Text.ParseOctet | src/windows.rs:169 | one dotted-quad group is accepted exactly when it is canonical, at most three digits and at most 255, and then it is the numeral of the octet it yields |
| Ipv4Text.Split | src/windows.rs:169 | cutting text at its dots gives at least one part and no part contains a dot |
| Ipv4Text.JoinSplit | src/windows.rs:169 | joining the dot-separated parts of a text with dots gives back the text |
| Ipv4Text.SplitJoin | src/windows.rs:169 | cutting dot-joined dot-free parts gives back those parts |
| Ipv4Text.Format | src/windows.rs:155 | the text `inet_ntop(AF_INET, ..)` writes for an address and the `to_string` of a mask: the four octets' decimal numerals joined by dots; `ParseFormat`, `FormatParse` and `FormatInjective` state its properties |
| Ipv4Text.Parse | src/windows.rs:169-172 | `parse::<Ipv4Addr>()`: exactly four dot-separated groups, each accepted by `ParseOctet`, else no address; `ParseFormat` and `FormatParse` state that it accepts exactly the formatted texts |
| Ipv4Text.GroupRoundTrip | src/windows.rs:145 | the numeral of an octet has no dot and parses back to that octet |
| Ipv4Text.ParseFormat | src/windows.rs:169-172 | every dotted-decimal text of an address parses back to that address |
| Ipv4Text.FormatParse | src/windows.rs:169-172 | every text the strict parser accepts is the dotted-decimal text of its result, so the parser accepts nothing else |
| Ipv4Text.FormatInjective | src/windows.rs:155 | distinct addresses have distinct dotted-decimal texts |
| Subnet.ToU32 | src/windows.rs:171-173 | `u32::from(Ipv4Addr)`: the four octets read as a big-endian word, the form in which `Ipv4Net` computes netmask and broadcast; `OctetsRoundTrip` and `WordRoundTrip` state that it loses nothing |
| Subnet.FromU32 | src/windows.rs:174 | `Ipv4Addr::from(u32)`: the big-endian octets of a word, as `netmask()` returns them; `OctetsRoundTrip` and `WordRoundTrip` state that it inverts `ToU32` |
| Subnet.OctetsRoundTrip | src/windows.rs:171-173 | turning four octets into a big-endian word and back loses nothing |
| Subnet.WordRoundTrip | src/windows.rs:174 | turning a word into octets and back loses nothing |
| Subnet.NetMask | src/windows.rs:174 | `Ipv4Net::netmask` of a prefix length: all ones shifted left by `32 - len`, or zero for length 0; `NetMaskContiguous` and `NetMaskInjective` state its properties |
| Subnet.HostMask | src/windows.rs:173 | `Ipv4Net::hostmask`: all ones shifted right by `len`, or zero for length 32; `HostMaskComplement` relates it to the netmask |
| Subnet.Network | src/windows.rs:171 | the network of `Ipv4Net::new(addr, len)`: the address with its host bits cleared |
| Subnet.Broadcast | src/windows.rs:173 | `Ipv4Net::broadcast`: the address with its host bits set; `BroadcastOfNetwork` shows it does not depend on the host bits |
| Subnet.IsLongestMatch | src/windows.rs:170-176 | the independent statement of what the countdown finds: `len` reproduces the broadcast and no longer length does |
| Subnet.NetMaskContiguous | src/windows.rs:174 | the netmask of length `len` has exactly its first `len` bits set, counted from the most significant |
| Subnet.HostMaskComplement | src/windows.rs:173 | the hostmask of a length is the bitwise complement of its netmask |
| Subnet.BroadcastOfNetwork | src/windows.rs:171-173 | the broadcast of an address under a prefix equals the broadcast of that prefix's network |
| Subnet.NetMaskInjective | src/windows.rs:174 | distinct prefix lengths have distinct netmasks |
| Subnet.LongestPrefix | src/windows.rs:170-176 | a found length is at most the starting length and reproduces the broadcast, and no longer length up to the start does; nothing is found exactly when no length up to the start reproduces it |
| Subnet.LongestPrefixIsLongestMatch | src/windows.rs:170-176 | the countdown from 32 finds `len` exactly when `len` is the longest length reproducing the broadcast |
| Subnet.MaskText | src/windows.rs:174 | `net.netmask().to_string()`: the dotted-decimal netmask text of a length; `MaskTextInjective` and `MaskTextNonEmpty` state its properties |
| Subnet.MaskTextInjective | src/windows.rs:174 | distinct prefix lengths have distinct netmask texts |
| Subnet.CalculateSubnetInfo | src/windows.rs:168-178 | the result is a panic exactly when the network or the broadcast text does not parse, and the panic is then an unparsable address |
| Subnet.FindSubnetMask | src/windows.rs:168-178 | the loop that parses the network, then tries lengths 32 down to 0, parsing the broadcast each round, returns what the function returns |
| Subnet.SubnetInfoSearch | src/windows.rs:170-177 | the definition unfolded on well-formed input: the result is the netmask text of what `LongestPrefix` finds from 32, or no mask when it finds nothing; the longest-match meaning comes from `LongestPrefix`'s contract |
| Subnet.SubnetInfoIsLongestMatch | src/windows.rs:170-176 | on well-formed input the result is the netmask text of `len` exactly when `len` reproduces the broadcast and no longer length does |
| Subnet.SubnetInfoNoMatch | src/windows.rs:177 | on well-formed input there is no mask exactly when none of the 33 prefix lengths reproduces the broadcast |
| Subnet.NetworkPrefixRecovered | src/windows.rs:168-178 | for a network address with its host bits clear under `len` and the broadcast of that network, the result is the netmask text of `len` |
| Subnet.LongerPrefixNarrowsBroadcast | src/windows.rs:171-173 | for a network address under `len`, every longer prefix gives a different broadcast |
| Subnet.ExampleClassC | src/windows.rs:168-178 | 192.168.1.0 with broadcast 192.168.1.255 gives 255.255.255.0 |
| Subnet.ExampleNoMatch | src/windows.rs:177 | 10.0.0.1 with 192.168.1.1 gives no mask |
| WideString.NulLength | src/windows.rs:182 | the count is the index of the first terminator: no terminator before it, and a terminator at it unless the memory ends there |
| WideString.Terminated | src/windows.rs:182-183 | the slice handed to the decoder is a prefix of the memory without a terminator, followed in memory by the terminator when there is one |
| WideString.TerminatedAtFirstNul | src/windows.rs:182-183 | memory holding a terminator-free text, a terminator and anything else yields exactly that text |
| WideString.PwcharToString | src/windows.rs:180-188 | a null pointer is a panic; otherwise the call succeeds exactly when the units before the terminator decode, yielding the decoded text, and an undecodable text is a panic |
| AddressDecoder.GetIpv4Addr | src/windows.rs:140-148 | an `AF_INET` address appends its dotted-decimal text to the vector; any other family leaves it unchanged |
| AddressDecoder.GetIpAddr | src/windows.rs:150-166 | an `AF_INET` address appends its text to the IPv4 vector, an `AF_INET6` address appends its text to the IPv6 vector, and any other family changes neither; the other vector is unchanged, and at most one text is added |
| AddressDecoder.OfFamily | src/windows.rs:151-158 | the entries kept are no more than the list and all of the requested family |
| AddressDecoder.OfFamilyMembers | src/windows.rs:151-158 | an entry is kept exactly when it is in the list and of the requested family |
| AddressDecoder.Ipv4Texts | src/windows.rs:98-118 | the IPv4 vector after `get_ip_addr` has been applied to each entry of a list, starting empty; `Ipv4TextsOfFamily` states its contents |
| AddressDecoder.Ipv6Texts | src/windows.rs:98-118 | the IPv6 vector after the same walk; `Ipv6TextsOfFamily` states its contents |
| AddressDecoder.Ipv4TextsOfFamily | src/windows.rs:98-103 | after a walk the IPv4 vector holds one text per `AF_INET` entry, the i-th being the text of the i-th such entry |
| AddressDecoder.Ipv6TextsOfFamily | src/windows.rs:98-103 | after a walk the IPv6 vector holds one text per `AF_INET6` entry, in list order |
| AddressDecoder.Ipv4TextsParse | src/windows.rs:126-131 | every collected IPv4 text parses back to the address of its entry |
| Adapters.PrefixAddresses | src/windows.rs:121-129 | `addr_list`: the IPv4 prefix texts when the adapter's `OperStatus` is 1, and none otherwise |
| Adapters.MaskOf | src/windows.rs:130-132 | `ip_mask`: empty with at most two prefix texts, otherwise the subnet inference of the first and third, unwrapped so that no match is a panic |
| Adapters.AdapterRecord | src/windows.rs:82-134 | the record of one adapter or the panic that stops the loop body; `RecordAddressLists`, `MaskOnlyFromUpAdapter` and `MaskIsLongestPrefix` state its contents |
| Adapters.Enumeration | src/windows.rs:77-137 | the outcome of the whole function: the status panic, or the walk over the adapters in order; `RecordsOnePerAdapter` and `FirstPanicAborts` state its properties |
| Adapters.WalkAll | src/windows.rs:81-136 | the adapter loop's shape: one step per element in order, collecting the values, the first panic ending the walk; `WalkAllOk`, `WalkAllPanic`, `WalkAllFirstPanic` and `WalkAllStep` state its properties |
| Adapters.AdapterRecords | src/windows.rs:81-136 | the adapter loop with `AdapterRecord` as its step; `RecordsOnePerAdapter` and `FirstPanicAborts` state its properties |
| Adapters.WalkAllOk | src/windows.rs:81-136 | a walk succeeds exactly when every step does, and then holds one value per element in order |
| Adapters.WalkAllPanic | src/windows.rs:81-136 | a panic in the walk over a prefix of the list is the result of the whole walk |
| Adapters.WalkAllFirstPanic | src/windows.rs:81-136 | a walk ends with the panic of its first failing step |
| Adapters.WalkAddressList | src/windows.rs:98-118 | the unicast, gateway or DNS loop fills the two vectors with the IPv4 and IPv6 texts of its list |
| Adapters.WalkPrefixList | src/windows.rs:121-129 | the prefix loop collects the IPv4 prefix texts when the adapter is up and nothing otherwise |
| Adapters.CollectAdapterInfo | src/windows.rs:82-134 | the loop body builds the record of one adapter (names, state, the three address walks, the mask) or panics as the record specification says |
| Adapters.GetAllAdapterInfo | src/windows.rs:54-138 | the enumeration panics on a second-call status other than `NO_ERROR`, otherwise it walks the adapters in order and its result is the specified enumeration |
| Adapters.EnumerationFailsOnStatus | src/windows.rs:77-79 | a second-call status other than `NO_ERROR` panics with that code and yields no record |
| Adapters.RecordsOnePerAdapter | src/windows.rs:80-137 | with status `NO_ERROR` the enumeration succeeds exactly when every adapter's record can be built, and then the k-th record is that of the k-th adapter and there is one per adapter |
| Adapters.FirstPanicAborts | src/windows.rs:81-136 | when the record of adapter k panics and none before it does, the whole enumeration is that panic |
| Adapters.FamiliesOfWalk | src/windows.rs:98-118 | an address walk leaves the IPv4 texts of the `AF_INET` entries and the IPv6 texts of the `AF_INET6` entries, in list order |
| Adapters.RecordAddressLists | src/windows.rs:83-118 | a built record carries the adapter's state, its decoded names and, for unicast, gateway and DNS lists, the matching-family texts in list order |
| Adapters.MaskOnlyFromUpAdapter | src/windows.rs:120-132 | a record's mask is set exactly when the adapter is up and has more than two IPv4 prefix entries, and it is then the subnet inference of the first and third prefix texts |
| Adapters.MaskTextNonEmpty | src/windows.rs:174 | a netmask text is never empty, so a set mask is distinguishable from the initial empty one |
| Adapters.MaskIsLongestPrefix | src/windows.rs:130-132 | a set mask is the netmask of the longest prefix length for which the first IPv4 prefix entry has the third as its broadcast |
| Adapters.NoMatchingPrefixPanics | src/windows.rs:131 | when no prefix length matches, the `unwrap` panics and no record is built |
| Adapters.PrefixTextsAlwaysParse | src/windows.rs:131 | the address parses inside the subnet inference never fail on texts the prefix loop collected |
| Adapters.EmptyAdapterRecord | src/windows.rs:83-95 | a single adapter with empty unicast, gateway, DNS and prefix lists yields exactly one record, with empty vectors and an empty mask |

## Left out

- The two `GetAdaptersAddresses` calls and the buffer sizing are left out. This is a foreign call: the model takes the second call's status and the table it fills in as inputs.
- The `unsafe` pointer casts and structure layouts are assumed correct. The `SocketAddress` type states the layout the OS guarantees: four address bytes for `AF_INET`, sixteen for `AF_INET6`.
- `inet_ntop` for IPv6, `OsString::into_string` and `CStr::to_string_lossy` are not part of this model. They are parameters (the `Platform` fields).
- Only the IPv4 behaviour of `inet_ntop` is modelled, as dotted-decimal text. A failed conversion is left out. Its return value is ignored and `ip_str` starts zeroed (src/windows.rs:144, 154, 161), so on failure the source silently pushes an empty text rather than panicking (src/windows.rs:146, 156, 163). The model always pushes the formatted address, and `Ntop6` always yields a text.
- The `ipnet` crate and `Ipv4Addr`'s parser are not part of this model. The model follows their documented behaviour:
  - `netmask` is `u32::MAX` shifted left by `32 - len`, or 0;
  - `hostmask` is `u32::MAX` shifted right by `len`, or 0;
  - the broadcast is the address with its host bits set;
  - parsing is strict dotted decimal, which rejects leading zeros.
- `Ipv4Net::new(..).unwrap()` cannot fail, because every length tried is at most 32. The model does not represent it.
- Memory without a terminator is not modelled as undefined behaviour. The scan stops at the end of the modelled memory.
- `src/lib.rs` is not part of this model. It holds only `mod windows;` and a `#[cfg(test)]` test, `it_works`, which calls `get_all_adapter_info` and prints each record.
- A `None` from `calculate_subnet_info` does not leave the mask empty: the `unwrap()` at src/windows.rs:131 panics. The model follows the code: `Adapters.NoMatchingPrefixPanics`.
- `Adapters.Enumeration` admits an empty adapter table with status `NO_ERROR` and gives `Ok([])`. The source cannot reach that case: the walk starts at the buffer's own address (src/windows.rs:69, 80), which is never null, so a successful table always has a head entry. The model does not rule the case out.
