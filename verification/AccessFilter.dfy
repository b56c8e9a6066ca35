/**
 The IP filter in front of the web server: a growing list of allowed networks behind a cache of one accepted
 address. A miss refreshes the list from the interfaces of the device before the request is refused.
 */
module AccessFilter {
  import opened Wrappers
  import opened NetAddress

  /** An address of an interface; only some are networks. */
  datatype InterfaceAddr = OtherAddr | NetAddr(net: IPNet)

  /** The device at some moment: its interfaces, if they can be listed, and their addresses, if they can be read. */
  datatype Host = Host(names: Option<seq<string>>, addrs: string -> Option<seq<InterfaceAddr>>)

  datatype Config = Config(disableIPFilter: bool, allowNetworks: seq<Cidr>, allowInterfaces: seq<string>)

  /** An empty cache is a nil address. */
  datatype Filter = Filter(networks: seq<IPNet>, cache: Bits)

  datatype Request = Request(ip: Option<Bits>, host: Host)

  const NEW_FILTER := Filter([], [])

  // ---------------------------------------------------------------- the filter on values

  predicate Accepts(networks: seq<IPNet>, ip: Bits) {
    exists i :: 0 <= i < |networks| && Contains(networks[i], ip)
  }

  predicate Allows(f: Filter, ip: Option<Bits>) {
    ip.Some? && (Equal(ip.value, f.cache) || Accepts(f.networks, ip.value))
  }

  function AfterIsAllowed(f: Filter, ip: Option<Bits>): Filter {
    if ip.Some? && !Equal(ip.value, f.cache) && Accepts(f.networks, ip.value) then f.(cache := ip.value) else f
  }

  function Parsed(text: Cidr): seq<IPNet> {
    match ParseCIDR(text)
    case None => []
    case Some(n) => [n]
  }

  /** Loopback and IPv4 networks only. */
  predicate IsEligible(a: InterfaceAddr) {
    a.NetAddr? && (IsLoopback(a.net.ip) || To4(a.net.ip).Some?)
  }

  function EligibleNetworks(addrs: seq<InterfaceAddr>): seq<IPNet> {
    if addrs == [] then []
    else
      var last := addrs[|addrs| - 1];
      EligibleNetworks(addrs[..|addrs| - 1]) + if IsEligible(last) then Parsed(Text(last.net)) else []
  }

  function InterfaceNetworks(host: Host, name: string): seq<IPNet> {
    match host.addrs(name)
    case None => []
    case Some(addrs) => EligibleNetworks(addrs)
  }

  function NetworksOf(host: Host, names: seq<string>): seq<IPNet> {
    if names == [] then []
    else NetworksOf(host, names[..|names| - 1]) + InterfaceNetworks(host, names[|names| - 1])
  }

  function LocalNetworks(host: Host): seq<IPNet> {
    match host.names
    case None => []
    case Some(names) => NetworksOf(host, names)
  }

  function Refresh(f: Filter, host: Host): Filter {
    f.(networks := f.networks + LocalNetworks(host))
  }

  function ConfiguredNetworks(texts: seq<Cidr>): seq<IPNet> {
    if texts == [] then [] else ConfiguredNetworks(texts[..|texts| - 1]) + Parsed(texts[|texts| - 1])
  }

  function FromConfig(config: Config, host: Host): Filter {
    var listed := ConfiguredNetworks(config.allowNetworks) + NetworksOf(host, config.allowInterfaces);
    var byDefault := if config.allowNetworks == [] && config.allowInterfaces == [] then LocalNetworks(host) else [];
    Filter(listed + byDefault, [])
  }

  predicate IsServed(f: Filter, r: Request) {
    Allows(f, r.ip) || Allows(Refresh(f, r.host), r.ip)
  }

  function AfterRequest(f: Filter, r: Request): Filter {
    if Allows(f, r.ip) then AfterIsAllowed(f, r.ip) else AfterIsAllowed(Refresh(f, r.host), r.ip)
  }

  // ---------------------------------------------------------------- the filter in place

  class NetFilter {
    var allowedNetworks: seq<IPNet>
    var acceptCache: Bits

    ghost function View(): Filter
      reads this
    {
      Filter(allowedNetworks, acceptCache)
    }

    constructor ()
      ensures View() == NEW_FILTER
    {
      allowedNetworks, acceptCache := [], [];
    }

    method IsAllowed(ip: Option<Bits>) returns (ok: bool)
      modifies this`acceptCache
      ensures ok == Allows(old(View()), ip)
      ensures View() == AfterIsAllowed(old(View()), ip)
    {
      if ip.None? { return false; }
      if Equal(ip.value, acceptCache) { return true; }
      for i := 0 to |allowedNetworks|
        invariant forall j :: 0 <= j < i ==> !Contains(allowedNetworks[j], ip.value)
        invariant acceptCache == old(acceptCache)
      {
        if Contains(allowedNetworks[i], ip.value) {
          acceptCache := ip.value;
          return true;
        }
      }
      return false;
    }

    method AllowNetwork(network: Cidr) returns (ok: bool)
      modifies this`allowedNetworks
      ensures ok == ParseCIDR(network).Some?
      ensures allowedNetworks == old(allowedNetworks) + Parsed(network)
    {
      var parsed := ParseCIDR(network);
      if parsed.Some? {
        allowedNetworks := allowedNetworks + [parsed.value];
        return true;
      }
      return false;
    }

    method AddLocalNetworks(host: Host)
      modifies this`allowedNetworks
      ensures View() == Refresh(old(View()), host)
    {
      if host.names.None? { return; }
      AddInterfaces(host, host.names.value);
    }

    /** The loop over interface names of `AddLocalNetworks` and of the configuration. */
    method AddInterfaces(host: Host, names: seq<string>)
      modifies this`allowedNetworks
      ensures allowedNetworks == old(allowedNetworks) + NetworksOf(host, names)
    {
      for i := 0 to |names|
        invariant allowedNetworks == old(allowedNetworks) + NetworksOf(host, names[..i])
      {
        AddLocalNetworkForInterface(host, names[i]);
        assert names[..i + 1][..i] == names[..i];
      }
      assert names[..|names|] == names;
    }

    method AddLocalNetworkForInterface(host: Host, ifname: string)
      modifies this`allowedNetworks
      ensures allowedNetworks == old(allowedNetworks) + InterfaceNetworks(host, ifname)
    {
      var addrs := host.addrs(ifname);
      if addrs.None? { return; }
      for i := 0 to |addrs.value|
        invariant allowedNetworks == old(allowedNetworks) + EligibleNetworks(addrs.value[..i])
      {
        var a := addrs.value[i];
        if a.NetAddr? {
          if IsLoopback(a.net.ip) || To4(a.net.ip).Some? {
            var _ := AllowNetwork(Text(a.net));
          }
        }
        assert addrs.value[..i + 1][..i] == addrs.value[..i];
      }
      assert addrs.value[..|addrs.value|] == addrs.value;
    }

    /** The decision of `FilterHandler` on one request. */
    method Serve(r: Request) returns (served: bool)
      modifies this
      ensures served == IsServed(old(View()), r)
      ensures View() == AfterRequest(old(View()), r)
    {
      served := IsAllowed(r.ip);
      if !served {
        AddLocalNetworks(r.host);
        served := IsAllowed(r.ip);
      }
    }
  }

  /** No filter at all if the configuration disables it. */
  method NewFilterHandlerFromConfig(config: Config, host: Host) returns (f: NetFilter?)
    ensures f == null <==> config.disableIPFilter
    ensures f != null ==> fresh(f) && f.View() == FromConfig(config, host)
  {
    if config.disableIPFilter { return null; }
    var filter := new NetFilter();
    for i := 0 to |config.allowNetworks|
      invariant fresh(filter)
      invariant filter.View() == Filter(ConfiguredNetworks(config.allowNetworks[..i]), [])
    {
      var _ := filter.AllowNetwork(config.allowNetworks[i]);
      assert config.allowNetworks[..i + 1][..i] == config.allowNetworks[..i];
    }
    assert config.allowNetworks[..|config.allowNetworks|] == config.allowNetworks;
    filter.AddInterfaces(host, config.allowInterfaces);
    if |config.allowNetworks| == 0 && |config.allowInterfaces| == 0 {
      filter.AddLocalNetworks(host);
    }
    return filter;
  }

  // ---------------------------------------------------------------- the cache is transparent

  /** The cache is nil or holds an address of an allowed network. */
  predicate CacheIsSound(f: Filter) {
    f.cache == [] || Accepts(f.networks, f.cache)
  }

  /** A run of requests: the filter before each of them, and after the last. */
  datatype Run = Run(at: seq<Filter>, requests: seq<Request>) {
    ghost predicate Step(i: nat)
      requires i < |requests| < |at|
    {
      at[i + 1] == AfterRequest(at[i], requests[i])
    }

    /** Addresses come from `ParseIP`: nil, or not empty. */
    ghost predicate Valid() {
      && |at| == |requests| + 1 && CacheIsSound(at[0])
      && (forall i :: 0 <= i < |requests| ==> Step(i))
      && (forall i :: 0 <= i < |requests| ==> requests[i].ip != Some([]))
    }

    ghost predicate StartsFrom(config: Config, host: Host)
      requires |at| > 0
    {
      at[0] == FromConfig(config, host)
    }
  }

  /** The cache stays sound in every reachable state. */
  lemma {:induction false} CacheStaysSound(r: Run, n: nat)
    requires r.Valid() && n <= |r.requests|
    ensures CacheIsSound(r.at[n])
  {
    if n > 0 {
      assert r.Step(n - 1);
      CacheStaysSound(r, n - 1);
      AcceptsMore(r.at[n - 1].networks, LocalNetworks(r.requests[n - 1].host), r.at[n - 1].cache);
    }
  }

  lemma AcceptsMore(a: seq<IPNet>, b: seq<IPNet>, ip: Bits)
    ensures Accepts(a + b, ip) <==> Accepts(a, ip) || Accepts(b, ip)
  {
    if i :| 0 <= i < |a| && Contains(a[i], ip) {
      assert Contains((a + b)[i], ip);
    }
    if i :| 0 <= i < |b| && Contains(b[i], ip) {
      assert Contains((a + b)[|a| + i], ip);
    }
    if i :| 0 <= i < |a + b| && Contains((a + b)[i], ip) {
      assert i < |a| ==> Contains(a[i], ip);
      assert i >= |a| ==> Contains(b[i - |a|], ip);
    }
  }

  /**
   Cache transparency. With a sound cache the answer is that of the plain scan over the networks, except for an
   empty address that is not nil, which a nil cache lets through; `ParseIP` never returns one.
   */
  lemma CacheIsTransparent(f: Filter, ip: Option<Bits>)
    requires CacheIsSound(f)
    ensures Allows(f, ip) == (ip.Some? && Accepts(f.networks, ip.value)) <==>
      !(ip == Some([]) && f.cache == [] && !Accepts(f.networks, []))
  {
    if ip.Some? && ip.value != [] && Equal(ip.value, f.cache) {
      var i :| 0 <= i < |f.networks| && Contains(f.networks[i], f.cache);
      EqualAddressesAgree(f.networks[i], ip.value, f.cache);
    }
  }

  /** A fresh filter, which should block everything, allows the empty address. */
  lemma EmptyAddressIsAllowed()
    ensures Allows(NEW_FILTER, Some([])) && !Accepts(NEW_FILTER.networks, [])
  {
  }

  /** The two forms of an address get the same answer. */
  lemma FormsAgree(f: Filter, a: Bits, b: Bits)
    requires CacheIsSound(f) && Equal(a, b) && a != []
    ensures Allows(f, Some(a)) == Allows(f, Some(b))
  {
    CacheIsTransparent(f, Some(a));
    CacheIsTransparent(f, Some(b));
    if i :| 0 <= i < |f.networks| && (Contains(f.networks[i], a) || Contains(f.networks[i], b)) {
      EqualAddressesAgree(f.networks[i], a, b);
    }
  }

  // ---------------------------------------------------------------- what a run of requests accepts

  /**
   `a` is an eligible network, and `ip` shares with it the prefix whose length its text is read back as. For a
   contiguous mask this is the network itself (`ContiguousAddr`).
   */
  ghost predicate InAddr(a: InterfaceAddr, ip: Bits) {
    IsEligible(a) &&
    var (number, mask) := NumberAndMask(a.net);
    var ones := PrintedLength(mask);
    number != [] && ones.Some? && ones.value <= |number| && SamePrefix(number, Canonical(ip), ones.value)
  }

  lemma ContiguousAddr(a: InterfaceAddr, ip: Bits)
    requires IsEligible(a) && NumberAndMask(a.net).0 != [] && SimpleMaskLength(NumberAndMask(a.net).1).Some?
    ensures InAddr(a, ip) <==> Contains(a.net, ip)
  {
    TextReadsPrefix(a.net, ip);
    TextKeepsAddresses(a.net);
  }

  ghost predicate InSomeAddr(addrs: seq<InterfaceAddr>, ip: Bits) {
    exists i :: 0 <= i < |addrs| && InAddr(addrs[i], ip)
  }

  ghost predicate InInterface(host: Host, name: string, ip: Bits) {
    host.addrs(name).Some? && InSomeAddr(host.addrs(name).value, ip)
  }

  ghost predicate InSomeInterface(host: Host, names: seq<string>, ip: Bits) {
    exists i :: 0 <= i < |names| && InInterface(host, names[i], ip)
  }

  ghost predicate InLocal(host: Host, ip: Bits) {
    host.names.Some? && InSomeInterface(host, host.names.value, ip)
  }

  /**
   `text` is an address with a prefix length within it, and `ip` shares that prefix: as an IPv4 address if `text` is
   one, also in its mapped form with the whole marker in the prefix, and otherwise as an IPv6 address.
   */
  ghost predicate InText(text: Cidr, ip: Bits) {
    text.Cidr? && (|text.addr| == V4 || |text.addr| == V6) && text.ones <= |text.addr| &&
    if |text.addr| == V4 then To4(ip).Some? && SamePrefix(text.addr, To4(ip).value, text.ones)
    else if IsMapped(text.addr) && text.ones >= 96 then
      To4(ip).Some? && SamePrefix(text.addr[96..], To4(ip).value, text.ones - 96)
    else To4(ip).None? && SamePrefix(text.addr, ip, text.ones)
  }

  ghost predicate InSomeText(texts: seq<Cidr>, ip: Bits) {
    exists i :: 0 <= i < |texts| && InText(texts[i], ip)
  }

  /** `ip` is in the initial set: parsable networks, configured interfaces, or everything local if neither is given. */
  ghost predicate InConfigured(config: Config, host: Host, ip: Bits) {
    || InSomeText(config.allowNetworks, ip)
    || InSomeInterface(host, config.allowInterfaces, ip)
    || (config.allowNetworks == [] && config.allowInterfaces == [] && InLocal(host, ip))
  }

  lemma ParsedIsAccepted(text: Cidr, ip: Bits)
    ensures Accepts(Parsed(text), ip) <==> ParseCIDR(text).Some? && Contains(ParseCIDR(text).value, ip)
  {
    if ParseCIDR(text).Some? && Contains(ParseCIDR(text).value, ip) { assert Contains(Parsed(text)[0], ip); }
  }

  lemma ParsedAccepts(text: Cidr, ip: Bits)
    ensures Accepts(Parsed(text), ip) <==> InText(text, ip)
  {
    ParsedIsAccepted(text, ip);
    if ParseCIDR(text).Some? { ParsedContains(text.addr, text.ones, ip); }
  }

  lemma AddrAccepts(a: InterfaceAddr, ip: Bits)
    ensures Accepts(if IsEligible(a) then Parsed(Text(a.net)) else [], ip) <==> InAddr(a, ip)
  {
    if IsEligible(a) {
      TextReadsPrefix(a.net, ip);
      ParsedIsAccepted(Text(a.net), ip);
    }
  }

  lemma AddrsSplit(addrs: seq<InterfaceAddr>, ip: Bits)
    requires addrs != []
    ensures InSomeAddr(addrs, ip) <==> InSomeAddr(addrs[..|addrs| - 1], ip) || InAddr(addrs[|addrs| - 1], ip)
  {
    var init, last := addrs[..|addrs| - 1], |addrs| - 1;
    if i :| 0 <= i < |init| && InAddr(init[i], ip) { assert InAddr(addrs[i], ip); }
    if i :| 0 <= i < |addrs| && InAddr(addrs[i], ip) { assert i < last ==> InAddr(init[i], ip); }
  }

  lemma {:induction false} EligibleAccept(addrs: seq<InterfaceAddr>, ip: Bits)
    ensures Accepts(EligibleNetworks(addrs), ip) <==> InSomeAddr(addrs, ip)
  {
    if addrs != [] {
      var init, last := addrs[..|addrs| - 1], addrs[|addrs| - 1];
      EligibleAccept(init, ip);
      AcceptsMore(EligibleNetworks(init), if IsEligible(last) then Parsed(Text(last.net)) else [], ip);
      AddrAccepts(last, ip);
      AddrsSplit(addrs, ip);
    }
  }

  lemma InterfaceAccepts(host: Host, name: string, ip: Bits)
    ensures Accepts(InterfaceNetworks(host, name), ip) <==> InInterface(host, name, ip)
  {
    if host.addrs(name).Some? { EligibleAccept(host.addrs(name).value, ip); }
  }

  lemma InterfacesSplit(host: Host, names: seq<string>, ip: Bits)
    requires names != []
    ensures InSomeInterface(host, names, ip) <==>
      InSomeInterface(host, names[..|names| - 1], ip) || InInterface(host, names[|names| - 1], ip)
  {
    var init, last := names[..|names| - 1], |names| - 1;
    if i :| 0 <= i < |init| && InInterface(host, init[i], ip) { assert InInterface(host, names[i], ip); }
    if i :| 0 <= i < |names| && InInterface(host, names[i], ip) { assert i < last ==> InInterface(host, init[i], ip); }
  }

  lemma {:induction false} InterfacesAccept(host: Host, names: seq<string>, ip: Bits)
    ensures Accepts(NetworksOf(host, names), ip) <==> InSomeInterface(host, names, ip)
  {
    if names != [] {
      var init, last := names[..|names| - 1], names[|names| - 1];
      InterfacesAccept(host, init, ip);
      AcceptsMore(NetworksOf(host, init), InterfaceNetworks(host, last), ip);
      InterfaceAccepts(host, last, ip);
      InterfacesSplit(host, names, ip);
    }
  }

  lemma LocalAccept(host: Host, ip: Bits)
    ensures Accepts(LocalNetworks(host), ip) <==> InLocal(host, ip)
  {
    if host.names.Some? { InterfacesAccept(host, host.names.value, ip); }
  }

  lemma TextsSplit(texts: seq<Cidr>, ip: Bits)
    requires texts != []
    ensures InSomeText(texts, ip) <==> InSomeText(texts[..|texts| - 1], ip) || InText(texts[|texts| - 1], ip)
  {
    var init, last := texts[..|texts| - 1], |texts| - 1;
    if i :| 0 <= i < |init| && InText(init[i], ip) { assert InText(texts[i], ip); }
    if i :| 0 <= i < |texts| && InText(texts[i], ip) { assert i < last ==> InText(init[i], ip); }
  }

  lemma {:induction false} TextsAccept(texts: seq<Cidr>, ip: Bits)
    ensures Accepts(ConfiguredNetworks(texts), ip) <==> InSomeText(texts, ip)
  {
    if texts != [] {
      var init, last := texts[..|texts| - 1], texts[|texts| - 1];
      TextsAccept(init, ip);
      AcceptsMore(ConfiguredNetworks(init), Parsed(last), ip);
      ParsedAccepts(last, ip);
      TextsSplit(texts, ip);
    }
  }

  lemma ConfigAccepts(config: Config, host: Host, ip: Bits)
    ensures Accepts(FromConfig(config, host).networks, ip) <==> InConfigured(config, host, ip)
  {
    TextsAccept(config.allowNetworks, ip);
    InterfacesAccept(host, config.allowInterfaces, ip);
    LocalAccept(host, ip);
    var texts, names := ConfiguredNetworks(config.allowNetworks), NetworksOf(host, config.allowInterfaces);
    AcceptsMore(texts, names, ip);
    var byDefault := if config.allowNetworks == [] && config.allowInterfaces == [] then LocalNetworks(host) else [];
    AcceptsMore(texts + names, byDefault, ip);
  }

  /** The request missed, so the interfaces present at that moment were added. */
  ghost predicate Misses(f: Filter, r: Request) {
    !(r.ip.Some? && Accepts(f.networks, r.ip.value))
  }

  /** The request at `i` missed while `ip` was in a local network. */
  ghost predicate AddedAt(r: Run, i: nat, ip: Bits)
    requires i < |r.requests| < |r.at|
  {
    Misses(r.at[i], r.requests[i]) && InLocal(r.requests[i].host, ip)
  }

  ghost predicate AddedBefore(r: Run, n: nat, ip: Bits)
    requires n <= |r.requests| < |r.at|
  {
    exists i :: 0 <= i < n && AddedAt(r, i, ip)
  }

  lemma RequestAccepts(g: Filter, r: Request, ip: Bits)
    requires CacheIsSound(g) && r.ip != Some([])
    ensures Accepts(AfterRequest(g, r).networks, ip) <==>
      Accepts(g.networks, ip) || (Misses(g, r) && InLocal(r.host, ip))
  {
    CacheIsTransparent(g, r.ip);
    AcceptsMore(g.networks, LocalNetworks(r.host), ip);
    LocalAccept(r.host, ip);
  }

  lemma StepAccepts(r: Run, i: nat, ip: Bits)
    requires r.Valid() && i < |r.requests|
    ensures Accepts(r.at[i + 1].networks, ip) <==> Accepts(r.at[i].networks, ip) || AddedAt(r, i, ip)
  {
    assert r.Step(i);
    CacheStaysSound(r, i);
    RequestAccepts(r.at[i], r.requests[i], ip);
  }

  lemma AddedBeforeSplit(r: Run, n: nat, ip: Bits)
    requires 0 < n <= |r.requests| < |r.at|
    ensures AddedBefore(r, n, ip) <==> AddedBefore(r, n - 1, ip) || AddedAt(r, n - 1, ip)
  {
    if i :| 0 <= i < n && AddedAt(r, i, ip) { assert i < n - 1 ==> AddedAt(r, i, ip); }
  }

  lemma {:induction false} RunAccepts(r: Run, n: nat, ip: Bits)
    requires r.Valid() && n <= |r.requests|
    ensures Accepts(r.at[n].networks, ip) <==> Accepts(r.at[0].networks, ip) || AddedBefore(r, n, ip)
  {
    if n > 0 {
      RunAccepts(r, n - 1, ip);
      StepAccepts(r, n - 1, ip);
      AddedBeforeSplit(r, n, ip);
    }
  }

  /**
   Filter history. After any run of requests the accepted set is the configured one together with every eligible
   local network that was present when some request missed.
   */
  lemma FilterHistory(r: Run, n: nat, config: Config, host: Host, ip: Bits)
    requires r.Valid() && r.StartsFrom(config, host) && n <= |r.requests|
    ensures Accepts(r.at[n].networks, ip) <==> InConfigured(config, host, ip) || AddedBefore(r, n, ip)
  {
    ConfigAccepts(config, host, ip);
    RunAccepts(r, n, ip);
  }

  lemma NoTextHoldsEmpty(text: Cidr)
    ensures !InText(text, [])
  {
  }

  lemma NoAddrHoldsEmpty(a: InterfaceAddr)
    ensures !InAddr(a, [])
  {
  }

  /** No network of a reachable filter contains the empty address. */
  lemma NoNetworkHoldsEmpty(r: Run, n: nat, config: Config, host: Host)
    requires r.Valid() && r.StartsFrom(config, host) && n <= |r.requests|
    ensures !Accepts(r.at[n].networks, [])
  {
    FilterHistory(r, n, config, host, []);
    forall text ensures !InText(text, []) { NoTextHoldsEmpty(text); }
    forall a ensures !InAddr(a, []) { NoAddrHoldsEmpty(a); }
  }

  /**
   Cache transparency over runs. In every reachable state the answer is that of the plain scan over the networks,
   for every address except one that is empty but not nil, and for that one as soon as the cache has been filled.
   */
  lemma ReachableCacheIsTransparent(r: Run, n: nat, config: Config, host: Host, ip: Option<Bits>)
    requires r.Valid() && r.StartsFrom(config, host) && n <= |r.requests|
    ensures Allows(r.at[n], ip) == (ip.Some? && Accepts(r.at[n].networks, ip.value)) <==>
      !(ip == Some([]) && r.at[n].cache == [])
  {
    CacheStaysSound(r, n);
    CacheIsTransparent(r.at[n], ip);
    NoNetworkHoldsEmpty(r, n, config, host);
  }

  // ---------------------------------------------------------------- which addresses are local

  /** The address ::1. */
  ghost function Loopback6(): Bits {
    seq(V6, i => i == 127)
  }

  /** The addresses of an interface that count: networks of IPv4 addresses, in either form, and those of ::1. */
  lemma EligibleIff(a: InterfaceAddr)
    ensures IsEligible(a) <==>
      && a.NetAddr?
      && ((exists v4 :: |v4| == V4 && (a.net.ip == v4 || a.net.ip == Mapped(v4))) || a.net.ip == Loopback6())
  {
    if a.NetAddr? {
      var ip := a.net.ip;
      if v4 :| |v4| == V4 && (ip == v4 || ip == Mapped(v4)) { FormsOfIPv4(ip, v4); }
      if To4(ip).Some? { FormsOfIPv4(ip, To4(ip).value); }
      assert !Loopback6()[80];
      if IsLoopback(ip) && To4(ip).None? { assert ip == Loopback6(); }
    }
  }

  /** Any other address contributes nothing, whatever its mask. */
  lemma OtherAddrIsIgnored(a: InterfaceAddr, ip: Bits)
    requires a.NetAddr? ==> a.net.ip != Loopback6()
    requires a.NetAddr? ==> forall v4 :: |v4| == V4 ==> a.net.ip != v4 && a.net.ip != Mapped(v4)
    ensures !InAddr(a, ip) && EligibleNetworks([a]) == []
  {
    EligibleIff(a);
    assert [a][..0] == [];
  }

  /** The interface `host.names.value[i]` has the IPv4 address `v4` with a prefix of `ones` bits. */
  ghost predicate HasIPv4(host: Host, i: nat, k: nat, v4: Bits, ones: nat)
    requires |v4| == V4
  {
    && host.names.Some? && i < |host.names.value|
    && host.addrs(host.names.value[i]).Some? && k < |host.addrs(host.names.value[i]).value|
    && ones <= V4
    && host.addrs(host.names.value[i]).value[k] in
      {NetAddr(IPNet(v4, CIDRMask(ones, V4))), NetAddr(IPNet(Mapped(v4), CIDRMask(ones, V4)))}
  }

  lemma SharesPrefixIsLocal(host: Host, i: nat, k: nat, v4: Bits, ones: nat, x: Bits, ip: Bits)
    requires |v4| == |x| == V4 && HasIPv4(host, i, k, v4, ones)
    requires x[..ones] == v4[..ones] && (ip == x || ip == Mapped(x))
    ensures InLocal(host, ip)
  {
    var a := host.addrs(host.names.value[i]).value[k];
    FormsOfIPv4(a.net.ip, v4);
    FormsOfIPv4(ip, x);
    ContiguousMask(CIDRMask(ones, V4));
    ContiguousAddr(a, ip);
    PrefixAgrees(v4, x, ones);
    assert InAddr(a, ip);
    assert InInterface(host, host.names.value[i], ip);
  }

  /**
   Neighbours are let in: a request from an address, in either form, that shares the prefix of an IPv4 address of
   some listed interface is served, whatever the filter was before.
   */
  lemma NeighbourIsServed(f: Filter, host: Host, i: nat, k: nat, v4: Bits, ones: nat, x: Bits, ip: Bits)
    requires |v4| == |x| == V4 && HasIPv4(host, i, k, v4, ones)
    requires x[..ones] == v4[..ones] && (ip == x || ip == Mapped(x))
    ensures IsServed(f, Request(Some(ip), host))
  {
    SharesPrefixIsLocal(host, i, k, v4, ones, x, ip);
    LocalAccept(host, ip);
    AcceptsMore(f.networks, LocalNetworks(host), ip);
  }

  // ---------------------------------------------------------------- what requests leave behind

  /** A served address is cached, so that the same request again finds it there and changes nothing. */
  lemma ServedIsCached(f: Filter, r: Request)
    requires IsServed(f, r)
    ensures var after := AfterRequest(f, r);
      Equal(r.ip.value, after.cache) && AfterRequest(after, r) == after && IsServed(after, r)
  {
  }

  /** A request is served exactly when its address was accepted before it or is local when it arrives. */
  lemma ServedIff(r: Run, n: nat)
    requires r.Valid() && n < |r.requests|
    ensures var f, q := r.at[n], r.requests[n];
      IsServed(f, q) <==> q.ip.Some? && (Accepts(f.networks, q.ip.value) || InLocal(q.host, q.ip.value))
  {
    var f, q := r.at[n], r.requests[n];
    CacheStaysSound(r, n);
    CacheIsTransparent(f, q.ip);
    if q.ip.Some? {
      AcceptsMore(f.networks, LocalNetworks(q.host), q.ip.value);
      LocalAccept(q.host, q.ip.value);
      AcceptsMore(f.networks, LocalNetworks(q.host), f.cache);
      CacheIsTransparent(Refresh(f, q.host), q.ip);
    }
  }

  /** What is accepted once is accepted after every further request. */
  lemma {:induction false} AcceptanceIsMonotone(r: Run, i: nat, n: nat, ip: Bits)
    requires r.Valid() && i <= n <= |r.requests| && Accepts(r.at[i].networks, ip)
    ensures Accepts(r.at[n].networks, ip)
  {
    if i < n {
      assert r.Step(n - 1);
      AcceptanceIsMonotone(r, i, n - 1, ip);
      AcceptsMore(r.at[n - 1].networks, LocalNetworks(r.requests[n - 1].host), ip);
    }
  }

  /** Refreshing again with the same interfaces lengthens the list and accepts nothing new. */
  lemma RefreshingAgainAddsNothing(f: Filter, host: Host, ip: Bits)
    ensures var once, twice := Refresh(f, host), Refresh(Refresh(f, host), host);
      && |twice.networks| == |once.networks| + |LocalNetworks(host)|
      && (Accepts(twice.networks, ip) <==> Accepts(once.networks, ip))
      && (Accepts(once.networks, ip) <==> Accepts(f.networks, ip) || InLocal(host, ip))
  {
    AcceptsMore(f.networks, LocalNetworks(host), ip);
    AcceptsMore(f.networks + LocalNetworks(host), LocalNetworks(host), ip);
    LocalAccept(host, ip);
  }
}
