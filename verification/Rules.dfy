/** First-match rules over an endpoint whose name is resolved only when a rule asks for it. */
module Rules {
  import opened Bytes
  import opened Subnets

  // ---- what a match is ------------------------------------------------------------------------

  datatype SubnetSpec = SubnetSpec(base: Address, prefix: nat)
  {
    predicate Ok() { base.Ok() && 0 < prefix <= |base.bits| }
  }

  predicate SubnetsOk(subnets: seq<SubnetSpec>)
  {
    forall i :: 0 <= i < |subnets| ==> subnets[i].Ok()
  }

  /** The built-in rules; `ByHost` stands for the domain, affix and regular expression rules. */
  datatype Rule =
    | Geo(code: int, match_: bool)
    | InSubnets(subnets: seq<SubnetSpec>)
    | DnsFail
    | All
    | ByHost(hits: string -> bool)
  {
    predicate Ok() { InSubnets? ==> SubnetsOk(subnets) }
  }

  datatype MatchResult = Match | NotMatch | ResolveNeeded

  /** Where a session goes, before any resolution. */
  datatype Target = DomainTarget(host: string) | AddressTarget(host: string, address: Address)
  {
    predicate Ok() { AddressTarget? ==> address.Ok() }
  }

  /** What the resolver will say. */
  datatype Dns = DnsFailure | DnsAnswer(addresses: seq<Address>)
  {
    predicate Ok() { DnsAnswer? ==> addresses != [] && forall a :: a in addresses ==> a.Ok() }
  }

  /** The address of the target once resolved, if it has one. */
  function FinalAddress(t: Target, dns: Dns): (r: Option<Address>)
    requires t.Ok() && dns.Ok()
    ensures r.Some? ==> r.value.Ok()
  {
    if t.AddressTarget? then Some(t.address) else if dns.DnsFailure? then None else Some(dns.addresses[0])
  }

  predicate InAny(subnets: seq<SubnetSpec>, a: Address)
    requires a.Ok() && SubnetsOk(subnets)
  {
    exists i :: 0 <= i < |subnets| && InSubnet(a, subnets[i].base, subnets[i].prefix)
  }

  lemma InAnyMeans(subnets: seq<SubnetSpec>, a: Address)
    requires a.Ok() && SubnetsOk(subnets)
    ensures InAny(subnets, a) <==>
      exists k :: 0 <= k < |subnets| && a.v4 == subnets[k].base.v4
        && a.bits[..subnets[k].prefix] == subnets[k].base.bits[..subnets[k].prefix]
  {
    forall k | 0 <= k < |subnets| && a.v4 == subnets[k].base.v4
      ensures InSubnet(a, subnets[k].base, subnets[k].prefix) <==>
        a.bits[..subnets[k].prefix] == subnets[k].base.bits[..subnets[k].prefix]
    {
      LeadingBits(a, subnets[k].base, subnets[k].prefix);
    }
  }

  /** What a rule says when the address, or that there is none, is known. */
  predicate Hits(rule: Rule, t: Target, address: Option<Address>, country: Address -> int)
    requires rule.Ok() && (address.Some? ==> address.value.Ok())
  {
    match rule
    case Geo(code, match_) => address.Some? && (country(address.value) == code) == match_
    case InSubnets(subnets) => address.Some? && InAny(subnets, address.value)
    case DnsFail => address.None?
    case All => true
    case ByHost(hits) => t.DomainTarget? && hits(t.host)
  }

  /** Rules that look at the address. */
  predicate Needs(rule: Rule)
  {
    rule.Geo? || rule.InSubnets? || rule.DnsFail?
  }

  /** Rules that neither look at the address nor hit this host name. */
  predicate PassesOver(rule: Rule, host: string)
  {
    rule.ByHost? && !rule.hits(host)
  }

  /** The first rule that either looks at the address or hits without it looks at the address. */
  ghost predicate Asks(rules: seq<Rule>, host: string, from: nat)
  {
    exists i :: from <= i < |rules| && Needs(rules[i]) && forall j :: from <= j < i ==> PassesOver(rules[j], host)
  }

  predicate AllOk(rules: seq<Rule>)
  {
    forall i :: 0 <= i < |rules| ==> rules[i].Ok()
  }

  /** Resolving first and then taking the first rule that hits. */
  function FirstHit(rules: seq<Rule>, t: Target, address: Option<Address>, country: Address -> int,
                    from: nat): (r: Option<nat>)
    requires AllOk(rules) && (address.Some? ==> address.value.Ok()) && from <= |rules|
    ensures r.Some? ==> from <= r.value < |rules| && Hits(rules[r.value], t, address, country)
    ensures forall i :: from <= i < (if r.Some? then r.value else |rules|) ==> !Hits(rules[i], t, address, country)
    decreases |rules| - from
  {
    if from == |rules| then None
    else if Hits(rules[from], t, address, country) then Some(from)
    else FirstHit(rules, t, address, country, from + 1)
  }

  // ---- the endpoint and the session -----------------------------------------------------------

  class Endpoint {
    const target: Target
    var addresses: Option<seq<Address>>
    var resolved: bool
    var resolving: bool

    ghost predicate Valid()
      reads this
    {
      && target.Ok() && (addresses.Some? ==> resolved)
      && (addresses.Some? ==> addresses.value != [] && forall a :: a in addresses.value ==> a.Ok())
    }

    constructor (target: Target)
      requires target.Ok()
      ensures Valid() && this.target == target && addresses == None && !resolved && !resolving
    {
      this.target := target;
      addresses, resolved, resolving := None, false, false;
    }

    predicate IsAddressAvailable()
      reads this
    {
      target.AddressTarget? || addresses.Some?
    }

    predicate IsResolvable()
      reads this
    {
      target.AddressTarget? || !(resolved && addresses.None?)
    }

    function CurrentAddress(): (a: Address)
      requires Valid() && IsAddressAvailable()
      reads this
      ensures a.Ok()
    {
      if target.AddressTarget? then target.address else addresses.value[0]
    }

    /** The answer that has been given agrees with `dns`. */
    ghost predicate Agrees(dns: Dns)
      reads this
    {
      dns.Ok() && (resolved ==> addresses == if dns.DnsFailure? then None else Some(dns.addresses))
    }

    method ForceResolve()
      requires Valid() && !resolving
      modifies this`resolving
      ensures Valid() && resolving
    {
      resolving := true;
    }

    /** Resolve asserts that no resolution has been made or is under way. */
    method Resolve()
      requires Valid() && !resolved && !resolving
      modifies this`resolving
      ensures Valid() && resolving
    {
      ForceResolve();
    }

    method OnResolved(dns: Dns)
      requires Valid() && resolving && dns.Ok()
      modifies this
      ensures Valid() && resolved && !resolving && Agrees(dns)
      ensures dns.DnsFailure? ==> addresses == None
      ensures dns.DnsAnswer? ==>
        addresses == Some(dns.addresses) && (target.DomainTarget? ==> CurrentAddress() == dns.addresses[0])
    {
      resolving := false;
      resolved := true;
      if dns.DnsFailure? {
        addresses := None;
        return;
      }
      addresses := Some(dns.addresses);
    }
  }

  /** Once there is an answer, an endpoint has an address exactly if its target has one after that answer, and it is
      that one; it can still get one only before the answer. */
  lemma AnsweredAddress(endpoint: Endpoint, dns: Dns)
    requires endpoint.Valid() && endpoint.Agrees(dns) && (endpoint.resolved || endpoint.target.AddressTarget?)
    ensures endpoint.IsAddressAvailable() <==> FinalAddress(endpoint.target, dns).Some?
    ensures endpoint.IsAddressAvailable() ==> FinalAddress(endpoint.target, dns) == Some(endpoint.CurrentAddress())
    ensures endpoint.IsResolvable() <==> endpoint.IsAddressAvailable()
    ensures endpoint.IsAddressAvailable() <==> endpoint.target.AddressTarget? || dns.DnsAnswer?
    ensures endpoint.target.AddressTarget? ==> endpoint.CurrentAddress() == endpoint.target.address
    ensures endpoint.target.DomainTarget? && dns.DnsAnswer? ==> endpoint.CurrentAddress() == dns.addresses[0]
  {
  }

  class Session {
    const endpoint: Endpoint
    /** The cached country of the endpoint's address. */
    var countryCache: Option<int>
    const country: Address -> int

    /** What is cached is what a lookup would give. */
    ghost predicate Valid()
      reads this, endpoint
    {
      && endpoint.Valid()
      && (countryCache.Some? ==>
          endpoint.IsAddressAvailable() && countryCache.value == country(endpoint.CurrentAddress()))
    }

    constructor (endpoint: Endpoint, country: Address -> int)
      requires endpoint.Valid()
      ensures this.endpoint == endpoint && this.country == country && countryCache == None && Valid()
    {
      this.endpoint, this.country, countryCache := endpoint, country, None;
    }

    method LookupAndCache(address: Address) returns (code: int)
      requires Valid() && endpoint.IsAddressAvailable() && address == endpoint.CurrentAddress()
      modifies this`countryCache
      ensures Valid() && code == country(address) && countryCache == Some(code)
    {
      code := country(address);
      countryCache := Some(code);
    }
  }

  // ---- matching one rule ----------------------------------------------------------------------

  ghost predicate SoundFor(r: MatchResult, rule: Rule, t: Target, dns: Dns, country: Address -> int)
    requires rule.Ok() && t.Ok() && dns.Ok()
  {
    r == ResolveNeeded || (r == Match <==> Hits(rule, t, FinalAddress(t, dns), country))
  }

  /** A definite answer is the answer of the rule for every outcome of the resolution that can still come;
      an indefinite one is given exactly if the resolution is needed and has not been made. */
  ghost predicate Sound(r: MatchResult, rule: Rule, session: Session)
    requires rule.Ok() && session.Valid()
    reads session, session.endpoint
  {
    && (r == ResolveNeeded <==> Needs(rule) && !session.endpoint.resolved && session.endpoint.target.DomainTarget?)
    && forall dns: Dns :: session.endpoint.Agrees(dns) ==>
         SoundFor(r, rule, session.endpoint.target, dns, session.country)
  }

  method MatchGeo(rule: Rule, session: Session) returns (r: MatchResult)
    requires rule.Geo? && session.Valid()
    modifies session`countryCache
    ensures session.Valid() && Sound(r, rule, session)
    ensures r == Match <==>
      session.endpoint.IsAddressAvailable() &&
      (session.country(session.endpoint.CurrentAddress()) == rule.code) == rule.match_
    ensures session.countryCache.Some? <==> session.endpoint.IsAddressAvailable()
  {
    var code;
    if session.countryCache.Some? {
      code := session.countryCache.value;
    } else if session.endpoint.IsAddressAvailable() {
      code := session.LookupAndCache(session.endpoint.CurrentAddress());
    } else if session.endpoint.IsResolvable() {
      return ResolveNeeded;
    } else {
      return NotMatch;
    }
    r := if (code == rule.code) == rule.match_ then Match else NotMatch;
  }

  method LookUp(subnets: seq<SubnetSpec>, address: Address) returns (found: bool)
    requires address.Ok() && SubnetsOk(subnets)
    ensures found <==> InAny(subnets, address)
    ensures found <==>
      exists k :: 0 <= k < |subnets| && address.v4 == subnets[k].base.v4
        && address.bits[..subnets[k].prefix] == subnets[k].base.bits[..subnets[k].prefix]
  {
    InAnyMeans(subnets, address);
    var i := 0;
    while i < |subnets|
      invariant i <= |subnets|
      invariant forall j :: 0 <= j < i ==> !InSubnet(address, subnets[j].base, subnets[j].prefix)
    {
      var subnet := new Subnet(subnets[i].base, subnets[i].prefix);
      var contains := subnet.Contains(address);
      if contains {
        return true;
      }
      i := i + 1;
    }
    found := false;
  }

  method MatchSubnets(rule: Rule, session: Session) returns (r: MatchResult)
    requires rule.InSubnets? && rule.Ok() && session.Valid()
    ensures Sound(r, rule, session)
    ensures r == Match <==>
      session.endpoint.IsAddressAvailable() && InAny(rule.subnets, session.endpoint.CurrentAddress())
  {
    if session.endpoint.IsAddressAvailable() {
      var found := LookUp(rule.subnets, session.endpoint.CurrentAddress());
      r := if found then Match else NotMatch;
    } else {
      r := if session.endpoint.IsResolvable() then ResolveNeeded else NotMatch;
    }
  }

  function MatchDnsFail(available: bool, resolvable: bool): MatchResult
  {
    if available then NotMatch else if resolvable then ResolveNeeded else Match
  }

  method MatchRule(rule: Rule, session: Session) returns (r: MatchResult)
    requires rule.Ok() && session.Valid()
    modifies session`countryCache
    ensures session.Valid() && Sound(r, rule, session)
  {
    match rule {
      case Geo(_, _) => r := MatchGeo(rule, session);
      case InSubnets(_) => r := MatchSubnets(rule, session);
      case DnsFail => r := MatchDnsFail(session.endpoint.IsAddressAvailable(), session.endpoint.IsResolvable());
      case All => r := Match;
      case ByHost(hits) =>
        r := if session.endpoint.target.DomainTarget? && hits(session.endpoint.target.host) then Match else NotMatch;
    }
  }

  // ---- the manager ----------------------------------------------------------------------------

  /** How a run of the iterator ends: at a rule, at the end, waiting for the resolver at a rule, or cancelled. */
  datatype Progress = Chosen(index: nat) | NoMatch | Waiting(index: nat) | Dropped

  ghost predicate NoneHits(rules: seq<Rule>, index: nat, t: Target, dns: Dns, country: Address -> int)
    requires AllOk(rules) && index <= |rules| && t.Ok() && dns.Ok()
  {
    forall j :: 0 <= j < index ==> !Hits(rules[j], t, FinalAddress(t, dns), country)
  }

  class RuleManager {
    var rules: seq<Rule>

    constructor ()
      ensures rules == []
    {
      rules := [];
    }

    method AppendRule(rule: Rule)
      modifies this
      ensures rules == old(rules) + [rule]
    {
      rules := rules + [rule];
    }

    /** The rules in front of `index` do not hit, whatever the resolver says. */
    ghost predicate Passed(session: Session, index: nat)
      requires session.Valid() && AllOk(rules)
      reads this, session, session.endpoint
    {
      index <= |rules| &&
      forall dns: Dns :: session.endpoint.Agrees(dns) ==>
        NoneHits(rules, index, session.endpoint.target, dns, session.country)
    }

    /** Before the resolution, only a rule on the host name can fail to match for good. */
    lemma SoundMeans(r: MatchResult, rule: Rule, session: Session)
      requires session.Valid() && rule.Ok() && Sound(r, rule, session)
      ensures !session.endpoint.resolved && session.endpoint.target.DomainTarget? && r != ResolveNeeded ==>
        !Needs(rule) && (r == NotMatch <==> PassesOver(rule, session.endpoint.target.host))
    {
      assert session.endpoint.resolved || session.endpoint.Agrees(DnsFailure);
      assert session.endpoint.resolved || SoundFor(r, rule, session.endpoint.target, DnsFailure, session.country);
    }

    /** The result is that of resolving first. */
    ghost predicate Decides(p: Progress, session: Session, dns: Dns)
      requires session.Valid() && AllOk(rules) && dns.Ok()
      reads this, session, session.endpoint
    {
      var t := session.endpoint.target;
      p == match FirstHit(rules, t, FinalAddress(t, dns), session.country, 0)
           case Some(i) => Chosen(i)
           case None => NoMatch
    }

    /** What that means for the rules up to the chosen one: a rule on the country or on subnets looks at the first
        address of the answer. */
    lemma ChoiceMeans(p: Progress, session: Session, dns: Dns, i: nat)
      requires session.Valid() && AllOk(rules) && dns.Ok() && Decides(p, session, dns)
      requires i < |rules| && (p.Chosen? ==> i <= p.index)
      ensures (p.Chosen? && p.index < |rules|) || p == NoMatch
      ensures var t, chosen := session.endpoint.target, p == Chosen(i);
        match rules[i]
        case Geo(code, match_) =>
          if t.AddressTarget? then chosen <==> (session.country(t.address) == code) == match_
          else chosen <==> dns.DnsAnswer? && (session.country(dns.addresses[0]) == code) == match_
        case InSubnets(subnets) =>
          if t.DomainTarget? && dns.DnsFailure? then !chosen
          else
            var a := if t.AddressTarget? then t.address else dns.addresses[0];
            chosen <==>
              exists k :: 0 <= k < |subnets| && a.v4 == subnets[k].base.v4
                && a.bits[..subnets[k].prefix] == subnets[k].base.bits[..subnets[k].prefix]
        case DnsFail => chosen <==> t.DomainTarget? && dns.DnsFailure?
        case All => chosen
        case ByHost(hits) => chosen <==> t.DomainTarget? && hits(t.host)
    {
      var t := session.endpoint.target;
      var address := FinalAddress(t, dns);
      if rules[i].InSubnets? && address.Some? {
        InAnyMeans(rules[i].subnets, address.value);
      }
    }

    lemma DecidedBy(session: Session, index: nat)
      requires session.Valid() && AllOk(rules) && Passed(session, index) && index < |rules|
      requires Sound(MatchResult.Match, rules[index], session)
      ensures forall dns: Dns :: session.endpoint.Agrees(dns) ==> Decides(Chosen(index), session, dns)
    {
      forall dns: Dns | session.endpoint.Agrees(dns)
        ensures Decides(Chosen(index), session, dns)
      {
        var t := session.endpoint.target;
        assert NoneHits(rules, index, t, dns, session.country);
        assert SoundFor(MatchResult.Match, rules[index], t, dns, session.country);
      }
    }

    /** From rule `start` on, until a rule hits or asks for the resolution. */
    method MatchIterator(start: nat, session: Session, cancelled: bool) returns (p: Progress)
      requires session.Valid() && AllOk(rules) && !session.endpoint.resolving && Passed(session, start)
      modifies session`countryCache, session.endpoint`resolving
      ensures session.Valid() && (p.Dropped? <==> cancelled)
      ensures p.Waiting? ==> start <= p.index < |rules| && Passed(session, p.index)
      ensures p.Waiting? <==> session.endpoint.resolving
      ensures p.Waiting? ==> !session.endpoint.resolved && session.endpoint.target.DomainTarget?
      ensures !cancelled && !session.endpoint.resolved && session.endpoint.target.DomainTarget? ==>
        (p.Waiting? <==> Asks(rules, session.endpoint.target.host, start))
      ensures p.Chosen? || p.NoMatch? ==> forall dns: Dns :: session.endpoint.Agrees(dns) ==> Decides(p, session, dns)
    {
      if cancelled {
        return Dropped;
      }
      var iter := start;
      while iter < |rules|
        invariant start <= iter <= |rules| && session.Valid() && !session.endpoint.resolving && Passed(session, iter)
        invariant !session.endpoint.resolved && session.endpoint.target.DomainTarget? ==>
          forall j :: start <= j < iter ==> PassesOver(rules[j], session.endpoint.target.host)
      {
        var r := MatchRule(rules[iter], session);
        SoundMeans(r, rules[iter], session);
        match r {
          case Match =>
            DecidedBy(session, iter);
            return Chosen(iter);
          case NotMatch =>
            iter := iter + 1;
          case ResolveNeeded =>
            session.endpoint.Resolve();
            return Waiting(iter);
        }
      }
      p := NoMatch;
    }

    /** Matches a session; `dns` is what the resolver will say if it is asked, which happens at most once. */
    method Match(session: Session, dns: Dns) returns (p: Progress, resolutions: nat)
      requires session.Valid() && AllOk(rules) && !session.endpoint.resolving && session.endpoint.Agrees(dns)
      modifies session, session.endpoint
      ensures session.Valid() && Decides(p, session, dns) && (p.Chosen? || p.NoMatch?)
      ensures resolutions <= 1 && (resolutions == 1 <==> session.endpoint.resolved && !old(session.endpoint.resolved))
      ensures resolutions == 1 <==>
        !old(session.endpoint.resolved) && session.endpoint.target.DomainTarget?
          && Asks(rules, session.endpoint.target.host, 0)
      ensures session.endpoint.Agrees(dns)
    {
      resolutions := 0;
      assert Passed(session, 0);
      p := MatchIterator(0, session, false);
      while p.Waiting?
        invariant session.Valid() && session.endpoint.Agrees(dns) && !p.Dropped?
        invariant p.Waiting? ==> p.index < |rules| && Passed(session, p.index)
        invariant p.Waiting? ==> !session.endpoint.resolved && session.endpoint.target.DomainTarget?
        invariant p.Waiting? <==> session.endpoint.resolving
        invariant session.endpoint.resolved && !old(session.endpoint.resolved) ==>
          session.endpoint.target.DomainTarget? && Asks(rules, session.endpoint.target.host, 0)
        invariant !session.endpoint.resolved && session.endpoint.target.DomainTarget? ==>
          (p.Waiting? <==> Asks(rules, session.endpoint.target.host, 0))
        invariant p.Chosen? || p.NoMatch? ==> Decides(p, session, dns)
        invariant resolutions == if session.endpoint.resolved && !old(session.endpoint.resolved) then 1 else 0
        decreases if session.endpoint.resolved then 0 else 1
      {
        var index := p.index;
        session.endpoint.OnResolved(dns);
        resolutions := resolutions + 1;
        p := MatchIterator(index, session, false);
      }
    }
  }
}
