/** What the query handlers and the HTTPS proxy do to the cache: resolve, register, judge. */
module Handlers {
  import opened Wrappers
  import opened Text
  import opened CertVerify
  import opened Mapper
  import opened Detector
  import opened NameRouting
  import opened CA
  import Resolver

  type Resolved = Resolver.Resolved

  // What resolving a name comes to.
  type Nodes = string -> Option<Resolved>

  // The certificate presented in a handshake with an address under a server name, if there is one.
  type Servers = (string, int, string) -> Option<string>

  function HttpsPort(port: int): int {
    if port == 0 || port == 80 then 443 else port
  }

  // The address that serves a name: that of its subdomain, when the resolution has one.
  function ServingIP(name: string, resolvedName: string, r: Resolved): string {
    if name != resolvedName && HasSuffix(name, "." + resolvedName) then
      var sub := name[..|name| - |resolvedName| - 1];
      if sub in r.subdomainIPs then r.subdomainIPs[sub] else r.ip
    else r.ip
  }

  /** A subdomain with an address of its own is served from there, everything else from the address
      resolved. */
  lemma {:induction false} ServingIPOf(a: string, resolvedName: string, name: string, r: Resolved)
    ensures ServingIP(a + "." + resolvedName, resolvedName, r) ==
            if a in r.subdomainIPs then r.subdomainIPs[a] else r.ip
    ensures (forall b: string :: name != b + "." + resolvedName) ==> ServingIP(name, resolvedName, r) == r.ip
  {
    var full, suffix := a + "." + resolvedName, "." + resolvedName;
    assert full[|full| - |suffix|..] == suffix && full[..|full| - |suffix|] == a;
    assert |full| > |resolvedName|;
    if name != resolvedName && HasSuffix(name, suffix) {
      assert name == name[..|name| - |suffix|] + "." + resolvedName;
    }
  }

  lemma HttpsPortOf(port: int)
    ensures HttpsPort(0) == 443 && HttpsPort(80) == 443
    ensures port !in {0, 80} ==> HttpsPort(port) == port
  {
  }

  predicate HasSuffix(s: string, t: string) {
    |t| <= |s| && s[|s| - |t|..] == t
  }

  method Preflight(declaredPEM: string, handshake: Option<string>) returns (verified: bool, error: string)
    ensures verified <==> Matches(declaredPEM, handshake)
  {
    if declaredPEM == "" {
      return false, "no declared cert";
    }
    if handshake.None? {
      return false, "no server certificate";
    }
    VerifyMeansMatch(declaredPEM, handshake.value);
    return VerifyCert(declaredPEM, handshake.value).Valid?, "";
  }

  predicate Trusts(history: seq<Event>, name: string) {
    TrustedIn(Replay(history), name)
  }

  // The name was registered with what was resolved, and at most judged since.
  ghost predicate RegisteredNow(before: seq<Event>, after: seq<Event>, name: string, r: Resolved,
                                subs: map<string, string>)
  {
    && before + [Registered(NormalName(name), r.ip, r.port, r.certPEM, subs)] <= after
    && |after| <= |before| + 2
    && (|after| == |before| + 2 ==> after[|before| + 1].Verdict? && after[|before| + 1].name == NormalName(name))
  }

  // The entry of the name is what was resolved, and all others are as before.
  lemma {:induction false} FiledEntry(before: seq<Event>, after: seq<Event>, name: string, r: Resolved,
                                      subs: map<string, string>)
    requires RegisteredNow(before, after, name, r, subs)
    ensures var key, entries := NormalName(name), Replay(after);
            && key in entries
            && entries[key].ip == r.ip && entries[key].port == r.port && entries[key].subdomainIPs == subs
            && forall k :: k != key ==>
                 (k in entries <==> k in Replay(before)) && (k in entries ==> entries[k] == Replay(before)[k])
  {
    var e := Registered(NormalName(name), r.ip, r.port, r.certPEM, subs);
    ReplayAppend(before, e);
    if |after| == |before| + 2 {
      ReplayAppend(before + [e], after[|before| + 1]);
      assert after == before + [e] + [after[|before| + 1]];
    } else {
      assert after == before + [e];
    }
  }

  /** Linux: when the handler answers, the name is trusted exactly when the certificate declared for
      what it resolved is the one its server presents. When it does not, the cache is as before. */
  method HandleDNNQuery(words: Dictionary, cache: Cache, name: string, nodes: Nodes, servers: Servers)
    returns (answer: Option<seq<byte>>)
    requires cache.Valid()
    modifies cache
    ensures cache.Valid()
    ensures answer.Some? <==> nodes(CaptureName(words, name)).Some?
    ensures answer.None? ==> cache.history == old(cache.history)
    ensures answer.Some? ==>
              var r := nodes(CaptureName(words, name)).value;
              && answer.value == NpubToIPv6(cache.sha256, name) && NormalName(name) in cache.registered
              && RegisteredNow(old(cache.history), cache.history, name, r, map[])
              && (Trusts(cache.history, name) <==>
                  NormalName(name) != "" && Matches(r.certPEM, servers(r.ip, r.port, name)))
  {
    var nameToResolve := CaptureNameToResolve(words, name);
    var resolution := nodes(nameToResolve);
    if resolution.None? {
      return None;
    }
    var r := resolution.value;
    var ip := cache.Register(name);
    RegisterAndPreflight(cache, name, r, servers);
    return Some(ip);
  }

  method RegisterAndPreflight(cache: Cache, name: string, r: Resolved, servers: Servers)
    requires cache.Valid()
    modifies cache`resolutions, cache`history
    ensures cache.Valid()
    ensures RegisteredNow(old(cache.history), cache.history, name, r, map[])
    ensures Trusts(cache.history, name) <==> NormalName(name) != "" && Matches(r.certPEM, servers(r.ip, r.port, name))
  {
    ghost var h := cache.history;
    cache.RegisterWithIP(name, r.ip, r.port, r.certPEM);
    if r.certPEM != "" {
      var verified, error := Preflight(r.certPEM, servers(r.ip, r.port, name));
      JudgeRegistered(cache, name, verified, error, h);
    } else {
      ReplayAppend(h, Registered(NormalName(name), r.ip, r.port, "", map[]));
    }
  }

  // Sets the verdict of a name just registered.
  method JudgeRegistered(cache: Cache, name: string, verified: bool, error: string, ghost h: seq<Event>)
    requires cache.Valid() && NormalName(name) in cache.resolutions
    requires |cache.history| == |h| + 1 && cache.history == h + [cache.history[|h|]]
    requires cache.history[|h|].Registered? && cache.history[|h|].name == NormalName(name)
    modifies cache`history, cache.resolutions[NormalName(name)]
    ensures cache.Valid()
    ensures cache.history == old(cache.history) + [Verdict(NormalName(name), verified, error)]
    ensures Trusts(cache.history, name) <==>
            NormalName(name) != "" && old(cache.history[|h|].declaredPEM) != "" && verified
  {
    ghost var e := cache.history[|h|];
    cache.SetCertVerified(name, verified, error);
    RegisteredAndJudged(h, name, e.ip, e.port, e.declaredPEM, e.subdomainIPs, verified, error);
  }

  // Verifies the server that will serve the name.
  method VerifyServing(name: string, target: string, r: Resolved, servers: Servers)
    returns (verified: bool, error: string)
    ensures verified <==> Matches(r.certPEM, servers(ServingIP(name, target, r), HttpsPort(r.port), target))
  {
    var verifyIP := ServingIP(name, target, r);
    verified, error := Preflight(r.certPEM, servers(verifyIP, HttpsPort(r.port), target));
  }

  // Files what was resolved and the verdict on it.
  method RegisterJudged(cache: Cache, name: string, r: Resolved, subs: map<string, string>, verified: bool,
                        error: string)
    requires cache.Valid()
    modifies cache`resolutions, cache`history
    ensures cache.Valid()
    ensures RegisteredNow(old(cache.history), cache.history, name, r, subs)
    ensures Trusts(cache.history, name) <==> NormalName(name) != "" && r.certPEM != "" && verified
  {
    ghost var h := cache.history;
    cache.RegisterWithIPAndSubdomains(name, r.ip, r.port, r.certPEM, subs);
    JudgeRegistered(cache, name, verified, error, h);
  }

  /** Windows: the same, against the address that serves the name. */
  method HandleDNN(words: Dictionary, cache: Cache, name: string, nodes: Nodes, servers: Servers)
    returns (answer: Option<seq<byte>>)
    requires cache.Valid()
    modifies cache
    ensures cache.Valid()
    ensures answer.Some? <==> nodes(CaptureName(words, name)).Some?
    ensures answer.None? ==> cache.history == old(cache.history)
    ensures answer.Some? ==>
              var r := nodes(CaptureName(words, name)).value;
              var target := CaptureName(words, name);
              var handshake := servers(ServingIP(name, target, r), HttpsPort(r.port), target);
              && answer.value == NpubToIPv6(cache.sha256, name) && NormalName(name) in cache.registered
              && RegisteredNow(old(cache.history), cache.history, name, r, r.subdomainIPs)
              && (Trusts(cache.history, name) <==> NormalName(name) != "" && Matches(r.certPEM, handshake))
  {
    var nameToResolve := CaptureNameToResolve(words, name);
    var resolution := nodes(nameToResolve);
    if resolution.None? {
      return None;
    }
    var r := resolution.value;
    var verified, error := VerifyServing(name, nameToResolve, r, servers);
    var ip := cache.Register(name);
    RegisterJudged(cache, name, r, r.subdomainIPs, verified, error);
    return Some(ip);
  }

  datatype Answer = NoAnswer | ViaTransport | ViaProxy | Direct(ip: string)

  /** The DNS server sends a client to the proxy exactly when the declared certificate is the
      server's, or else to the real address; and then the resolved name is trusted accordingly. */
  method HandleA(words: Dictionary, cache: Cache, dnnName: string, nodes: Nodes, servers: Servers, hasTransport: bool,
                 isIP: string -> bool)
    returns (answer: Answer)
    requires cache.Valid()
    modifies cache
    ensures cache.Valid()
    ensures answer.NoAnswer? ==> cache.history == old(cache.history)
    ensures !answer.NoAnswer? ==> nodes(ServerName(words, dnnName)).Some?
    ensures nodes(ServerName(words, dnnName)).Some? ==>
              var target, r := ServerName(words, dnnName), nodes(ServerName(words, dnnName)).value;
              var good := Matches(r.certPEM,
                                  servers(ServingIP(Canonical(dnnName), target, r), HttpsPort(r.port), target));
              && answer == (if hasTransport then ViaTransport else if good then ViaProxy
                            else if isIP(r.ip) then Direct(r.ip) else NoAnswer)
              && (!answer.NoAnswer? ==> RegisteredNow(old(cache.history), cache.history, target, r, map[]))
              && (!answer.NoAnswer? ==> (Trusts(cache.history, target) <==> NormalName(target) != "" && good))
  {
    var target := ServerName(words, dnnName);
    var resolution := nodes(target);
    if resolution.None? {
      return NoAnswer;
    }
    var r := resolution.value;
    var verified, error := VerifyServing(Canonical(dnnName), target, r, servers);
    if hasTransport {
      answer := ViaTransport;
    } else if verified {
      answer := ViaProxy;
    } else {
      if !isIP(r.ip) {
        return NoAnswer;
      }
      answer := Direct(r.ip);
    }
    RegisterJudged(cache, target, r, map[], verified, error);
  }

  // The server the proxy connects to for a subdomain of a name.
  function ProxyTarget(e: Entry, subdomain: string): (string, int) {
    (if subdomain != "" && subdomain in e.subdomainIPs then e.subdomainIPs[subdomain] else e.ip, HttpsPort(e.port))
  }

  // What the proxy goes by when it has to resolve the parent name itself.
  function Fallback(r: Resolved): Entry {
    Entry(r.ip, 443, r.certPEM, r.subdomainIPs, false, false, "")
  }

  // What the server answers the proxy, if the parent name is cached.
  function CachedHandshake(servers: Servers, entries: Entries, key: string, subdomain: string, serverName: string)
    : Option<string>
  {
    if key in entries then AnswersProxy(servers, entries[key], subdomain, serverName) else None
  }

  /** The proxy judges the parent name again by the certificate of the server it connects to. If the
      name is not cached, or no certificate presented, the cache is as before. The trust of the name
      served is settled by that exactly when it selects the parent, and otherwise stays. */
  method HandleHTTPS(words: Dictionary, cache: Cache, serverName: string, nodes: Nodes, servers: Servers)
    requires cache.Valid()
    modifies cache, cache.resolutions.Values
    ensures cache.Valid()
    ensures var parent, before := ProxyName(words, serverName), old(Replay(cache.history));
            var key := NormalName(parent);
            var handshake := CachedHandshake(servers, before, key, ProxySubdomain(words, serverName), serverName);
            if handshake.Some?
            then Trusts(cache.history, parent) <==> key != "" && Matches(before[key].declaredPEM, handshake)
            else Replay(cache.history) == before
    ensures var parent, before := ProxyName(words, serverName), old(Replay(cache.history));
            var key := NormalName(parent);
            var handshake := CachedHandshake(servers, before, key, ProxySubdomain(words, serverName), serverName);
            Trusts(cache.history, serverName) <==>
            if handshake.Some? && FindParentDomain(before, NormalName(serverName)) == key
            then key != "" && Matches(before[key].declaredPEM, handshake)
            else TrustedIn(before, serverName)
  {
    var subdomain, parentName := ProxyNames(words, serverName);
    var cached := cache.GetResolution(parentName);
    var e: Entry;
    if cached.Some? {
      e := cached.value.Value();
    } else {
      var resolution := nodes(parentName);
      if resolution.None? {
        return;
      }
      var r := resolution.value;
      e := Fallback(r);
    }
    var handshake := AnswersProxy(servers, e, subdomain, serverName);
    if handshake.None? {
      return;
    }
    JudgeParent(cache, parentName, e, handshake, serverName);
  }

  // Verifies the certificate presented and sets the verdict of the parent name, if that is cached.
  method JudgeParent(cache: Cache, parentName: string, e: Entry, handshake: Option<string>, ghost serverName: string)
    requires cache.Valid()
    requires NormalName(parentName) in Replay(cache.history) ==> e == Replay(cache.history)[NormalName(parentName)]
    modifies cache`history, cache.resolutions.Values
    ensures cache.Valid()
    ensures var key, before := NormalName(parentName), old(Replay(cache.history));
            var good := key != "" && Matches(e.declaredPEM, handshake);
            if key in before
            then && (Trusts(cache.history, parentName) <==> good)
                 && (Trusts(cache.history, serverName) <==>
                     if FindParentDomain(before, NormalName(serverName)) == key then good
                     else TrustedIn(before, serverName))
            else Replay(cache.history) == before
  {
    var verified, error := Preflight(e.declaredPEM, handshake);
    cache.SetCertVerified(parentName, verified, error);
    ReplayAppend(old(cache.history), Verdict(NormalName(parentName), verified, error));
    JudgedByProxy(old(Replay(cache.history)), parentName, verified, error, serverName);
  }

  lemma JudgedByProxy(entries: Entries, parentName: string, verified: bool, error: string, serverName: string)
    ensures var key := NormalName(parentName);
            var after := Apply(entries, Verdict(key, verified, error));
            if key in entries
            then (TrustedIn(after, parentName) <==> key != "" && entries[key].declaredPEM != "" && verified)
                 && (TrustedIn(after, serverName) <==>
                     if FindParentDomain(entries, NormalName(serverName)) == key
                     then key != "" && entries[key].declaredPEM != "" && verified
                     else TrustedIn(entries, serverName))
            else after == entries
  {
    var key := NormalName(parentName);
    if key in entries {
      VerdictDecides(entries, key, verified, error, parentName);
      VerdictDecides(entries, key, verified, error, serverName);
    }
  }

  function AnswersProxy(servers: Servers, e: Entry, subdomain: string, serverName: string): Option<string> {
    var (ip, port) := ProxyTarget(e, subdomain);
    servers(ip, port, serverName)
  }

  /** The proxy means a mismatch to end the trust of the name it serves. For a name the capture handler
      has filed it does so exactly when the TLD is among the first two labels. */
  lemma MismatchSparesCapturedIff(words: Dictionary, entries: Entries, name: string, error: string)
    requires IsTrimmed(name) && NormalName(name) in entries && TrustedIn(entries, name)
    ensures TrustedIn(Apply(entries, Verdict(NormalName(ProxyName(words, name)), false, error)), name) <==>
            Position(Split(ToLower(name)), TLDOf(words, name)) >= 2
  {
    TrimSpaceTrims(name);
    ParentNameIsShorter(name, Split(ToLower(name)), TLDOf(words, name));
    TrimSpaceShortens(ProxyName(words, name));
    MismatchSparesIff(entries, ProxyName(words, name), error, name);
  }

  lemma MismatchSparesAlone(words: Dictionary, name: string, e: Entry, error: string)
    requires name != "" && IsTrimmed(name) && NormalName(name) == name && TrustedEntry(e)
    requires Position(Split(ToLower(name)), TLDOf(words, name)) >= 2
    ensures TrustedIn(map[name := e], name)
    ensures TrustedIn(Apply(map[name := e], Verdict(NormalName(ProxyName(words, name)), false, error)), name)
  {
    assert FindParentDomain(map[name := e], name) == name;
    MismatchSparesCapturedIff(words, map[name := e], name, error);
  }

  /** So for "a.b.TLD", filed as trusted: the proxy judges "b.TLD", cached or not, and the name served
      stays trusted whatever its server presents. */
  lemma MismatchCanSpareServed(words: Dictionary, a: string, b: string, part: string, e: Entry, error: string)
    requires IsPlain(words, a) && IsPlain(words, b)
    requires IsSinglePartDNN(words, part) && '.' !in part && ToLower(part) == part
    requires TrustedEntry(e)
    ensures var name := a + "." + (b + "." + part);
            && ProxyName(words, name) == b + "." + part
            && TrustedIn(map[name := e], name)
            && TrustedIn(Apply(map[name := e], Verdict(NormalName(ProxyName(words, name)), false, error)), name)
  {
    var name := a + "." + (b + "." + part);
    ParentOfThree(words, a, b, part);
    TrimSpaceTrims(name);
    LowerTwice(TrimSpace(name));
    MismatchSparesAlone(words, name, e, error);
  }

  /** The packet stack registers what it has resolved and judges nothing: the name is then trusted
      exactly when a certificate was declared, whatever the server presents. */
  method HandleStackQuery(cache: Cache, dnnName: string, nodes: Nodes) returns (answered: bool)
    requires cache.Valid()
    modifies cache
    ensures cache.Valid()
    ensures answered <==> nodes(dnnName).Some?
    ensures !answered ==> cache.history == old(cache.history)
    ensures answered ==> RegisteredNow(old(cache.history), cache.history, dnnName, nodes(dnnName).value, map[])
    ensures answered ==> (Trusts(cache.history, dnnName) <==>
                          NormalName(dnnName) != "" && nodes(dnnName).value.certPEM != "")
  {
    var resolution := nodes(dnnName);
    if resolution.None? {
      return false;
    }
    var r := resolution.value;
    cache.RegisterWithIP(dnnName, r.ip, r.port, r.certPEM);
    ReplayAppend(old(cache.history), Registered(NormalName(dnnName), r.ip, r.port, r.certPEM, map[]));
    return true;
  }

  // Where the proxy connects to for a name.
  function ConnectsTo(words: Dictionary, entries: Entries, nodes: Nodes, serverName: string): Option<(string, int)> {
    var parent := ProxyName(words, serverName);
    if NormalName(parent) in entries
    then Some(ProxyTarget(entries[NormalName(parent)], ProxySubdomain(words, serverName)))
    else
      match nodes(parent)
      case Some(r) => Some(ProxyTarget(Fallback(r), ProxySubdomain(words, serverName)))
      case None => None
  }

  /** The proxy judges the very server it connects to: for a cached parent, the one at the address of the
      subdomain, if that has one, and at the port resolved, 443 for 0 and 80. */
  lemma {:induction false} ProxyJudgesServed(words: Dictionary, entries: Entries, nodes: Nodes, servers: Servers,
                                             serverName: string)
    requires NormalName(ProxyName(words, serverName)) in entries
    ensures var key, sub := NormalName(ProxyName(words, serverName)), ProxySubdomain(words, serverName);
            var e := entries[key];
            var ip := if sub != "" && sub in e.subdomainIPs then e.subdomainIPs[sub] else e.ip;
            var port := if e.port in {0, 80} then 443 else e.port;
            && ConnectsTo(words, entries, nodes, serverName) == Some((ip, port))
            && CachedHandshake(servers, entries, key, sub, serverName) == servers(ip, port, serverName)
  {
  }

  /** The Linux handler judges the server at the address and port resolved, which need not be the one the
      proxy connects to. After a query it is exactly when: with the TLD among the first two labels, the
      port is neither 0 nor 80, which the proxy takes for 443; with more, the parent is cached with just
      that address and port for the subdomain, or else the port is 443 and the subdomain has no other
      address of its own. */
  lemma {:induction false} JudgedWhereServedIff(words: Dictionary, before: seq<Event>, after: seq<Event>, name: string,
                                                nodes: Nodes, r: Resolved)
    requires RegisteredNow(before, after, name, r, map[]) && nodes(CaptureName(words, name)) == Some(r)
    requires IsTrimmed(name)
    ensures var key, sub := NormalName(ProxyName(words, name)), ProxySubdomain(words, name);
            ConnectsTo(words, Replay(after), nodes, name) == Some((r.ip, r.port)) <==>
            if Position(Split(ToLower(name)), TLDOf(words, name)) < 2 then r.port != 0 && r.port != 80
            else if key in Replay(before) then ProxyTarget(Replay(before)[key], sub) == (r.ip, r.port)
            else r.port == 443 && (sub != "" && sub in r.subdomainIPs ==> r.subdomainIPs[sub] == r.ip)
  {
    FiledEntry(before, after, name, r, map[]);
    TrimSpaceTrims(name);
    ParentNameIsShorter(name, Split(ToLower(name)), TLDOf(words, name));
    TrimSpaceShortens(ProxyName(words, name));
    if Position(Split(ToLower(name)), TLDOf(words, name)) >= 2 {
      CaptureIsParent(words, name);
    }
  }

  /** The address of the subdomain, if that has one, and the port resolved, 443 for 0 and 80. */
  lemma {:induction false} ProxyTargetOf(e: Entry, subdomain: string)
    ensures ProxyTarget(e, subdomain).0 ==
            if subdomain != "" && subdomain in e.subdomainIPs then e.subdomainIPs[subdomain] else e.ip
    ensures ProxyTarget(e, subdomain).1 == if e.port in {0, 80} then 443 else e.port
  {
  }

  /** The Windows handler judges the server that serves the name. That is where the proxy connects to
      exactly when: with the TLD among the first two labels, that is the address resolved; with more,
      the parent is cached with just that target for the first label, or else the port comes to 443 and
      the first label has just that address. */
  lemma {:induction false} WindowsJudgesServedIff(words: Dictionary, before: seq<Event>, after: seq<Event>,
                                                  name: string, nodes: Nodes, r: Resolved)
    requires RegisteredNow(before, after, name, r, r.subdomainIPs) && nodes(CaptureName(words, name)) == Some(r)
    requires IsTrimmed(name)
    ensures var key, sub := NormalName(ProxyName(words, name)), ProxySubdomain(words, name);
            var judged := (ServingIP(name, CaptureName(words, name), r), HttpsPort(r.port));
            ConnectsTo(words, Replay(after), nodes, name) == Some(judged) <==>
            if Position(Split(ToLower(name)), TLDOf(words, name)) < 2 then judged.0 == r.ip
            else if key in Replay(before) then ProxyTarget(Replay(before)[key], sub) == judged
            else && r.port in {0, 80, 443}
                 && judged.0 == if sub != "" && sub in r.subdomainIPs then r.subdomainIPs[sub] else r.ip
  {
    FiledEntry(before, after, name, r, r.subdomainIPs);
    TrimSpaceTrims(name);
    ParentNameIsShorter(name, Split(ToLower(name)), TLDOf(words, name));
    TrimSpaceShortens(ProxyName(words, name));
    if Position(Split(ToLower(name)), TLDOf(words, name)) >= 2 {
      CaptureIsParent(words, name);
    }
  }

  /** The DNS server judges the same server, but files no subdomain addresses: when the proxy looks the
      name up under what the server resolved, it connects to the address resolved, which is the one
      judged exactly when the subdomain has no other address. */
  lemma {:induction false} ServerJudgesServedIff(words: Dictionary, before: seq<Event>, after: seq<Event>, name: string,
                                                 nodes: Nodes, r: Resolved)
    requires var target := ServerName(words, name);
             && RegisteredNow(before, after, target, r, map[]) && nodes(target) == Some(r)
             && NormalName(ProxyName(words, name)) == NormalName(target)
    ensures var connected := ConnectsTo(words, Replay(after), nodes, name);
            && connected == Some((r.ip, if r.port in {0, 80} then 443 else r.port))
            && (connected == Some((ServingIP(Canonical(name), ServerName(words, name), r), HttpsPort(r.port))) <==>
                ServingIP(Canonical(name), ServerName(words, name), r) == r.ip)
  {
    FiledEntry(before, after, ServerName(words, name), r, map[]);
  }

  /** From the query to the certificate: a browser that asks right after the handler has answered is
      served a CA-signed certificate exactly when the server at the address and port resolved presents
      the declared one. The server it is connected to may then present another one only if that is
      elsewhere. */
  method QueryThenServe(words: Dictionary, cache: Cache, signer: Signer, name: string, nodes: Nodes, servers: Servers,
                        now: int, generated: bool, ghost r: Resolved)
    returns (cert: Option<Cert>)
    requires cache.Valid() && signer.Valid() && signer.certChecker == cache
    requires nodes(CaptureName(words, name)) == Some(r)
    modifies cache, signer
    ensures cert.Some? ==> (cert.value.caSigned <==>
                            NormalName(name) != "" && Matches(r.certPEM, servers(r.ip, r.port, name)))
    ensures RegisteredNow(old(cache.history), cache.history, name, r, map[])
    ensures var target := ConnectsTo(words, Replay(cache.history), nodes, name);
            cert.Some? && cert.value.caSigned && target.Some?
            && !Matches(r.certPEM, servers(target.value.0, target.value.1, name)) ==>
              target.value != (r.ip, r.port)
  {
    var answer := HandleDNNQuery(words, cache, name, nodes, servers);
    ghost var good := NormalName(name) != "" && Matches(r.certPEM, servers(r.ip, r.port, name));
    cert := ServeAs(cache, signer, name, now, generated, good);
  }

  method ServeAs(cache: Cache, signer: Signer, domain: string, now: int, generated: bool, ghost trusted: bool)
    returns (cert: Option<Cert>)
    requires cache.Valid() && signer.Valid() && signer.certChecker == cache
    requires trusted <==> Trusts(cache.history, domain)
    modifies signer
    ensures cert.Some? ==> cert.value.caSigned == trusted
  {
    cert := signer.GetCertificate(domain, now, generated);
  }
}
