/** The resolution cache: names to addresses and back, and what was declared and found out about
    the certificate of each name. */
module Mapper {
  import opened Wrappers
  import opened Text

  // ------------------------------------------------------------ addresses

  type Digest = d: seq<byte> | |d| == 32 witness seq(32, i => 0)
  type Hash = string -> Digest

  // fd, then the first 15 bytes of the hash of the normalised name.
  function NpubToIPv6(sha256: Hash, name: string): (ip: seq<byte>)
    ensures |ip| == 16 && IsDNNAddress(ip)
  {
    [0xfd] + sha256(NormalName(name))[..15]
  }

  /** The address of a name is made of the first 15 bytes of its hash, so names share an address exactly
      when they share these. */
  lemma {:induction false} SameAddressIff(sha256: Hash, m: string, n: string)
    ensures NpubToIPv6(sha256, m)[0] == 0xfd
    ensures forall i :: 0 <= i < 15 ==> NpubToIPv6(sha256, m)[i + 1] == sha256(NormalName(m))[i]
    ensures NpubToIPv6(sha256, m) == NpubToIPv6(sha256, n) <==>
            sha256(NormalName(m))[..15] == sha256(NormalName(n))[..15]
  {
    assert NpubToIPv6(sha256, m)[1..] == sha256(NormalName(m))[..15];
    assert NpubToIPv6(sha256, n)[1..] == sha256(NormalName(n))[..15];
  }

  function To16(ip: seq<byte>): seq<byte> {
    if |ip| == 4 then [0, 0, 0, 0, 0, 0, 0, 0, 0, 0, 0xff, 0xff] + ip
    else if |ip| == 16 then ip
    else []
  }

  predicate IsDNNAddress(ip: seq<byte>) {
    var ip16 := if |ip| < 16 then To16(ip) else ip;
    ip16 != [] && ip16[0] == 0xfd
  }

  /** No IPv4 address, however represented, is taken for a DNN address. */
  lemma IPv4IsNoDNNAddress(ip: seq<byte>)
    requires |ip| == 4
    ensures !IsDNNAddress(ip) && !IsDNNAddress(To16(ip))
  {
    assert To16(ip)[0] == 0;
  }

  /** The two indexes, as functions of the names registered so far (normalised, oldest first). */
  function NameIndex(sha256: Hash, names: seq<string>): map<string, seq<byte>> {
    if names == [] then map[]
    else
      var last := names[|names| - 1];
      NameIndex(sha256, names[..|names| - 1])[last := NpubToIPv6(sha256, last)]
  }

  function AddressIndex(sha256: Hash, names: seq<string>): map<seq<byte>, string> {
    if names == [] then map[]
    else
      var last := names[|names| - 1];
      AddressIndex(sha256, names[..|names| - 1])[NpubToIPv6(sha256, last) := last]
  }

  lemma {:induction false} IndexesAgree(sha256: Hash, names: seq<string>)
    ensures forall n :: n in NameIndex(sha256, names) <==> n in names
    ensures forall n :: n in NameIndex(sha256, names) ==> NameIndex(sha256, names)[n] == NpubToIPv6(sha256, n)
    ensures forall n :: n in names ==> NpubToIPv6(sha256, n) in AddressIndex(sha256, names)
    ensures forall a :: a in AddressIndex(sha256, names) ==>
                        AddressIndex(sha256, names)[a] in names
                          && NpubToIPv6(sha256, AddressIndex(sha256, names)[a]) == a
  {
    if names != [] {
      var front, last := names[..|names| - 1], names[|names| - 1];
      assert names == front + [last];
      IndexesAgree(sha256, front);
    }
  }

  predicate Injective(sha256: Hash, names: seq<string>) {
    forall m, n :: m in names && n in names && NpubToIPv6(sha256, m) == NpubToIPv6(sha256, n) ==> m == n
  }

  predicate Maps<K, V(==)>(m: map<K, V>, k: K, v: V) {
    k in m && m[k] == v
  }

  /** Going to the address and back returns every registered name exactly when no two registered
      names share an address; and then the address index has nothing else. */
  lemma {:induction false} MutualInversesIff(sha256: Hash, names: seq<string>)
    ensures Injective(sha256, names) <==>
            forall n :: n in names ==> Maps(AddressIndex(sha256, names), NpubToIPv6(sha256, n), n)
    ensures forall a :: a in AddressIndex(sha256, names) ==>
                        Maps(NameIndex(sha256, names), AddressIndex(sha256, names)[a], a)
    ensures NameIndex(sha256, names).Values == AddressIndex(sha256, names).Keys
  {
    IndexesAgree(sha256, names);
    var forth, back := NameIndex(sha256, names), AddressIndex(sha256, names);
    forall a | a in back.Keys ensures a in forth.Values {
      assert forth[back[a]] == a;
    }
  }

  // ------------------------------------------------------------ trust

  datatype Event =
    | Registered(name: string, ip: string, port: int, declaredPEM: string, subdomainIPs: map<string, string>)
    | Verdict(name: string, verified: bool, error: string)

  datatype Entry = Entry(ip: string, port: int, declaredPEM: string, subdomainIPs: map<string, string>,
                         checked: bool, verified: bool, error: string)

  type Entries = map<string, Entry>

  function Apply(entries: Entries, e: Event): Entries {
    match e
    case Registered(name, ip, port, pem, subs) => entries[name := Entry(ip, port, pem, subs, false, false, "")]
    case Verdict(name, verified, error) =>
      if name in entries then entries[name := entries[name].(checked := true, verified := verified, error := error)]
      else entries
  }

  function Replay(history: seq<Event>): Entries {
    if history == [] then map[] else Apply(Replay(history[..|history| - 1]), history[|history| - 1])
  }

  lemma {:induction false} ReplayAppend(history: seq<Event>, e: Event)
    ensures Replay(history + [e]) == Apply(Replay(history), e)
  {
    assert (history + [e])[..|history|] == history;
  }

  // Declared, and not found wrong: unchecked counts as trusted.
  predicate TrustedEntry(e: Entry) {
    e.declaredPEM != "" && !(e.checked && !e.verified)
  }

  // The exact name, or else the name without its first label; "" when neither is filed.
  function FindParentDomain(entries: Entries, domain: string): string {
    if domain in entries then domain
    else
      match AfterFirstDot(domain)
      case Some(parent) => if parent in entries then parent else ""
      case None => ""
  }

  predicate TrustedIn(entries: Entries, domain: string) {
    var key := FindParentDomain(entries, NormalName(domain));
    key != "" && key in entries && TrustedEntry(entries[key])
  }

  // The same, said of the history alone.

  ghost predicate IsLastRegistration(history: seq<Event>, key: string, i: nat) {
    && i < |history| && history[i].Registered? && history[i].name == key
    && forall j :: i < j < |history| && history[j].Registered? ==> history[j].name != key
  }

  ghost predicate IsLastVerdict(history: seq<Event>, key: string, i: nat) {
    && i < |history| && history[i].Verdict? && history[i].name == key
    && forall j :: i < j < |history| && history[j].Verdict? ==> history[j].name != key
  }

  ghost predicate EverRegistered(history: seq<Event>, key: string) {
    exists i :: 0 <= i < |history| && history[i].Registered? && history[i].name == key
  }

  /** Last registered with a certificate, and since then never judged or last judged well. */
  ghost predicate TrustedByHistory(history: seq<Event>, key: string) {
    exists i: nat :: IsLastRegistration(history, key, i) && history[i].declaredPEM != ""
                     && forall j: nat :: IsLastVerdict(history, key, j) && i < j ==> history[j].verified
  }

  // The selected key: the exact name if it was ever registered, otherwise the parent.
  ghost function SelectedKey(history: seq<Event>, domain: string): string {
    if EverRegistered(history, domain) then domain
    else
      match AfterFirstDot(domain)
      case Some(parent) => parent
      case None => ""
  }

  // What one entry of the replay says about the history.
  ghost predicate Reflects(history: seq<Event>, key: string, e: Entry, i: nat) {
    && IsLastRegistration(history, key, i)
    && history[i] == Registered(key, e.ip, e.port, e.declaredPEM, e.subdomainIPs)
    && (if e.checked
        then exists j: nat :: i < j && IsLastVerdict(history, key, j) && history[j] == Verdict(key, e.verified, e.error)
        else forall j :: i < j < |history| && history[j].Verdict? ==> history[j].name != key)
  }

  lemma {:induction false} ReplayReflects(history: seq<Event>, key: string) returns (i: nat)
    ensures key in Replay(history) <==> EverRegistered(history, key)
    ensures key in Replay(history) ==> Reflects(history, key, Replay(history)[key], i)
  {
    i := 0;
    if history != [] {
      var n := |history| - 1;
      var front, last := history[..n], history[n];
      i := ReplayReflects(front, key);
      EverRegisteredStep(history, key);
      if last.name == key && last.Registered? {
        i := n;
      } else if key in Replay(front) {
        ReflectsStep(history, key, Replay(front)[key], i);
      }
    }
  }

  lemma EverRegisteredStep(history: seq<Event>, key: string)
    requires history != []
    ensures var n := |history| - 1;
            EverRegistered(history, key) <==>
              EverRegistered(history[..n], key) || (history[n].Registered? && history[n].name == key)
  {
    var n := |history| - 1;
    if EverRegistered(history[..n], key) {
      var j :| 0 <= j < n && history[..n][j].Registered? && history[..n][j].name == key;
      assert history[j].Registered? && history[j].name == key;
    }
    if EverRegistered(history, key) {
      var j :| 0 <= j < |history| && history[j].Registered? && history[j].name == key;
      assert j < n ==> history[..n][j] == history[j];
    }
  }

  // One more event that does not register the key again.
  lemma ReflectsStep(history: seq<Event>, key: string, e: Entry, i: nat)
    requires history != [] && Reflects(history[..|history| - 1], key, e, i)
    requires var last := history[|history| - 1]; !(last.Registered? && last.name == key)
    ensures Reflects(history, key, Apply(map[key := e], history[|history| - 1])[key], i)
  {
    var n := |history| - 1;
    var front, last := history[..n], history[n];
    assert forall j :: 0 <= j < n ==> front[j] == history[j];
    if last.name == key {
      assert IsLastVerdict(history, key, n);
    } else if e.checked {
      var j: nat :| i < j && IsLastVerdict(front, key, j) && front[j] == Verdict(key, e.verified, e.error);
      assert IsLastVerdict(history, key, j);
    }
  }

  /** Trust over whole runs: whatever the sequence of registrations and verdicts, the cache trusts a
      domain exactly when the history of its selected key says so. */
  lemma {:induction false} TrustOverRuns(history: seq<Event>, domain: string)
    ensures var key := SelectedKey(history, NormalName(domain));
            TrustedIn(Replay(history), domain) <==> key != "" && TrustedByHistory(history, key)
  {
    var d := NormalName(domain);
    var _ := ReplayReflects(history, d);
    var key := SelectedKey(history, d);
    var i := ReplayReflects(history, key);
    if key in Replay(history) {
      KeyTrustedIff(history, key, i);
    } else {
      assert !EverRegistered(history, key);
    }
  }

  /** A name that was ever registered goes by its own history, whatever its parent's is. */
  lemma {:induction false} OwnTrust(history: seq<Event>, name: string)
    requires EverRegistered(history, NormalName(name))
    ensures TrustedIn(Replay(history), name) <==> NormalName(name) != "" && TrustedByHistory(history, NormalName(name))
  {
    TrustOverRuns(history, name);
  }

  /** A subdomain that was never registered itself goes by the name after its first label, and by no
      other name further up. */
  lemma {:induction false} SubdomainTrust(history: seq<Event>, a: string, parent: string)
    requires '.' !in a && NormalName(a + "." + parent) == a + "." + parent
    requires !EverRegistered(history, a + "." + parent)
    ensures TrustedIn(Replay(history), a + "." + parent) <==> parent != "" && TrustedByHistory(history, parent)
  {
    AfterFirstDotOf(a, parent);
    TrustOverRuns(history, a + "." + parent);
  }

  /** A name of one label goes by itself only. */
  lemma {:induction false} SingleLabelTrust(history: seq<Event>, name: string)
    requires '.' !in name && NormalName(name) == name
    ensures TrustedIn(Replay(history), name) <==> name != "" && TrustedByHistory(history, name)
  {
    AfterFirstDotOf(name, "");
    TrustOverRuns(history, name);
    if !EverRegistered(history, name) {
      assert !TrustedByHistory(history, name);
    }
  }

  lemma {:induction false} KeyTrustedIff(history: seq<Event>, key: string, i: nat)
    requires key in Replay(history) && Reflects(history, key, Replay(history)[key], i)
    ensures TrustedEntry(Replay(history)[key]) <==> TrustedByHistory(history, key)
  {
    var e := Replay(history)[key];
    if TrustedByHistory(history, key) {
      var m: nat :| IsLastRegistration(history, key, m) && history[m].declaredPEM != ""
                    && forall j: nat :: IsLastVerdict(history, key, j) && m < j ==> history[j].verified;
      assert m == i;
    }
    if TrustedEntry(e) {
      forall j: nat | IsLastVerdict(history, key, j) && i < j ensures history[j].verified {
        assert e.checked;
        var m: nat :| i < m && IsLastVerdict(history, key, m) && history[m] == Verdict(key, e.verified, e.error);
        assert m == j;
      }
    }
  }

  /** A registration or verdict for one name changes the trust of no domain but those that select
      that name: the name itself and its immediate subdomains. */
  lemma EventSparesOthers(entries: Entries, e: Event, domain: string)
    requires e.name != NormalName(domain) && AfterFirstDot(NormalName(domain)) != Some(e.name)
    ensures TrustedIn(Apply(entries, e), domain) <==> TrustedIn(entries, domain)
  {
    var d := NormalName(domain);
    assert FindParentDomain(Apply(entries, e), d) == FindParentDomain(entries, d);
  }

  /** A verdict settles the trust of exactly the domains that select its name. */
  lemma VerdictDecides(entries: Entries, key: string, verified: bool, error: string, domain: string)
    requires key in entries
    ensures TrustedIn(Apply(entries, Verdict(key, verified, error)), domain) <==>
            if FindParentDomain(entries, NormalName(domain)) == key
            then key != "" && entries[key].declaredPEM != "" && verified
            else TrustedIn(entries, domain)
  {
    var d := NormalName(domain);
    assert FindParentDomain(Apply(entries, Verdict(key, verified, error)), d) == FindParentDomain(entries, d);
  }

  /** So a bad verdict leaves a domain trusted exactly when it was, and does not select that name. */
  lemma MismatchSparesIff(entries: Entries, name: string, error: string, domain: string)
    ensures TrustedIn(Apply(entries, Verdict(NormalName(name), false, error)), domain) <==>
            TrustedIn(entries, domain) && FindParentDomain(entries, NormalName(domain)) != NormalName(name)
  {
    if NormalName(name) in entries {
      VerdictDecides(entries, NormalName(name), false, error, domain);
    }
  }

  /** Registering a name and judging it at once makes it trusted exactly when something was declared
      and the verdict is good. */
  lemma {:induction false} RegisteredAndJudged(history: seq<Event>, name: string, ip: string, port: int, pem: string,
                                               subs: map<string, string>, verified: bool, error: string)
    ensures var key := NormalName(name);
            TrustedIn(Replay(history + [Registered(key, ip, port, pem, subs)] + [Verdict(key, verified, error)]), name)
            <==> key != "" && pem != "" && verified
  {
    var key := NormalName(name);
    var h := history + [Registered(key, ip, port, pem, subs)];
    ReplayAppend(history, Registered(key, ip, port, pem, subs));
    ReplayAppend(h, Verdict(key, verified, error));
  }

  // ------------------------------------------------------------ the cache

  class Resolution {
    var ip: string
    var port: int
    var declaredCertPEM: string
    var certVerified: bool
    var certChecked: bool
    var certError: string
    var subdomainIPs: map<string, string>

    constructor (ip: string, port: int, certPEM: string, subdomainIPs: map<string, string>)
      ensures Value() == Entry(ip, port, certPEM, subdomainIPs, false, false, "")
    {
      this.ip, this.port, declaredCertPEM, this.subdomainIPs := ip, port, certPEM, subdomainIPs;
      certVerified, certChecked, certError := false, false, "";
    }

    method Judge(verified: bool, error: string)
      modifies this
      ensures Value() == old(Value()).(checked := true, verified := verified, error := error)
    {
      certChecked := true;
      certVerified := verified;
      certError := error;
    }

    function Value(): Entry
      reads this
    {
      Entry(ip, port, declaredCertPEM, subdomainIPs, certChecked, certVerified, certError)
    }
  }

  // The entries the objects filed amount to.
  ghost function ValuesOf(objects: map<string, Resolution>): Entries
    reads objects.Values
  {
    map n | n in objects :: objects[n].Value()
  }

  ghost predicate Unshared(objects: map<string, Resolution>) {
    forall a, b :: a in objects && b in objects && a != b ==> objects[a] != objects[b]
  }

  lemma FiledUnshared(objects: map<string, Resolution>, name: string, res: Resolution)
    requires Unshared(objects) && res !in objects.Values
    ensures Unshared(objects[name := res])
  {
    assert forall n :: n in objects ==> objects[n] in objects.Values;
  }

  lemma FiledValues(objects: map<string, Resolution>, name: string, res: Resolution)
    ensures ValuesOf(objects[name := res]) == ValuesOf(objects)[name := res.Value()]
  {
  }

  class Cache {
    const sha256: Hash
    var ipToName: map<seq<byte>, string>
    var nameToIP: map<string, seq<byte>>
    var resolutions: map<string, Resolution>

    ghost var registered: seq<string> // the arguments of Register so far, normalised
    ghost var history: seq<Event>     // the registrations and verdicts so far, names normalised

    /** The maps are what the calls so far make of them, and no two names share an object. */
    ghost predicate Valid()
      reads this, resolutions.Values
    {
      && Indexed()
      && Unshared(resolutions)
      && ValuesOf(resolutions) == Replay(history)
    }

    ghost predicate Indexed()
      reads this`nameToIP, this`ipToName, this`registered
    {
      nameToIP == NameIndex(sha256, registered) && ipToName == AddressIndex(sha256, registered)
    }

    constructor (sha256: Hash)
      ensures Valid() && history == [] && registered == [] && this.sha256 == sha256
    {
      this.sha256 := sha256;
      ipToName, nameToIP, resolutions, registered, history := map[], map[], map[], [], [];
    }

    method Register(dnnName: string) returns (ip: seq<byte>)
      requires Valid()
      modifies this`ipToName, this`nameToIP, this`registered
      ensures Valid()
      ensures registered == old(registered) + [NormalName(dnnName)]
      ensures ip == NpubToIPv6(sha256, dnnName)
      ensures ip in ipToName && ipToName[ip] == NormalName(dnnName)
    {
      var name := NormalName(dnnName);
      ip := NpubToIPv6(sha256, name);
      NormalNameTwice(dnnName);
      ipToName := ipToName[ip := name];
      nameToIP := nameToIP[name := ip];
      registered := registered + [name];
      assert registered[..|registered| - 1] == old(registered);
    }

    method LookupByIP(ip: seq<byte>) returns (name: Option<string>)
      requires Valid()
      ensures name.Some? <==> exists n :: n in registered && NpubToIPv6(sha256, n) == ip
      ensures name.Some? ==> name.value in registered && NpubToIPv6(sha256, name.value) == ip
    {
      IndexesAgree(sha256, registered);
      name := if ip in ipToName then Some(ipToName[ip]) else None;
    }

    method LookupByName(dnnName: string) returns (ip: Option<seq<byte>>)
      requires Valid()
      ensures ip == if NormalName(dnnName) in registered then Some(NpubToIPv6(sha256, dnnName)) else None
    {
      IndexesAgree(sha256, registered);
      NormalNameTwice(dnnName);
      var name := NormalName(dnnName);
      ip := if name in nameToIP then Some(nameToIP[name]) else None;
    }

    /** Files a fresh object under the name; the object filed before, if any, is left as it was. */
    method RegisterWithIPAndSubdomains(dnnName: string, ip: string, port: int, certPEM: string,
                                       subdomainIPs: map<string, string>)
      requires Valid()
      modifies this`resolutions, this`history
      ensures Valid()
      ensures history == old(history) + [Registered(NormalName(dnnName), ip, port, certPEM, subdomainIPs)]
      ensures resolutions.Keys == old(resolutions.Keys) + {NormalName(dnnName)}
      ensures fresh(resolutions[NormalName(dnnName)])
      ensures resolutions[NormalName(dnnName)].Value() == Entry(ip, port, certPEM, subdomainIPs, false, false, "")
      ensures forall n :: n in old(resolutions) && n != NormalName(dnnName) ==> resolutions[n] == old(resolutions[n])
    {
      File(NormalName(dnnName), ip, port, certPEM, subdomainIPs);
    }

    method File(name: string, ip: string, port: int, certPEM: string, subdomainIPs: map<string, string>)
      requires Valid()
      modifies this`resolutions, this`history
      ensures Valid()
      ensures history == old(history) + [Registered(name, ip, port, certPEM, subdomainIPs)]
      ensures name in resolutions && fresh(resolutions[name])
              && resolutions == old(resolutions)[name := resolutions[name]]
      ensures resolutions[name].Value() == Entry(ip, port, certPEM, subdomainIPs, false, false, "")
    {
      var res := new Resolution(ip, port, certPEM, subdomainIPs);
      Insert(name, res);
      Record(Registered(name, ip, port, certPEM, subdomainIPs));
    }

    // Records an event whose effect is there already.
    ghost method Record(e: Event)
      requires Indexed() && Unshared(resolutions) && ValuesOf(resolutions) == Apply(Replay(history), e)
      modifies this`history
      ensures Valid() && history == old(history) + [e]
    {
      ReplayAppend(history, e);
      history := history + [e];
    }

    method Insert(name: string, res: Resolution)
      requires Unshared(resolutions) && res !in resolutions.Values
      modifies this`resolutions
      ensures resolutions == old(resolutions)[name := res] && Unshared(resolutions)
      ensures ValuesOf(resolutions) == old(ValuesOf(resolutions))[name := res.Value()]
    {
      FiledUnshared(resolutions, name, res);
      FiledValues(resolutions, name, res);
      resolutions := resolutions[name := res];
    }

    method RegisterWithIP(dnnName: string, ip: string, port: int, certPEM: string)
      requires Valid()
      modifies this`resolutions, this`history
      ensures Valid()
      ensures history == old(history) + [Registered(NormalName(dnnName), ip, port, certPEM, map[])]
      ensures resolutions.Keys == old(resolutions.Keys) + {NormalName(dnnName)}
      ensures fresh(resolutions[NormalName(dnnName)])
      ensures resolutions[NormalName(dnnName)].Value() == Entry(ip, port, certPEM, map[], false, false, "")
      ensures forall n :: n in old(resolutions) && n != NormalName(dnnName) ==> resolutions[n] == old(resolutions[n])
    {
      RegisterWithIPAndSubdomains(dnnName, ip, port, certPEM, map[]);
    }

    method GetResolution(dnnName: string) returns (res: Option<Resolution>)
      requires Valid()
      ensures res == if NormalName(dnnName) in resolutions then Some(resolutions[NormalName(dnnName)]) else None
      ensures res.Some? <==> NormalName(dnnName) in Replay(history)
      ensures res.Some? ==> res.value.Value() == Replay(history)[NormalName(dnnName)]
    {
      var name := NormalName(dnnName);
      res := if name in resolutions then Some(resolutions[name]) else None;
    }

    method HasDeclaredCert(dnnName: string) returns (has: bool)
      requires Valid()
      ensures has <==> NormalName(dnnName) in Replay(history) && TrustedEntry(Replay(history)[NormalName(dnnName)])
    {
      var name := NormalName(dnnName);
      if name !in resolutions {
        return false;
      }
      var res := resolutions[name];
      if res.declaredCertPEM == "" {
        return false;
      }
      if res.certChecked && !res.certVerified {
        return false;
      }
      return true;
    }

    method FindParent(fullDomain: string) returns (key: string)
      requires Valid()
      ensures key == FindParentDomain(Replay(history), fullDomain)
    {
      if fullDomain in resolutions {
        return fullDomain;
      }
      var parent := AfterFirstDot(fullDomain);
      if parent.Some? && parent.value in resolutions {
        return parent.value;
      }
      return "";
    }

    method IsCertValidForDomain(fullDomain: string) returns (valid: bool)
      requires Valid()
      ensures valid <==> TrustedIn(Replay(history), fullDomain)
    {
      var parentName := FindParent(NormalName(fullDomain));
      if parentName == "" || parentName !in resolutions {
        return false;
      }
      var res := resolutions[parentName];
      if res.declaredCertPEM == "" {
        return false;
      }
      if res.certChecked && !res.certVerified {
        return false;
      }
      return true;
    }

    /** Judges the object filed under the name, in place, and touches no other object. */
    method SetCertVerified(dnnName: string, verified: bool, certError: string)
      requires Valid()
      modifies this`history, if NormalName(dnnName) in resolutions then {resolutions[NormalName(dnnName)]} else {}
      ensures Valid()
      ensures history == old(history) + [Verdict(NormalName(dnnName), verified, certError)]
      ensures NormalName(dnnName) in resolutions ==>
                var res := resolutions[NormalName(dnnName)];
                res.Value() == old(res.Value()).(checked := true, verified := verified, error := certError)
    {
      Judge(NormalName(dnnName), verified, certError);
      ReplayAppend(old(history), Verdict(NormalName(dnnName), verified, certError));
    }

    method Judge(name: string, verified: bool, certError: string)
      requires Valid()
      modifies this`history, if name in resolutions then {resolutions[name]} else {}
      ensures Valid()
      ensures history == old(history) + [Verdict(name, verified, certError)]
    {
      if name in resolutions {
        JudgeFiled(name, verified, certError);
      } else {
        ReplayAppend(history, Verdict(name, verified, certError));
        history := history + [Verdict(name, verified, certError)];
      }
    }

    method JudgeFiled(name: string, verified: bool, certError: string)
      requires Valid() && name in resolutions
      modifies this`history, resolutions[name]
      ensures Valid()
      ensures history == old(history) + [Verdict(name, verified, certError)]
    {
      Mark(name, verified, certError);
      Record(Verdict(name, verified, certError));
    }

    method Mark(name: string, verified: bool, certError: string)
      requires Unshared(resolutions) && name in resolutions
      modifies resolutions[name]
      ensures ValuesOf(resolutions) == Apply(old(ValuesOf(resolutions)), Verdict(name, verified, certError))
    {
      resolutions[name].Judge(verified, certError);
    }

    method GetSubdomainIP(dnnName: string, subdomain: string) returns (ip: Option<string>)
      requires Valid()
      ensures var name, sub := NormalName(dnnName), NormalName(subdomain);
              ip == if name in Replay(history) && sub in Replay(history)[name].subdomainIPs
                    then Some(Replay(history)[name].subdomainIPs[sub]) else None
    {
      var name, sub := NormalName(dnnName), NormalName(subdomain);
      if name !in resolutions {
        return None;
      }
      var subs := resolutions[name].subdomainIPs;
      ip := if sub in subs then Some(subs[sub]) else None;
    }
  }

  /** An object handed out earlier shows the verdict passed on its name afterwards. */
  method ObjectShowsVerdict(cache: Cache, name: string, verified: bool) returns (res: Resolution)
    requires cache.Valid() && NormalName(name) in cache.resolutions
    modifies cache, cache.resolutions[NormalName(name)]
    ensures cache.Valid()
    ensures res == old(cache.resolutions[NormalName(name)])
    ensures res.Value() == old(res.Value()).(checked := true, verified := verified, error := "")
  {
    var found := cache.GetResolution(name);
    res := found.value;
    cache.SetCertVerified(name, verified, "");
  }

  /** Any object that is not the one filed under the name, another name's or one replaced by a later
      registration, keeps its value. */
  method VerdictSparesOthers(cache: Cache, name: string, verified: bool, other: Resolution)
    requires cache.Valid() && NormalName(name) in cache.resolutions
    requires other != cache.resolutions[NormalName(name)]
    modifies cache, cache.resolutions[NormalName(name)]
    ensures cache.Valid()
    ensures cache.resolutions == old(cache.resolutions)
    ensures cache.resolutions[NormalName(name)].Value() ==
            old(cache.resolutions[NormalName(name)].Value()).(checked := true, verified := verified, error := "")
    ensures other.Value() == old(other.Value())
  {
    cache.SetCertVerified(name, verified, "");
  }
}
