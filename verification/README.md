# A verified model of the DNN daemon

The daemon finds DNN nodes, resolves DNN names through them, decides whether the certificate of a
name is to be trusted, signs certificates accordingly, and reads and writes the packets that carry
the answers. This project models the parts that make these decisions and proves what they promise.

| file | module | what it models |
|---|---|---|
| PeerDiscovery.dfy | PeerDiscovery | the crawl that refreshes the pool of nodes |
| Resolver.dfy | Resolver | parallel queries in sets of three, and picking one answer |
| Mapper.dfy | Mapper | the resolution cache: addresses and trust |
| CertVerify.dfy | CertVerify | comparing a declared certificate with a presented one |
| CA.dfy, SignerRuns.dfy | CA, SignerRuns | the signer, one call at a time and under interleaving |
| HandlerRuns.dfy | HandlerRuns | handlers in steps of their own, interleaved with the calls of the signer |
| Detector.dfy | Detector | the grammar of DNN names |
| NameRouting.dfy | NameRouting | the three routines that choose the name to resolve |
| Handlers.dfy | Handlers | what the query handlers and the HTTPS proxy do to the cache |
| Checksum.dfy, Packets.dfy | Checksum, Packets | the IPv4 checksum, building and reading packets |
| DnsConfig.dfy | DnsConfig | saving and changing the DNS settings of adapters |
| Text.dfy, Wrappers.dfy | Text, Wrappers | string operations and small types shared by the others |

Objects the daemon updates in place are classes, its loops are loops with invariants, and each method
is tied to a function or predicate whose properties are proved as lemmas. What comes from outside is
a parameter or left open: answers of nodes and servers, signatures, the hash, the dictionary, the
clock, failures of commands and of reading and writing files, and whatever other programs do to the
adapters in the meantime.
`Discovery` keeps ghost logs of its network calls, `Cache` a ghost history of registrations and
verdicts, and `Machine` ghost lists of what it has observed, of its attempts at saving, of the commands
it has issued and of whether it was safe after each of them and whenever others came in; the main
results are statements about these.

## Main results

- **Crawl.** For all answers of the network a refresh ends after at most 51 crawls, checks each normal
  form at most once and in breadth-first order of everything offered so far, and leaves a pool of at
  most 21 healthy nodes with different normal forms, none of them a seed; the queue is empty at its end
  unless a cap was reached (`RefreshPool`). Urls have one normal form exactly when nothing but letter
  case, white space around them and one final slash distinguishes them (`SameNodeIff`). If the network
  gives each url one answer throughout the refresh, and the same one to urls of one normal form
  (`Answers`, `SameNode`), it has computed reachability, a key being seen if and only if a path of
  healthy nodes leads to it, exactly when the queue holds nothing unseen any more; a key is then in the
  pool if and only if it is healthy and no seed (`CrawlIsReachability`).
- **Trust.** After any sequence of registrations and verdicts a domain is trusted if and only if the key
  selected for it was last registered with a certificate and the last verdict since then, if there is
  one, is good (`TrustOverRuns`). That key is the name itself if it was ever registered and otherwise
  what comes after its first dot (`OwnTrust`, `SubdomainTrust`). The cache, with its shared mutable
  objects, is exactly the replay of its history (`Cache.Valid`).
- **Signer.** Under every interleaving of calls with cache updates and time, a call returns a
  certificate of its own domain that is CA-signed if and only if the domain was trusted at the call's
  own check step (`ServedAsChecked`); so nothing cached earlier is served as trusted by a call that
  checks after the trust is lost (`NoTrustedAfterFailure`).
- **Handlers.** Under every interleaving of handlers and calls, the trust a call sees is decided by the
  last registration and the last verdict on it, whoever passed that (`ServedByLedger`). For a server
  that does not present what is declared, a CA-signed certificate is served in three cases exactly:
  the declaration has not been judged yet; it stands under the good verdict of a handler overtaken by
  this registration; or it was itself judged, in a handshake in which something else was presented
  (`ServedDespiteMismatchIff`).
- **Resolution.** The freshest result that counts decides alone (`FreshestDecides`), and a failed or
  wrongly signed one is as if it were not there (`UncountedIsAbsent`). The order of the
  results is irrelevant exactly when they are settled: what a first response without an owner could
  let through has not found the domain, or nobody is contradicted and all newest agree
  (`OrderIndependentIff`). A name resolves exactly when in some set of three the freshest of
  consistent results has found it (`ResolvesIff`), and the asking stops at the first such set
  (`Resolve`).
- **Names.** Parsing is sound, and printing and parsing give the parts back under an exact condition
  (`RoundTripIff`), on all parts exactly when no dictionary word starts another (`AlwaysRoundTripsIff`);
  then, as on the daemon's own list, the greedy parse decides the grammar (`ParseDecidesGrammar`), and a
  name is recognised by its last label alone, whatever its letter case (`NameIff`). The
  three routines that choose the name to resolve agree under an exact condition (`RoutinesAgreeIff`).
- **Packets.** The emitted header verifies, and packets are read back as they were sent, for IPv6
  exactly when the destination is no DNN address (`IPv4RoundTrip`, `IPv6RoundTrip`).
- **Settings.** If nobody else points an adapter at the daemon, then over any run of configuring and
  healing, with others at work at every point between two commands, an adapter pointing at the daemon
  has a saved entry, it is the first observation of that adapter, and it does not point at the daemon,
  as long as every save keeps all entries and healing points no adapter there that has none (`AnyRun`,
  `FirstObservationWins`). A save keeps all entries exactly when there were none, or the file was left
  as it was, or it was written and the old entries had been loaded or were observed anew (`KeptIff`).

## Where the code does less than its documentation says

- The README of the daemon says removed domains do not resolve. When the freshest result of a set has
  not found the domain, the next set is asked all the same, and an older answer that still found it is
  returned (`OlderSetResolves`, `RemovedCanResolve`). A removed domain resolves exactly when some other
  set than that of the freshest result finds it (`RemovedResolvesIff`), so never with three nodes
  (`RemovedInOneSet`).
- Its owner check compares with the first valid response only and is off when that names no owner, so
  the outcome can depend on the order (`OrderCanMatter`); `OrderIndependentIff` says when it does not.
- The three routines for the name to resolve are meant to agree. They differ whenever the leftmost DNN
  label is the first or second label and something follows it (`FollowedDisagree`,
  `RoutinesCanDisagree`), and `RoutinesAgreeIff` says on which names they agree.
- After a mismatch the proxy means the name it serves to get untrusted certificates from then on. It
  passes the verdict on the parent name, though, while the capture handler files the whole name: such a
  name stays trusted exactly when it has two labels or more before its TLD (`MismatchSparesCapturedIff`,
  with "a.b.TLD" as the input in `MismatchCanSpareServed`; `MismatchSparesIff` for any cache).
- Registering a name forgets what was known against it (`FilingReopensTrust`): the packet stack, which
  never judges, makes any declaration trusted; and the verdicts of two queries that meet can land on
  each other's declarations (`OvertakenVerdictDecides`, `VerdictLands`).
- The Linux capture handler verifies the server at the address and port resolved, the proxy connects to
  the subdomain's own address, and to port 443 for 0 and 80. `JudgedWhereServedIff` says when these are
  the same; when they are not, a name can be trusted whose server never presented what is declared. The
  Windows handler judges the subdomain's own address, and the two differ less often
  (`WindowsJudgesServedIff`). The DNS server judges that address too, but does not file it, so that the
  proxy connects to the other one (`ServerJudgesServedIff`).
- A signature covers an event and not what is resolved: any resolution passes with it
  (`ResolutionIsUnsigned`).
- The comment of the daemon's `SetDNS` promises that what was saved first is kept. `SetDNS` and
  `EnsureDNS` take a file they fail to load for none, and a save that works then drops every entry not
  observed anew (`FailedLoadForgets`); a write that fails may leave a file cut short, with the same
  effect. `EnsureDNS` ignores failed saves besides. `SetDNS` leaves a safe machine safe exactly when its
  save kept the entries. A healing attempt does exactly when it kept them and its command failed, its
  list was written, or the adapter had an entry (`HealingIsSafeIff`, `Machine.SaveAndPoint`). An adapter
  left pointing at the daemon without an entry gets the daemon's own address for one at the next save
  (`HealingCanEndUnsafe`, `RecordsDaemonIff`).
- `normalizeURL` is not idempotent (`NormalizeIsNotIdempotent`, `NormalizeTwiceIff`); the crawl compares
  normal forms only, so nothing depends on it.

## Model

| member | source | states |
|---|---|---|
| `Text.LowerMeaning` | internal/peerdiscovery/peerdiscovery.go:272 | lower-casing changes the case of letters only and leaves no upper case |
| `Text.TrimSpaceOf` | internal/peerdiscovery/peerdiscovery.go:270 | trimming takes off all tabs, line ends and blanks at either end and nothing else |
| `PeerDiscovery.NormalizeURLOf` | internal/peerdiscovery/peerdiscovery.go:269-274 | a normal form has no upper case and is the url without the white space around it and without one final slash, letter case aside |
| `PeerDiscovery.SameNodeIff` | internal/peerdiscovery/peerdiscovery.go:269-274 | two urls have one normal form exactly when what is left of them differs in letter case only |
| `PeerDiscovery.NormalizeTwiceIff` | internal/peerdiscovery/peerdiscovery.go:269-274 | normalising is idempotent exactly on urls that, once trimmed, do not end in a slash after a slash or a blank |
| `PeerDiscovery.NormalizeIsNotIdempotent` | internal/peerdiscovery/peerdiscovery.go:269-274 | a url on which it is not |
| `PeerDiscovery.FirstOfEachMeaning` | internal/peerdiscovery/peerdiscovery.go:135-147 | the reference order lists each new normal form once, by its first url, and no other |
| `PeerDiscovery.UnseenAddsNothingKnown` | internal/peerdiscovery/peerdiscovery.go:164-171 | filtering peers when they are queued changes nothing compared with queueing all of them |
| `PeerDiscovery.UnseenMeaning` | internal/peerdiscovery/peerdiscovery.go:164-171 | what is queued is exactly what has no normal form seen |
| `PeerDiscovery.EndpointOf` | internal/peerdiscovery/peerdiscovery.go:206-208 | an endpoint follows the url of the node with one slash between them, whether the url ends in one or not |
| `PeerDiscovery.CheckKeepsProgress` | internal/peerdiscovery/peerdiscovery.go:135-152 | checking the head of the queue keeps the worklist a refinement of the reference order |
| `PeerDiscovery.CheckKeepsOrder` | internal/peerdiscovery/peerdiscovery.go:135-152 | the next check is of the next url of the breadth-first order of what was offered so far |
| `PeerDiscovery.CrawlKeepsProgress` | internal/peerdiscovery/peerdiscovery.go:160-171 | so does queueing the peers of a crawled node |
| `PeerDiscovery.DiscoveredMeaning` | internal/peerdiscovery/peerdiscovery.go:154-157 | the pool is exactly the urls found healthy that are no seeds, with different normal forms |
| `PeerDiscovery.CrawlClosure` | internal/peerdiscovery/peerdiscovery.go:116-185 | the seen keys are those of seeds, old pool and all peers answered exactly when the queue holds nothing unseen at the end; the pool holds exactly the checked healthy urls that are no seeds, each the first offered with its key |
| `PeerDiscovery.CheckedIsReachable` | internal/peerdiscovery/peerdiscovery.go:116-185 | every url checked is reachable from the start urls through healthy nodes, caps or not |
| `PeerDiscovery.OfferedIsReachable` | internal/peerdiscovery/peerdiscovery.go:116-185 | so is every url that was only queued |
| `PeerDiscovery.ReachableIsChecked` | internal/peerdiscovery/peerdiscovery.go:116-185 | when everything offered was checked, every reachable url was, under its normal form |
| `PeerDiscovery.CrawlIsReachability` | internal/peerdiscovery/peerdiscovery.go:116-185 | seen keys are reachable, and they are all that is reachable exactly when the queue holds nothing unseen at the end; then the pool is the reachable healthy non-seeds, both ways |
| `PeerDiscovery.Discovery.IsSeedNode` | internal/peerdiscovery/peerdiscovery.go:88-95 | finds whether some seed has the same normal form |
| `PeerDiscovery.Discovery.GetNodes` | internal/peerdiscovery/peerdiscovery.go:71-85 | returns the seeds and then the whole pool: the duplicate filter never fires on a pool the crawl made |
| `PeerDiscovery.Discovery.HealthCheck` | internal/peerdiscovery/peerdiscovery.go:242-266 | asks the health endpoint, and makes the test query only if that is not OK; healthy when the last request was OK |
| `PeerDiscovery.Discovery.CrawlNode` | internal/peerdiscovery/peerdiscovery.go:188-239 | asks both peer endpoints once and returns their answers in order |
| `PeerDiscovery.Discovery.EnqueueUnseen` | internal/peerdiscovery/peerdiscovery.go:164-171 | appends exactly the peers not seen yet, in order |
| `PeerDiscovery.Discovery.RefreshPool` | internal/peerdiscovery/peerdiscovery.go:116-185 | ends; at most 51 crawls, one check per normal form in breadth-first order, exactly the healthy ones crawled, the requests sent being those of the checks and crawls in order and the verdicts and peers what they answered; pool of at most 21 different non-seeds; what was checked and what the queue still holds is everything offered, and the queue is empty unless there are 21 in the pool or 51 were crawled |
| `PeerDiscovery.SentCounts` | internal/peerdiscovery/peerdiscovery.go:188-266 | there are one or two requests for each check and two for each crawl |
| `Text.SameNameIff` | internal/mapper/ipv6.go:66-68 | two names have one key exactly when, trimmed, they differ in letter case only; no key has upper case |
| `Mapper.NpubToIPv6` | internal/mapper/ipv6.go:66-79 | every address handed out has 16 bytes and is a DNN address |
| `Mapper.SameAddressIff` | internal/mapper/ipv6.go:66-79 | the address is fd and the first 15 bytes of the hash of the key, so names share one exactly when they share these |
| `Mapper.IPv4IsNoDNNAddress` | internal/mapper/ipv6.go:255-263 | no IPv4 address, in either form, is one |
| `Mapper.IndexesAgree` | internal/mapper/ipv6.go:82-93 | the name index is exactly the registered names with their addresses, and each entry of the address index names a registered name with that address |
| `Mapper.MutualInversesIff` | internal/mapper/ipv6.go:82-113 | going to the address and back returns every registered name exactly when no two share an address |
| `Mapper.TrustOverRuns` | internal/mapper/ipv6.go:121-133 | over any history, trusted exactly when the selected key was last registered with a certificate and was since then not judged or last judged well |
| `Text.AfterFirstDotOf` | internal/mapper/ipv6.go:208-211 | what is looked up for the parent is what comes after the first dot, and nothing if there is none |
| `Mapper.OwnTrust` | internal/mapper/ipv6.go:202-206 | a name that was registered goes by its own history, whatever its parent's |
| `Mapper.SubdomainTrust` | internal/mapper/ipv6.go:208-215 | a subdomain that was not is trusted exactly when the name after its first label is, and no other name counts |
| `Mapper.SingleLabelTrust` | internal/mapper/ipv6.go:202-218 | a name of one label goes by itself only |
| `Mapper.ReplayReflects` | internal/mapper/ipv6.go:121-234 | each entry is the last registration of its name with the last verdict after it |
| `Mapper.EventSparesOthers` | internal/mapper/ipv6.go:202-234 | an event on one name changes no trust but that of the name and its immediate subdomains |
| `Mapper.RegisteredAndJudged` | internal/mapper/ipv6.go:121-234 | registered and judged at once, a name is trusted exactly when a certificate was declared and the verdict is good |
| `Mapper.VerdictDecides` | internal/mapper/ipv6.go:174-234 | a verdict settles the trust of exactly the domains that select its name |
| `Mapper.MismatchSparesIff` | internal/mapper/ipv6.go:174-234 | a bad verdict leaves a domain trusted exactly when it was, and does not select that name |
| `Mapper.Cache.constructor` | internal/mapper/ipv6.go:53-59 | an empty cache |
| `Mapper.Cache.Register` | internal/mapper/ipv6.go:82-93 | adds the name to both indexes and returns its address, which then leads back to it |
| `Mapper.Cache.LookupByIP` | internal/mapper/ipv6.go:96-102 | finds a registered name with that address exactly when there is one |
| `Mapper.Cache.LookupByName` | internal/mapper/ipv6.go:105-113 | finds the address of the name exactly when it was registered |
| `Mapper.Cache.RegisterWithIPAndSubdomains` | internal/mapper/ipv6.go:121-133 | files a fresh unchecked object under the name and leaves all other objects, the replaced one included, as they were |
| `Mapper.Cache.RegisterWithIP` | internal/mapper/ipv6.go:116-118 | the same without subdomain addresses |
| `Mapper.Cache.GetResolution` | internal/mapper/ipv6.go:136-144 | returns the very object filed under the name, with the value the history gives it |
| `Mapper.Cache.HasDeclaredCert` | internal/mapper/ipv6.go:149-167 | whether the history trusts the name itself |
| `Mapper.Cache.FindParent` | internal/mapper/ipv6.go:202-219 | the exact name, else the name without its first label, else nothing |
| `Mapper.Cache.IsCertValidForDomain` | internal/mapper/ipv6.go:174-198 | whether the history trusts the domain |
| `Mapper.Cache.SetCertVerified` | internal/mapper/ipv6.go:223-234 | records the verdict on the object of that name in place and changes no other object |
| `Mapper.Cache.GetSubdomainIP` | internal/mapper/ipv6.go:238-252 | the address last registered for that subdomain of the name, if any |
| `Mapper.ObjectShowsVerdict` | internal/mapper/ipv6.go:136-234 | an object handed out earlier shows the verdict passed later |
| `Mapper.VerdictSparesOthers` | internal/mapper/ipv6.go:223-234 | a verdict leaves every object alone that is not filed under the name |
| `CertVerify.VerifyMeansMatch` | internal/certverify/verify.go:48-95 | valid exactly when both texts are non-empty and equal but for layout |
| `CertVerify.NormalizeIsEssence` | internal/certverify/verify.go:88-95 | the three replacements together leave out exactly carriage returns, line feeds and blanks |
| `CertVerify.LayoutDoesNotMatter` | internal/certverify/verify.go:48-95 | layout put in anywhere changes no verdict |
| `CertVerify.PlainMatchIff` | internal/certverify/verify.go:48-95 | texts without layout match exactly when they are the same and not empty |
| `CertVerify.EmptyNeverMatches` | internal/certverify/verify.go:54-64 | nothing matches an empty text, not even one of layout only |
| `CA.Signer.SetCertChecker` | internal/ca/signer.go:48-50 | installs the checker |
| `CA.Signer.GetCertificate` | internal/ca/signer.go:54-82 | serves a certificate of the domain, good for another hour, CA-signed exactly when the checker trusts the domain, from and into the cache of that kind only |
| `CA.Signer.GetUntrustedCertificate` | internal/ca/signer.go:85-103 | the same for self-signed ones |
| `CA.ServedUntilExpiry` | internal/ca/signer.go:63-189 | a certificate just made is served again, the same one, until 3600 seconds before its 365 days are over, and replaced or missing from then on; other domains keep theirs |
| `SignerRuns.RunsAreSafe` | internal/ca/signer.go:54-103 | in every reachable state the trusted cache holds CA-signed, the other self-signed certificates only, each under its own domain |
| `SignerRuns.ServedAsChecked` | internal/ca/signer.go:54-103 | the certificate a call returns is its domain's own and CA-signed exactly when the domain was trusted at the call's own check step |
| `SignerRuns.NoTrustedAfterFailure` | internal/ca/signer.go:54-103 | once the trust is lost for good, calls that check later get no CA-signed certificate |
| `SignerRuns.NoWarningWhileTrusted` | internal/ca/signer.go:54-103 | while the trust lasts, calls get CA-signed certificates only |
| `SignerRuns.NothingExpiredIsServed` | internal/ca/signer.go:63-103 | a certificate served was good for another hour at some moment during the call |
| `SignerRuns.AloneAsSequential` | internal/ca/signer.go:54-103 | a call left alone leaves and returns what the sequential signer does |
| `HandlerRuns.SignerRefines` | internal/ca/signer.go:54-103 | the signer among the handlers goes through a run of its own, step for act |
| `HandlerRuns.RunsAreRecorded` | internal/mapper/ipv6.go:121-234 | over all interleavings the cache goes by the last registration of each name and the last verdict since, and a verdict that is not overtaken was passed on what is registered |
| `HandlerRuns.LedgerMeaning` | internal/mapper/ipv6.go:121-133 | what is recorded of a name is its last registration in the run, and nothing if there was none |
| `HandlerRuns.VerdictLands` | internal/mapper/ipv6.go:223-234 | a verdict lands on another declaration than it was passed on only if the name was registered anew after its handler took up the job |
| `HandlerRuns.JudgesOnce` | internal/capture/capture_linux.go:226-238 | a handler passes one verdict on what it holds; a second one changes nothing |
| `HandlerRuns.ServedByLedger` | internal/ca/signer.go:54-103 | CA-signed exactly when at the call's own check the selected name was last registered with a certificate and its last verdict, if any, was a match of what its judge held |
| `HandlerRuns.ServedDespiteMismatchIff` | internal/capture/capture_linux.go:226-238 | with a server not presenting the declared certificate, CA-signed exactly when at the check the declaration was unjudged, or stood under the good verdict of an overtaken handler on its own, or was judged in a handshake in which something else was presented |
| `HandlerRuns.OwnVerdictCanMiss` | internal/httpsproxy/proxy.go:292-308 | the last takes one handler only: its good verdict makes the name trusted whatever is presented to the proxy |
| `HandlerRuns.FilingReopensTrust` | internal/stack/stack.go:312-318 | registering makes a name trusted exactly when something is declared, whatever verdict there was before |
| `HandlerRuns.OvertakenVerdictDecides` | internal/capture/capture_linux.go:226-238 | of two queries that meet, the first one's verdict on its own declaration decides the trust of the second one's |
| `Handlers.Preflight` | internal/certverify/preflight.go:28-80 | verified exactly when the server presents the declared certificate |
| `Handlers.HandleDNNQuery` | internal/capture/capture_linux.go:193-238 | when the handler answers, the name is registered, and trusted exactly when the server presents the certificate declared for the resolved name; otherwise no trust changes |
| `Handlers.ServingIPOf` | internal/capture/capture_windows.go:360-376 | the address judged is that of the subdomain, for a name that is one and has one, and the address resolved for every other name |
| `Handlers.HandleDNN` | internal/capture/capture_windows.go:312-400 | the same on Windows, against the address that serves the name, and with the subdomain addresses filed |
| `Handlers.HandleA` | internal/dns/server.go:109-239 | the client is sent to the proxy exactly when the certificate matches, to the transport or the real address otherwise, and the resolved name is trusted accordingly |
| `Handlers.HttpsPortOf` | internal/httpsproxy/proxy.go:310-314 | port 443 for 0 and 80, and every other port as it is |
| `Handlers.ProxyJudgesServed` | internal/httpsproxy/proxy.go:301-335 | for a cached parent the proxy judges the server it connects to: at the subdomain's address, if there is one, and that port |
| `Handlers.HandleHTTPS` | internal/httpsproxy/proxy.go:258-356 | a cached parent name is judged anew by the certificate of the server connected to, otherwise no trust changes; the trust of the name served follows that exactly when it selects the parent, and otherwise stays |
| `Handlers.MismatchSparesCapturedIff` | internal/httpsproxy/proxy.go:338-349 | a trusted name the capture handler filed survives a mismatch at the proxy exactly when its TLD has two labels or more before it |
| `Handlers.MismatchCanSpareServed` | internal/httpsproxy/proxy.go:263-349 | "a.b.TLD" is such a name, whatever the TLD and the two labels |
| `Handlers.HandleStackQuery` | internal/stack/stack.go:302-319 | registers without judging: trusted exactly when a certificate was declared |
| `Handlers.QueryThenServe` | internal/capture/capture_linux.go:193-238 | from query to certificate: CA-signed exactly when the server at the address and port resolved presents the declared certificate; the server connected to may present another one only if it is elsewhere |
| `Handlers.JudgedWhereServedIff` | internal/httpsproxy/proxy.go:284-308 | exactly when the server judged by the query is the one the proxy connects to |
| `Handlers.WindowsJudgesServedIff` | internal/capture/capture_windows.go:360-393 | the same for the Windows handler: without a subdomain, the address judged must be the one resolved; with one, what is cached for the parent, or else a port of 0, 80 or 443 and the address of the first label, decides |
| `Handlers.ServerJudgesServedIff` | internal/dns/server.go:157-226 | the DNS server files no subdomain addresses: when the proxy looks up what it filed, it connects to the address resolved, which is the one judged exactly when the subdomain has no other |
| `Resolver.PickBestResult` | internal/resolver/resolver.go:130-210 | filters, checks the owners and picks as the specification of a pick says; what it returns is the resolution of a result that has not failed, has found the domain, is signed correctly if signed, and is not older than any other that counts |
| `Resolver.CountsIff` | internal/resolver/resolver.go:141-173 | a result counts exactly when it has not failed and its signature, if there is one, checks; with time and owner of the event, or else time 0 and the owner named |
| `Resolver.UncountedIsAbsent` | internal/resolver/resolver.go:141-153 | a failed or wrongly signed result can be left out anywhere without changing the pick |
| `Resolver.PickedIsGenuine` | internal/resolver/resolver.go:141-209 | what is picked is the resolution of a result that has not failed, has found the domain, is signed correctly if signed, and is not older than any other that counts; and no result that counts names another owner than the first one |
| `Resolver.FreshestDecides` | internal/resolver/resolver.go:130-210 | of consistent results the first one of the newest time decides: its resolution, or none if it has not found the domain; of inconsistent ones none is returned |
| `Resolver.NothingValid` | internal/resolver/resolver.go:174-176 | nothing is returned when no result counts, and otherwise there is a freshest one |
| `Resolver.UnsignedLoses` | internal/resolver/resolver.go:160-171 | an unsigned result is never the freshest beside a signed one of positive time |
| `Resolver.UnfilledIsAbsent` | internal/resolver/resolver.go:141-144 | a slot unfilled at the timeout counts as if it were not there |
| `Resolver.ResolutionIsUnsigned` | internal/resolver/resolver.go:141-209 | giving a correctly signed result any other resolution changes no check, and if it is the freshest, it is that other one which is picked |
| `Resolver.OrderIndependentIff` | internal/resolver/resolver.go:56-58 | the pick is the same for every order of the results exactly when: if two name different owners, no ownerless one can come first and leave the pick to a newest that has found the domain; else all newest say the same |
| `Resolver.OwnedAndUniqueIsOrderIndependent` | internal/resolver/resolver.go:178-195 | which is so when every candidate names an owner and only one is newest |
| `Resolver.OrderCanMatter` | internal/resolver/resolver.go:178-187 | results that are picked from in one order and rejected in another |
| `Resolver.FirstBestMeaning` | internal/resolver/resolver.go:61-87 | there is no answer exactly when no set has one, and otherwise it is that of the first set that has |
| `Resolver.ResolvesIff` | internal/resolver/resolver.go:61-87 | there is an answer exactly when in some set the freshest result has found the domain and the owner check passes |
| `Resolver.RemovedResolvesIff` | internal/resolver/resolver.go:61-87 | if the freshest result of all has not found it, exactly when some other set than its own finds it |
| `Resolver.RemovedInOneSet` | internal/resolver/resolver.go:203-207 | with at most three nodes a removed domain does not resolve |
| `Resolver.OlderSetResolves` | internal/resolver/resolver.go:61-87 | any older result that has found the domain makes it resolve from a later set, although the freshest result of all has not found it |
| `Resolver.RemovedCanResolve` | internal/resolver/resolver.go:61-87 | an input with two such results |
| `Resolver.Resolver.UpdateNodes` | internal/resolver/resolver.go:270-278 | replaces the nodes and resets the position if it is out of bounds |
| `Resolver.Resolver.QueryNodesParallel` | internal/resolver/resolver.go:91-126 | at the timeout each slot is unfilled or holds the answer of its own node |
| `Resolver.Resolver.Shuffle` | internal/resolver/resolver.go:55-58 | a permutation of the nodes |
| `Resolver.Resolver.Resolve` | internal/resolver/resolver.go:45-88 | over some order of the nodes, the first best of at most three consecutive sets of three; each node asked at most once, none after the set that has the answer, and all of the first nine if there is none; the answer is what a slot holds that has not failed, has found the domain and is signed correctly if signed |
| `Detector.MatchBIP39Prefix` | internal/detector/detector.go:130-154 | cuts off the longest word the text starts with |
| `Detector.LongestWordIff` | internal/detector/detector.go:130-154 | a word is the one matched exactly when the text starts with it and with no longer word |
| `Detector.IsDNNEncoded` | internal/detector/detector.go:92-126 | accepts exactly the labels the greedy parse has parts for |
| `Detector.ParseIsSound` | internal/detector/detector.go:92-126 | an accepted label is n, word, word, digits, letters, put together |
| `Detector.RoundTripIff` | internal/detector/detector.go:92-154 | printed parts parse back exactly when no longer word starts where the first does, nor where the second does unless digits follow |
| `Detector.AcceptedIff` | internal/detector/detector.go:92-126 | a label is accepted exactly when it prints parts whose words are each the longest possible where they start |
| `Detector.PartsAreUnique` | internal/detector/detector.go:92-126 | no label prints two such parts |
| `Detector.AlwaysRoundTripsIff` | internal/detector/detector.go:92-154 | all parts parse back after printing exactly when no dictionary word starts another |
| `Detector.ParseDecidesGrammar` | internal/detector/detector.go:92-154 | on such a dictionary a label is accepted exactly when well-formed parts print it, and parsed into exactly those |
| `Detector.GrammarIsUnambiguous` | internal/detector/detector.go:92-154 | and no label prints two different well-formed parts |
| `Detector.IsSinglePart` | internal/detector/detector.go:77-85 | whether one label is a DNN identifier |
| `Detector.SinglePartIff` | internal/detector/detector.go:77-126 | with no word starting another, exactly the labels made of n, two words, digits, and at least one letter |
| `Detector.NameIff` | internal/detector/detector.go:24-54 | a name is a DNN name exactly when it has no blank and its last label is a DNN identifier in any letter case, whatever comes before |
| `Detector.FinalDotIgnored` | internal/detector/detector.go:34-62 | a final dot makes no difference to either recogniser |
| `Detector.GetTLD` | internal/detector/detector.go:60-74 | the leftmost DNN label, or else the last label |
| `Detector.TLDIsLeftmostLabel` | internal/detector/detector.go:24-74 | the TLD of a DNN name is a DNN label, and no label before it is one |
| `Detector.TLDOtherwise` | internal/detector/detector.go:72-73 | with no DNN label the TLD is the last label |
| `Detector.TLDTwice` | internal/detector/detector.go:60-74 | taking the TLD is idempotent on every name |
| `Detector.NameOfOneLabel` | internal/detector/detector.go:24-85 | on one lower-case label both recognisers agree |
| `NameRouting.CaptureNameToResolve` | internal/capture/capture_linux.go:194-212 | the loop of the capture handlers computes `CaptureName` |
| `NameRouting.ProxyNames` | internal/httpsproxy/proxy.go:263-282 | the loop of the proxy computes parent name and subdomain |
| `NameRouting.ParentOfThree` | internal/httpsproxy/proxy.go:258-282 | for "a.b.TLD" the subdomain is "a" and the parent "b.TLD" |
| `NameRouting.GuardNeverRejects` | internal/dns/server.go:124-137 | the search-suffix guard never meets a prefix it rejects |
| `NameRouting.ServerNameIs` | internal/dns/server.go:109-138 | the server resolves the TLD with the label before its first occurrence, if that is not empty |
| `NameRouting.RoutinesAgreeIff` | internal/dns/server.go:117-138 | exactly when capture handler, DNS server and proxy compute the same name |
| `NameRouting.RoutinesAgree` | internal/capture/capture_windows.go:315-341 | they do when the TLD has a non-empty label before it and does not occur earlier in the text, whatever follows, given two labels before it; with fewer, on lower-case names that end there |
| `NameRouting.FollowedDisagree` | internal/dns/server.go:117-138 | they never do when the TLD is the first or second label and something follows |
| `NameRouting.RoutinesCanDisagree` | internal/dns/server.go:117-138 | two words of any dictionary in which no word starts another make such a name |
| `NameRouting.SuffixedDisagree` | internal/dns/server.go:110-121 | nor on any DNN label with itself appended as a search suffix |
| `NameRouting.ProxyFindsCapturedIff` | internal/httpsproxy/proxy.go:284-285 | the proxy looks up the name the capture handler filed exactly when the TLD is among the first two labels |
| `NameRouting.CaptureIsParent` | internal/httpsproxy/proxy.go:263-290 | with two labels or more before the TLD the capture handler resolves what the proxy takes for the parent |
| `Checksum.IPv4Checksum` | internal/stack/stack.go:552-561 | both loops end and compute the complement of the folded 32-bit sum |
| `Checksum.FoldMeaning` | internal/stack/stack.go:557-559 | folding keeps the value modulo 65535 and gives 0 for 0 only |
| `Checksum.NoOverflow` | internal/stack/stack.go:553-556 | up to 65537 words the 32-bit sum is the true sum |
| `Checksum.SumIsLow32` | internal/stack/stack.go:552-556 | for any number of words it holds the low 32 bits of the true sum |
| `Checksum.HighByteFirst` | internal/stack/stack.go:376-378 | numbers are written and read with the high byte first |
| `Checksum.VerifiesIff` | internal/stack/stack.go:552-561 | a header verifies exactly when its words add up to a positive multiple of 65535 |
| `Checksum.ChecksumVerifies` | internal/stack/stack.go:513-515 | writing the checksum into a zero word makes the header verify |
| `Checksum.DetectsOneWord` | internal/stack/stack.go:552-561 | exactly which changes of one word go unnoticed |
| `Packets.BuildIPv4Packet` | internal/stack/stack.go:486-521 | the packet built in place is header, checksum and payload as laid down |
| `Packets.BuildIPv6Packet` | internal/stack/stack.go:524-549 | the same for IPv6 |
| `Packets.BuildUDPPacket` | internal/stack/stack.go:373-380 | the UDP header and data, with no checksum |
| `Packets.SendDNSResponse` | internal/stack/stack.go:359-394 | the packet sent is the UDP packet from port 53 in an IP packet of the right version |
| `Packets.UDPLayout` | internal/stack/stack.go:374-380 | ports, length of header and data, no checksum, and the data, at their places; the length is right exactly when it fits |
| `Packets.IPv4Layout` | internal/stack/stack.go:486-518 | every field of the header but the checksum, at its place |
| `Packets.IPv6Layout` | internal/stack/stack.go:524-546 | every field of the header at its place |
| `Packets.To4Of` | internal/stack/stack.go:509-511 | the two forms of an IPv4 address, and that no other address is taken for one |
| `Packets.IPv4RoundTrip` | internal/stack/stack.go:188-267 | read back as sent, with a header that verifies, and length fields of IP and UDP that are right exactly when the lengths fit |
| `Packets.IPv6RoundTrip` | internal/stack/stack.go:219-267 | read back as sent exactly when the destination is no DNN address, and as transport traffic otherwise; length fields of IP and UDP right exactly when the lengths fit |
| `Packets.HandedOutIsTransport` | internal/stack/stack.go:224-229 | every packet to an address the cache hands out takes the transport branch |
| `Packets.ResponseIsNoQuery` | internal/stack/stack.go:188-267 | a response is taken for a query only by a client that asked from port 53, and over IPv6 only at an address that is no DNN address |
| `Packets.CapturedIffQuery` | internal/capture/capture_windows.go:241-280 | over IPv4 the capture handler takes exactly what the stack takes for a query, field by field |
| `Packets.BuildResponsePacket` | internal/capture/capture_windows.go:458-490 | the packet built in place is the patched header and the UDP packet |
| `Packets.ResponseRoundTrip` | internal/capture/capture_windows.go:241-280 | read back with endpoints swapped and the answer unchanged, with both length fields right exactly when the lengths fit and no checksum, and nothing else of the header changed |
| `Packets.ShortHeaderLosesAddress` | internal/capture/capture_windows.go:458-490 | with a header length of 16 the ports take the place of the client's address |
| `DnsConfig.MergeInterfaceConfigs` | internal/dnsconfig/windows.go:192-218 | with something saved, the merge by name, one entry per name; with nothing saved, the current list |
| `DnsConfig.MergeMeaning` | internal/dnsconfig/windows.go:192-218 | merging keeps what is there and takes the first entry for a new name |
| `DnsConfig.AsMapMeaning` | internal/dnsconfig/windows.go:197-201 | of several saved entries with one name the last counts |
| `DnsConfig.NotUsingMeaning` | internal/dnsconfig/windows.go:430-439 | what is healed is exactly what does not list the daemon at all |
| `DnsConfig.PointedMeaning` | internal/dnsconfig/windows.go:284-290 | pointing an adapter at the daemon leaves it the daemon as its one server, and every other adapter as it was |
| `DnsConfig.KeptIff` | internal/dnsconfig/windows.go:192-218 | a save keeps every entry exactly when there was none, or the file is as it was, or it was written and the old list had been loaded or was repeated |
| `DnsConfig.HealingIsSafeIff` | internal/dnsconfig/windows.go:424-453 | an attempt leaves a safe machine safe exactly when it kept every entry and the command failed, the list was written, or the adapter had an entry |
| `DnsConfig.FailedLoadForgets` | internal/dnsconfig/windows.go:440-447 | with a load that fails and a save that works, an adapter pointing at the daemon loses its entry, or gets the daemon's address for it |
| `DnsConfig.HealingCanEndUnsafe` | internal/dnsconfig/windows.go:424-453 | one adapter, a failed save and a command that works: unsafe, and the next save records the daemon's address |
| `DnsConfig.RecordsDaemonIff` | internal/dnsconfig/windows.go:192-218 | a save records the daemon's address exactly when it was recorded in what was loaded or an adapter without an entry there is seen pointing at the daemon; no machine is safe with it |
| `DnsConfig.SaveIsSafeIff` | internal/dnsconfig/windows.go:50-58 | a save leaves a safe machine safe exactly when it keeps every entry, and gives everything written one |
| `DnsConfig.FirstObservationWins` | internal/dnsconfig/windows.go:190-218 | an adapter pointing at the daemon has its first observed setting saved, which does not point at the daemon |
| `DnsConfig.Machine.SetInterfaceDNS` | internal/dnsconfig/windows.go:284-290 | a command that works leaves the adapter the daemon as its one server; one that fails changes nothing |
| `DnsConfig.Machine.SetDNS` | internal/dnsconfig/windows.go:39-72 | a safe machine is safe afterwards exactly when the save, if one was attempted, kept every entry, and then it is safe after every command and whenever others come in, too; success means all adapters that were up are written and then set, failure that none was set |
| `DnsConfig.Machine.SaveAndPoint` | internal/dnsconfig/windows.go:440-449 | with others at work between save and command, a safe machine is safe afterwards exactly when the attempt kept every entry and wrote the list, or changed nothing, or was for an adapter with an entry, and then in between as well; what is saved then follows from what was loaded and became of the file |
| `DnsConfig.Machine.EnsureDNS` | internal/dnsconfig/windows.go:424-453 | makes one attempt for exactly the adapters that did not use the daemon, and reports a change exactly when a command worked; if every attempt was careful, a safe machine stays safe, after every command and whenever others come in, and entries stay if every attempt kept them |
| `DnsConfig.Machine.AnyRun` | internal/dnsconfig/windows.go:39-72 | over any run of both with others in between, if every attempt was careful, a safe machine stays safe, after every command and whenever others come in, and entries stay if every attempt kept them |

## Left out

- Handlers.HandleHTTPS: copying data and the connection pool, which stays empty because nothing is ever returned to it.
- Handlers.HandleDNNQuery, Handlers.HandleDNN: the encoding of the DNS answer, and query types other than A and AAAA, which are passed on after the cache has been updated.
- Packets.ResponseRoundTrip: header lengths under 20, which RFC 791 section 3.1 rules out; the packet built for them is modelled, and what happens at 16 is ShortHeaderLosesAddress.
- Packets: TCP payloads, which the stack ignores, and the checksums WinDivert computes afterwards.
- Resolver.Resolver.Resolve: writes of goroutines after the timeout; the slots are taken as they are at that moment.
- Resolver: decoding JSON and Schnorr signatures; whether a signature checks is a parameter. The excerpts of keys and identifiers made for log lines.
- DnsConfig.Machine.AnyRun: whether others point an adapter elsewhere again later, or a lost entry is observed anew; SaveAndPoint and SetDNS say that the machine is unsafe right after the attempt.
- DnsConfig: RestoreDNS with its sweep over all adapters, the commands themselves, adapters of equal names. A file cut short is taken to be unreadable; it is text that is complete with its last character only.
- Mapper: the text form of addresses; the address index is keyed by the bytes. SHA-256 is any function to 32 bytes.
- CA.Signer.GenerateCert: keys, serial numbers and X.509; a certificate is its domain, its kind and its expiry.
- Detector: the word list itself; the dictionary is any set of words of 3 to 8 lower-case letters. That no word of internal/detector/bip39.go starts another is read off that list and a hypothesis here (PrefixFree).
- Text: letters and white space beyond ASCII.
- Handlers.JudgedWhereServedIff, Handlers.WindowsJudgesServedIff, Handlers.MismatchSparesCapturedIff: names with white space at either end, which the cache takes off and a server name does not have.
- NameRouting.RoutinesAgreeIff: names that still end in a dot; the handlers take it off before, and server names carry none.
- The iptables rules of the Linux capture, the address helpers of the TUN device; TUN devices, service installation, dialogs, configuration files and the stub transports.
- handleAAAA of the DNS server, which registers the TLD, and handleHTTP of the proxy.
- HandlerRuns: handlers that verify before they register are taken to do so at their verdict; what the server presented is then the handshake they had.
- The expiry a declaration gives for a certificate, which the daemon reads and never looks at.
