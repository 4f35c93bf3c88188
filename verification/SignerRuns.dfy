/** GetCertificate under interleaving: any number of calls, each advancing one access to shared
    state at a time, mixed with updates of the resolution cache and the passing of time. */
module SignerRuns {
  import opened Mapper
  import opened CA

  /** Where a goroutine stands. After its check a call carries the verdict it saw, which decides the
      cache it uses and the kind of certificate it makes. */
  datatype Pc =
    | Idle
    | Checking(domain: string)
    | Loading(domain: string, ca: bool)
    | Examining(domain: string, ca: bool, cert: Cert)
    | Deleting(domain: string, ca: bool)
    | Generating(domain: string, ca: bool)
    | Storing(domain: string, ca: bool, cert: Cert)
    | Done(domain: string, ca: bool, cert: Cert)
    | Failed(domain: string, ca: bool)

  datatype State = State(entries: Entries, now: int, trusted: map<string, Cert>, untrusted: map<string, Cert>,
                         threads: map<nat, Pc>)
  {
    function Pc(t: nat): Pc {
      if t in threads then threads[t] else Idle
    }

    function Move(t: nat, pc: Pc): State {
      this.(threads := threads[t := pc])
    }

    function Certs(ca: bool): map<string, Cert> {
      if ca then trusted else untrusted
    }

    function WithCerts(ca: bool, certs: map<string, Cert>): State {
      if ca then this.(trusted := certs) else this.(untrusted := certs)
    }
  }

  datatype Step =
    | Call(t: nat, domain: string)
    | Check(t: nat)
    | Load(t: nat)
    | Examine(t: nat)
    | Delete(t: nat)
    | Generate(t: nat, generated: bool)
    | Store(t: nat)
    | Update(event: Event)
    | Tick(seconds: nat)

  predicate AtRest(pc: Pc) {
    pc.Idle? || pc.Done? || pc.Failed?
  }

  // A step its goroutine is not ready for changes nothing.
  function After(s: State, step: Step): State {
    match step
    case Call(t, domain) => if AtRest(s.Pc(t)) then s.Move(t, Checking(domain)) else s
    case Check(t) =>
      var pc := s.Pc(t);
      if pc.Checking? then s.Move(t, Loading(pc.domain, TrustedIn(s.entries, pc.domain))) else s
    case Load(t) =>
      var pc := s.Pc(t);
      if !pc.Loading? then s
      else if pc.domain in s.Certs(pc.ca) then s.Move(t, Examining(pc.domain, pc.ca, s.Certs(pc.ca)[pc.domain]))
      else s.Move(t, Generating(pc.domain, pc.ca))
    case Examine(t) =>
      var pc := s.Pc(t);
      if !pc.Examining? then s
      else if Usable(pc.cert, s.now) then s.Move(t, Done(pc.domain, pc.ca, pc.cert))
      else s.Move(t, Deleting(pc.domain, pc.ca))
    case Delete(t) =>
      var pc := s.Pc(t);
      if !pc.Deleting? then s
      else s.WithCerts(pc.ca, s.Certs(pc.ca) - {pc.domain}).Move(t, Generating(pc.domain, pc.ca))
    case Generate(t, generated) =>
      var pc := s.Pc(t);
      if !pc.Generating? then s
      else if !generated then s.Move(t, Failed(pc.domain, pc.ca))
      else s.Move(t, Storing(pc.domain, pc.ca, Cert(pc.domain, pc.ca, s.now + CERT_VALID)))
    case Store(t) =>
      var pc := s.Pc(t);
      if !pc.Storing? then s
      else s.WithCerts(pc.ca, s.Certs(pc.ca)[pc.domain := pc.cert]).Move(t, Done(pc.domain, pc.ca, pc.cert))
    case Update(event) => s.(entries := Apply(s.entries, event))
    case Tick(seconds) => s.(now := s.now + seconds)
  }

  function Exec(s: State, steps: seq<Step>): State {
    if steps == [] then s else After(Exec(s, steps[..|steps| - 1]), steps[|steps| - 1])
  }

  // The state after the first m steps.
  function StateAt(s: State, steps: seq<Step>, m: nat): State
    requires m <= |steps|
  {
    Exec(s, steps[..m])
  }

  lemma StateAtFront(s: State, steps: seq<Step>, n: nat, m: nat)
    requires m <= n <= |steps|
    ensures StateAt(s, steps[..n], m) == StateAt(s, steps, m)
  {
    assert steps[..n][..m] == steps[..m];
  }

  lemma {:induction false} StateAtEnd(s: State, steps: seq<Step>)
    ensures StateAt(s, steps, |steps|) == Exec(s, steps)
  {
    assert steps[..|steps|] == steps;
  }

  function Initial(entries: Entries, now: int): State {
    State(entries, now, map[], map[], map[])
  }

  predicate PastCheck(pc: Pc) {
    !pc.Idle? && !pc.Checking?
  }

  ghost predicate CertFits(pc: Pc) {
    pc.Examining? || pc.Storing? || pc.Done? ==> pc.cert.domain == pc.domain && pc.cert.caSigned == pc.ca
  }

  ghost predicate Safe(s: State) {
    SafeCaches(s.trusted, s.untrusted) && forall t :: t in s.threads ==> CertFits(s.threads[t])
  }

  lemma MoveKeepsSafe(s: State, t: nat, pc: Pc)
    requires Safe(s) && CertFits(pc)
    ensures Safe(s.Move(t, pc))
  {
  }

  lemma CertsKeepSafe(s: State, ca: bool, domain: string, cert: Cert)
    requires Safe(s) && cert.domain == domain && cert.caSigned == ca
    ensures Safe(s.WithCerts(ca, s.Certs(ca)[domain := cert]))
    ensures Safe(s.WithCerts(ca, s.Certs(ca) - {domain}))
  {
  }

  lemma StoreKeepsSafe(s: State, t: nat)
    requires Safe(s)
    ensures Safe(After(s, Store(t)))
  {
    var pc := s.Pc(t);
    if pc.Storing? {
      assert CertFits(pc);
      CertsKeepSafe(s, pc.ca, pc.domain, pc.cert);
      MoveKeepsSafe(s.WithCerts(pc.ca, s.Certs(pc.ca)[pc.domain := pc.cert]), t, Done(pc.domain, pc.ca, pc.cert));
    }
  }

  lemma DeleteKeepsSafe(s: State, t: nat)
    requires Safe(s)
    ensures Safe(After(s, Delete(t)))
  {
    var pc := s.Pc(t);
    if pc.Deleting? {
      CertsKeepSafe(s, pc.ca, pc.domain, Cert(pc.domain, pc.ca, 0));
      MoveKeepsSafe(s.WithCerts(pc.ca, s.Certs(pc.ca) - {pc.domain}), t, Generating(pc.domain, pc.ca));
    }
  }

  lemma LookingKeepsSafe(s: State, step: Step)
    requires Safe(s) && (step.Check? || step.Load? || step.Examine?)
    ensures Safe(After(s, step))
  {
    MoveKeepsSafe(s, step.t, After(s, step).Pc(step.t));
  }

  lemma GenerateKeepsSafe(s: State, step: Step)
    requires Safe(s) && step.Generate?
    ensures Safe(After(s, step))
  {
    MoveKeepsSafe(s, step.t, After(s, step).Pc(step.t));
  }

  lemma StepKeepsSafe(s: State, step: Step)
    requires Safe(s)
    ensures Safe(After(s, step))
  {
    match step
    case Store(t) => StoreKeepsSafe(s, t);
    case Delete(t) => DeleteKeepsSafe(s, t);
    case Call(t, domain) => MoveKeepsSafe(s, t, Checking(domain));
    case Check(t) => LookingKeepsSafe(s, step);
    case Load(t) => LookingKeepsSafe(s, step);
    case Examine(t) => LookingKeepsSafe(s, step);
    case Generate(t, generated) => GenerateKeepsSafe(s, step);
    case Update(event) =>
    case Tick(seconds) =>
  }

  /** In every reachable state the caches are pure, whatever the interleaving. */
  lemma {:induction false} RunsAreSafe(entries: Entries, now: int, steps: seq<Step>)
    ensures Safe(Exec(Initial(entries, now), steps))
  {
    if steps != [] {
      RunsAreSafe(entries, now, steps[..|steps| - 1]);
      StepKeepsSafe(Exec(Initial(entries, now), steps[..|steps| - 1]), steps[|steps| - 1]);
    }
  }

  /** The i-th step of the run is the check of the call that t is still in, or has last finished,
      at its end; and `ca` is the verdict that check saw. */
  ghost predicate IsItsCheck(init: State, steps: seq<Step>, t: nat, domain: string, ca: bool, i: nat) {
    && i < |steps| && steps[i] == Check(t)
    && StateAt(init, steps, i).Pc(t) == Checking(domain)
    && ca == TrustedIn(StateAt(init, steps, i).entries, domain)
    && forall m :: i < m <= |steps| ==> PastCheck(StateAt(init, steps, m).Pc(t))
  }

  lemma {:induction false} CheckOf(init: State, steps: seq<Step>, t: nat) returns (i: nat)
    requires !PastCheck(init.Pc(t))
    requires PastCheck(Exec(init, steps).Pc(t))
    ensures var pc := Exec(init, steps).Pc(t);
            IsItsCheck(init, steps, t, pc.domain, pc.ca, i)
  {
    var n := |steps| - 1;
    var front, last := steps[..n], steps[n];
    var s := Exec(init, front);
    if PastCheck(s.Pc(t)) {
      i := CheckOf(init, front, t);
      KeepsVerdict(s, last, t);
      StateAtFront(init, steps, n, i);
      forall m | i < m <= n ensures PastCheck(StateAt(init, steps, m).Pc(t)) {
        StateAtFront(init, steps, n, m);
        assert PastCheck(StateAt(init, front, m).Pc(t));
      }
    } else {
      i := n;
      BecomesPastCheck(s, last, t);
    }
    StateAtEnd(init, steps);
  }

  lemma KeepsVerdict(s: State, step: Step, t: nat)
    requires PastCheck(s.Pc(t)) && PastCheck(After(s, step).Pc(t))
    ensures After(s, step).Pc(t).domain == s.Pc(t).domain && After(s, step).Pc(t).ca == s.Pc(t).ca
  {
  }

  lemma BecomesPastCheck(s: State, step: Step, t: nat)
    requires !PastCheck(s.Pc(t)) && PastCheck(After(s, step).Pc(t))
    ensures step == Check(t) && s.Pc(t).Checking?
    ensures After(s, step).Pc(t) == Loading(s.Pc(t).domain, TrustedIn(s.entries, s.Pc(t).domain))
  {
  }

  /** The certificate a call returns is its domain's own, and CA-signed exactly when the domain was
      trusted at the call's own check step. */
  lemma ServedAsChecked(entries: Entries, now: int, steps: seq<Step>, t: nat) returns (i: nat)
    requires Exec(Initial(entries, now), steps).Pc(t).Done?
    ensures var init := Initial(entries, now);
            var pc := Exec(init, steps).Pc(t);
            && pc.cert.domain == pc.domain
            && IsItsCheck(init, steps, t, pc.domain, pc.cert.caSigned, i)
  {
    RunsAreSafe(entries, now, steps);
    i := CheckOf(Initial(entries, now), steps, t);
  }

  /** Once a domain has lost its trust for good, no call that checks from then on is served a
      CA-signed certificate for it, even if one was cached before. */
  lemma {:induction false} NoTrustedAfterFailure(entries: Entries, now: int, steps: seq<Step>, t: nat, k: nat, m: nat)
    requires k <= m <= |steps|
    requires var init := Initial(entries, now);
             var pc := Exec(init, steps).Pc(t);
             && pc.Done?
             && StateAt(init, steps, m).Pc(t) == Checking(pc.domain)
             && forall j :: k <= j <= |steps| ==> !TrustedIn(StateAt(init, steps, j).entries, pc.domain)
    ensures !Exec(Initial(entries, now), steps).Pc(t).cert.caSigned
  {
    var i := ServedAsChecked(entries, now, steps, t);
    assert i >= m;
  }

  /** Conversely a domain trusted throughout is served CA-signed certificates only. */
  lemma {:induction false} NoWarningWhileTrusted(entries: Entries, now: int, steps: seq<Step>, t: nat, k: nat, m: nat)
    requires k <= m <= |steps|
    requires var init := Initial(entries, now);
             var pc := Exec(init, steps).Pc(t);
             && pc.Done?
             && StateAt(init, steps, m).Pc(t) == Checking(pc.domain)
             && forall j :: k <= j <= |steps| ==> TrustedIn(StateAt(init, steps, j).entries, pc.domain)
    ensures Exec(Initial(entries, now), steps).Pc(t).cert.caSigned
  {
    var i := ServedAsChecked(entries, now, steps, t);
    assert i >= m;
  }

  ghost predicate PastCheckAt(init: State, steps: seq<Step>, t: nat, j: nat) {
    j <= |steps| && PastCheck(StateAt(init, steps, j).Pc(t))
  }

  // At the m-th state the certificate was good for another hour, and t has been past its check since.
  ghost predicate UsableAt(init: State, steps: seq<Step>, t: nat, cert: Cert, m: nat) {
    && m < |steps| && Usable(cert, StateAt(init, steps, m).now)
    && forall j :: m <= j <= |steps| ==> PastCheckAt(init, steps, t, j)
  }

  /** Between its check and its end, a call came across a moment at which the certificate it returns
      was good for another hour: no call serves what it finds expired. */
  lemma {:induction false} NothingExpiredIsServed(entries: Entries, now: int, steps: seq<Step>, t: nat) returns (m: nat)
    requires var pc := Exec(Initial(entries, now), steps).Pc(t); pc.Done? || pc.Storing?
    ensures UsableAt(Initial(entries, now), steps, t, Exec(Initial(entries, now), steps).Pc(t).cert, m)
  {
    var init := Initial(entries, now);
    var n := |steps| - 1;
    var front := steps[..n];
    var before := Exec(init, front).Pc(t);
    FinishesFromUsable(Exec(init, front), steps[n], t);
    if before.Done? || before.Storing? {
      m := NothingExpiredIsServed(entries, now, front, t);
    } else {
      m := n;
    }
    StateAtEnd(init, steps);
    StaysUsable(init, steps, t, Exec(init, steps).Pc(t).cert, m);
  }

  lemma StaysUsable(init: State, steps: seq<Step>, t: nat, cert: Cert, m: nat)
    requires m < |steps|
    requires PastCheckAt(init, steps, t, |steps| - 1) && PastCheckAt(init, steps, t, |steps|)
    requires if m < |steps| - 1 then UsableAt(init, steps[..|steps| - 1], t, cert, m)
             else Usable(cert, StateAt(init, steps, m).now)
    ensures UsableAt(init, steps, t, cert, m)
  {
    var n := |steps| - 1;
    StateAtFront(init, steps, n, m);
    forall j | m <= j <= |steps| ensures PastCheckAt(init, steps, t, j) {
      if j < n {
        PastCheckInFront(init, steps, t, n, j);
      }
    }
  }

  lemma PastCheckInFront(init: State, steps: seq<Step>, t: nat, n: nat, j: nat)
    requires j <= n <= |steps| && PastCheckAt(init, steps[..n], t, j)
    ensures PastCheckAt(init, steps, t, j)
  {
    StateAtFront(init, steps, n, j);
  }

  lemma FinishesFromUsable(s: State, step: Step, t: nat)
    requires var pc := After(s, step).Pc(t); pc.Done? || pc.Storing?
    ensures var pc, before := After(s, step).Pc(t), s.Pc(t);
            if before.Done? || before.Storing? then pc.cert == before.cert
            else (before.Examining? || before.Generating?) && Usable(pc.cert, s.now)
  {
  }

  // All steps a call may take, in order.
  function CallSteps(t: nat, domain: string, generated: bool): seq<Step> {
    [Call(t, domain), Check(t), Load(t), Examine(t), Delete(t), Generate(t, generated), Store(t)]
  }

  lemma {:induction false} ExecOneMore(s: State, steps: seq<Step>, k: nat)
    requires k < |steps|
    ensures Exec(s, steps[..k + 1]) == After(Exec(s, steps[..k]), steps[k])
  {
    assert steps[..k + 1][..k] == steps[..k];
  }

  lemma ChecksAndLoads(s: State, t: nat, domain: string)
    requires AtRest(s.Pc(t))
    ensures var ca := TrustedIn(s.entries, domain);
            After(After(After(s, Call(t, domain)), Check(t)), Load(t)) ==
            s.Move(t, if domain in s.Certs(ca) then Examining(domain, ca, s.Certs(ca)[domain])
                   else Generating(domain, ca))
  {
    var ca := TrustedIn(s.entries, domain);
    var s2 := After(After(s, Call(t, domain)), Check(t));
    assert s2 == s.Move(t, Loading(domain, ca)) by {
      assert s.threads[t := Checking(domain)][t := Loading(domain, ca)] == s.threads[t := Loading(domain, ca)];
    }
    Overwrites(s, t, s2.Pc(t), if domain in s.Certs(ca) then Examining(domain, ca, s.Certs(ca)[domain])
               else Generating(domain, ca));
  }

  lemma Overwrites(s: State, t: nat, pc: Pc, pc': Pc)
    ensures s.Move(t, pc).Move(t, pc') == s.Move(t, pc')
  {
    assert s.threads[t := pc][t := pc'] == s.threads[t := pc'];
  }

  // From the load on, when the cache has a certificate.
  lemma ExaminesAndDeletes(s: State, t: nat, domain: string, ca: bool, cert: Cert)
    requires s.Pc(t) == Examining(domain, ca, cert)
    ensures var s' := After(After(s, Examine(t)), Delete(t));
            && s'.now == s.now
            && s'.Certs(!ca) == s.Certs(!ca)
            && (if Usable(cert, s.now) then s'.Certs(ca) == s.Certs(ca) && s'.Pc(t) == Done(domain, ca, cert)
                else s'.Certs(ca) == s.Certs(ca) - {domain} && s'.Pc(t) == Generating(domain, ca))
  {
    var s1 := After(s, Examine(t));
    if Usable(cert, s.now) {
      assert s1.Pc(t) == Done(domain, ca, cert);
    } else {
      Deletes(s1, t, domain, ca);
    }
  }

  lemma Deletes(s: State, t: nat, domain: string, ca: bool)
    requires s.Pc(t) == Deleting(domain, ca)
    ensures var s' := After(s, Delete(t));
            && s'.now == s.now && s'.Pc(t) == Generating(domain, ca)
            && s'.Certs(ca) == s.Certs(ca) - {domain} && s'.Certs(!ca) == s.Certs(!ca)
  {
  }

  lemma GeneratesAndStores(s: State, t: nat, domain: string, ca: bool, generated: bool)
    requires s.Pc(t) == Generating(domain, ca)
    ensures var s' := After(After(s, Generate(t, generated)), Store(t));
            var cert := Cert(domain, ca, s.now + CERT_VALID);
            && s'.Certs(!ca) == s.Certs(!ca)
            && (if generated then s'.Certs(ca) == s.Certs(ca)[domain := cert] && s'.Pc(t) == Done(domain, ca, cert)
                else s'.Certs(ca) == s.Certs(ca) && s'.Pc(t) == Failed(domain, ca))
  {
  }

  lemma {:induction false} ExecOfThree(s: State, a: Step, b: Step, c: Step)
    ensures Exec(s, [a, b, c]) == After(After(After(s, a), b), c)
  {
    var steps := [a, b, c];
    ExecOneMore(s, steps, 0);
    ExecOneMore(s, steps, 1);
    ExecOneMore(s, steps, 2);
    assert steps[..3] == steps;
  }

  lemma {:induction false} ExecAppend(s: State, steps: seq<Step>, more: seq<Step>)
    ensures Exec(s, steps + more) == Exec(Exec(s, steps), more)
    decreases |more|
  {
    if more == [] {
      assert steps + more == steps;
    } else {
      var front := more[..|more| - 1];
      ExecAppend(s, steps, front);
      assert (steps + more)[..|steps + more| - 1] == steps + front;
    }
  }

  lemma {:induction false} ExecCallSteps(s: State, t: nat, domain: string, generated: bool)
    ensures Exec(s, CallSteps(t, domain, generated)) ==
            After(After(After(After(After(After(After(s, Call(t, domain)), Check(t)), Load(t)), Examine(t)), Delete(t)),
                        Generate(t, generated)), Store(t))
  {
    var a, b, c := [Call(t, domain), Check(t), Load(t)], [Examine(t), Delete(t), Generate(t, generated)], [Store(t)];
    assert CallSteps(t, domain, generated) == a + b + c;
    ExecAppend(s, a + b, c);
    ExecAppend(s, a, b);
    ExecOfThree(s, Call(t, domain), Check(t), Load(t));
    ExecOfThree(Exec(s, a), Examine(t), Delete(t), Generate(t, generated));
    ExecOneMore(Exec(s, a + b), c, 0);
    assert c[..1] == c;
  }

  /** A call left alone does what the sequential signer does. */
  lemma {:induction false} AloneAsSequential(s: State, t: nat, domain: string, generated: bool)
    requires AtRest(s.Pc(t))
    ensures var ca := TrustedIn(s.entries, domain);
            var (certs, cert) := Serve(s.Certs(ca), domain, ca, s.now, generated);
            var end := Exec(s, CallSteps(t, domain, generated));
            && end.Certs(ca) == certs && end.Certs(!ca) == s.Certs(!ca)
            && end.Pc(t) == (if cert.Some? then Done(domain, ca, cert.value) else Failed(domain, ca))
  {
    ExecCallSteps(s, t, domain, generated);
    ChecksAndLoads(s, t, domain);
    var ca := TrustedIn(s.entries, domain);
    var loaded := After(After(After(s, Call(t, domain)), Check(t)), Load(t));
    FromLoaded(loaded, t, domain, ca, generated);
  }

  lemma FromLoaded(s: State, t: nat, domain: string, ca: bool, generated: bool)
    requires s.Pc(t) == if domain in s.Certs(ca) then Examining(domain, ca, s.Certs(ca)[domain])
             else Generating(domain, ca)
    ensures var (certs, cert) := Serve(s.Certs(ca), domain, ca, s.now, generated);
            var end := After(After(After(After(s, Examine(t)), Delete(t)), Generate(t, generated)), Store(t));
            && end.Certs(ca) == certs && end.Certs(!ca) == s.Certs(!ca)
            && end.Pc(t) == (if cert.Some? then Done(domain, ca, cert.value) else Failed(domain, ca))
  {
    var ready := After(After(s, Examine(t)), Delete(t));
    if domain in s.Certs(ca) {
      ExaminesAndDeletes(s, t, domain, ca, s.Certs(ca)[domain]);
    }
    ReplacesDeleted(s.Certs(ca), domain, Cert(domain, ca, s.now + CERT_VALID));
    if ready.Pc(t).Generating? {
      GeneratesAndStores(ready, t, domain, ca, generated);
    }
  }
}
