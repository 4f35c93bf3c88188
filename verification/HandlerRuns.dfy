/** Handlers under interleaving: what the signer serves while the handlers of queries and connections,
    each in steps of its own, file what nodes declare and judge it. */
module HandlerRuns {
  import opened Wrappers
  import opened Text
  import opened CertVerify
  import opened Mapper
  import opened SignerRuns

  // What a handler carries from its first step to its verdict: a key, what it holds for declared
  // there, and since when.
  datatype Job = Job(key: string, pem: string, since: nat)

  // A verdict: what it was passed on, since when its handler had that, and what the server presented.
  datatype Ruling = Ruling(pem: string, since: nat, handshake: Option<string>)

  // The last registration of a key, when it was made, and the last verdict since then.
  datatype Filing = Filing(pem: string, at: nat, ruling: Option<Ruling>)

  type SigningStep = step: Step | !step.Update? witness Tick(0)

  datatype Act =
    // one step of a GetCertificate call, or time
    | Sign(step: SigningStep)
    // a query handler registers what was declared for a name; the packet stack stops there
    | File(h: nat, name: string, ip: string, port: int, pem: string, subs: map<string, string>)
    // the proxy takes up what is cached for a name, or else what it has resolved
    | Fetch(h: nat, name: string, pem: string)
    // a handler compares what it carries with what the server presented, and sets the verdict
    | Judge(h: nat, handshake: Option<string>)

  datatype World = World(time: nat, jobs: map<nat, Job>, ledger: map<string, Filing>, signer: State)

  function Start(now: int): World {
    World(0, map[], map[], Initial(map[], now))
  }

  // What an act is to the signer.
  function StepOf(w: World, act: Act): Step {
    match act
    case Sign(step) => step
    case File(h, name, ip, port, pem, subs) => Update(Registered(NormalName(name), ip, port, pem, subs))
    case Fetch(h, name, pem) => Tick(0)
    case Judge(h, handshake) =>
      if h in w.jobs then Update(Verdict(w.jobs[h].key, Matches(w.jobs[h].pem, handshake), "")) else Tick(0)
  }

  function Next(w: World, act: Act): World {
    var signer := After(w.signer, StepOf(w, act));
    match act
    case Sign(step) => World(w.time + 1, w.jobs, w.ledger, signer)
    case File(h, name, ip, port, pem, subs) =>
      var key := NormalName(name);
      World(w.time + 1, w.jobs[h := Job(key, pem, w.time)], w.ledger[key := Filing(pem, w.time, None)], signer)
    case Fetch(h, name, pem) =>
      var key := NormalName(name);
      var held := if key in w.ledger then w.ledger[key].pem else pem;
      World(w.time + 1, w.jobs[h := Job(key, held, w.time)], w.ledger, signer)
    case Judge(h, handshake) =>
      World(w.time + 1, w.jobs - {h}, if h in w.jobs then Ruled(w.ledger, w.jobs[h], handshake) else w.ledger, signer)
  }

  function Ruled(ledger: map<string, Filing>, job: Job, handshake: Option<string>): map<string, Filing> {
    if job.key in ledger
    then ledger[job.key := ledger[job.key].(ruling := Some(Ruling(job.pem, job.since, handshake)))]
    else ledger
  }

  function Run(w: World, acts: seq<Act>): World {
    if acts == [] then w else Next(Run(w, acts[..|acts| - 1]), acts[|acts| - 1])
  }

  // The world after the first m acts.
  function WorldAt(w: World, acts: seq<Act>, m: nat): World
    requires m <= |acts|
  {
    Run(w, acts[..m])
  }

  // The run of the signer among the acts, step for act.
  function StepsOf(w: World, acts: seq<Act>): (steps: seq<Step>)
    ensures |steps| == |acts|
  {
    if acts == [] then []
    else
      var front := acts[..|acts| - 1];
      StepsOf(w, front) + [StepOf(Run(w, front), acts[|acts| - 1])]
  }

  lemma {:induction false} SignerFollows(w: World, acts: seq<Act>)
    ensures Run(w, acts).signer == Exec(w.signer, StepsOf(w, acts))
  {
    if acts != [] {
      var front := acts[..|acts| - 1];
      SignerFollows(w, front);
      assert StepsOf(w, acts)[..|acts| - 1] == StepsOf(w, front);
    }
  }

  lemma {:induction false} StepsOfFront(w: World, acts: seq<Act>, m: nat)
    requires m <= |acts|
    ensures StepsOf(w, acts[..m]) == StepsOf(w, acts)[..m]
  {
    if m == |acts| {
      assert acts[..m] == acts;
    } else {
      var front := acts[..|acts| - 1];
      StepsOfFront(w, front, m);
      assert front[..m] == acts[..m] && StepsOf(w, front)[..m] == StepsOf(w, acts)[..m];
    }
  }

  lemma {:induction false} SignerRefines(w: World, acts: seq<Act>, m: nat)
    requires m <= |acts|
    ensures WorldAt(w, acts, m).signer == StateAt(w.signer, StepsOf(w, acts), m)
  {
    SignerFollows(w, acts[..m]);
    StepsOfFront(w, acts, m);
  }

  // ------------------------------------------------------------ the ledger

  ghost predicate Shows(e: Entry, f: Filing) {
    && e.declaredPEM == f.pem && e.checked == f.ruling.Some?
    && (f.ruling.Some? ==> (e.verified <==> Matches(f.ruling.value.pem, f.ruling.value.handshake)))
  }

  // The verdict in force comes from a handler that took up its job before this registration.
  predicate Overtaken(f: Filing) {
    f.ruling.Some? && f.ruling.value.since < f.at
  }

  // A verdict that is not overtaken was passed on what is registered.
  ghost predicate Consistent(f: Filing, time: nat) {
    f.at < time && (f.ruling.Some? && !Overtaken(f) ==> f.ruling.value.pem == f.pem)
  }

  ghost predicate JobFits(ledger: map<string, Filing>, job: Job, time: nat) {
    job.since < time && (job.key in ledger && ledger[job.key].at <= job.since ==> job.pem == ledger[job.key].pem)
  }

  /** The ledger is what the cache goes by. */
  ghost predicate Recorded(w: World) {
    && w.ledger.Keys == w.signer.entries.Keys
    && (forall k :: k in w.ledger ==> Shows(w.signer.entries[k], w.ledger[k]) && Consistent(w.ledger[k], w.time))
    && (forall h :: h in w.jobs ==> JobFits(w.ledger, w.jobs[h], w.time))
  }

  lemma SigningKeepsEntries(s: State, step: SigningStep)
    ensures After(s, step).entries == s.entries
  {
  }

  lemma FileKeepsRecorded(w: World, act: Act)
    requires Recorded(w) && act.File?
    ensures Recorded(Next(w, act))
  {
    var w' := Next(w, act);
    forall k | k in w'.ledger ensures Shows(w'.signer.entries[k], w'.ledger[k]) && Consistent(w'.ledger[k], w'.time) {
      assert k != NormalName(act.name) ==> Shows(w.signer.entries[k], w.ledger[k]) && Consistent(w.ledger[k], w.time);
    }
    forall h | h in w'.jobs ensures JobFits(w'.ledger, w'.jobs[h], w'.time) {
      assert h != act.h ==> JobFits(w.ledger, w.jobs[h], w.time);
    }
  }

  lemma JudgeKeepsRecorded(w: World, act: Act)
    requires Recorded(w) && act.Judge? && act.h in w.jobs
    ensures Recorded(Next(w, act))
  {
    var w', job := Next(w, act), w.jobs[act.h];
    assert JobFits(w.ledger, job, w.time);
    forall k | k in w'.ledger ensures Shows(w'.signer.entries[k], w'.ledger[k]) && Consistent(w'.ledger[k], w'.time) {
      assert Shows(w.signer.entries[k], w.ledger[k]) && Consistent(w.ledger[k], w.time);
    }
    forall h | h in w'.jobs ensures JobFits(w'.ledger, w'.jobs[h], w'.time) {
      assert JobFits(w.ledger, w.jobs[h], w.time);
    }
  }

  lemma ActKeepsRecorded(w: World, act: Act)
    requires Recorded(w)
    ensures Recorded(Next(w, act))
  {
    match act
    case Sign(step) => SigningKeepsEntries(w.signer, step);
    case File(_, _, _, _, _, _) => FileKeepsRecorded(w, act);
    case Fetch(_, _, _) =>
    case Judge(h, _) =>
      if h in w.jobs {
        JudgeKeepsRecorded(w, act);
      }
  }

  lemma {:induction false} RunsAreRecorded(now: int, acts: seq<Act>)
    ensures Recorded(Run(Start(now), acts))
  {
    if acts != [] {
      RunsAreRecorded(now, acts[..|acts| - 1]);
      ActKeepsRecorded(Run(Start(now), acts[..|acts| - 1]), acts[|acts| - 1]);
    }
  }

  predicate Files(act: Act, key: string) {
    act.File? && NormalName(act.name) == key
  }

  // The i-th act is the last that registers the key.
  ghost predicate IsLastFiling(acts: seq<Act>, key: string, i: nat) {
    i < |acts| && Files(acts[i], key) && forall j :: i < j < |acts| ==> !Files(acts[j], key)
  }

  ghost predicate FiledLast(acts: seq<Act>, key: string, f: Filing) {
    IsLastFiling(acts, key, f.at) && acts[f.at].pem == f.pem
  }

  ghost predicate NeverFiled(acts: seq<Act>, key: string) {
    forall i :: 0 <= i < |acts| ==> !Files(acts[i], key)
  }

  lemma LedgerStep(w: World, act: Act, key: string)
    ensures Next(w, act).time == w.time + 1
    ensures key in Next(w, act).ledger <==> key in w.ledger || Files(act, key)
    ensures Files(act, key) ==> Next(w, act).ledger[key] == Filing(act.pem, w.time, None)
    ensures !Files(act, key) && key in w.ledger ==>
              Next(w, act).ledger[key].at == w.ledger[key].at && Next(w, act).ledger[key].pem == w.ledger[key].pem
  {
  }

  /** The ledger tells of each key that was ever registered when that was last, and with what. */
  lemma {:induction false} LedgerMeaning(now: int, acts: seq<Act>, key: string)
    ensures var w := Run(Start(now), acts);
            && w.time == |acts|
            && (if key in w.ledger then FiledLast(acts, key, w.ledger[key]) else NeverFiled(acts, key))
  {
    if acts != [] {
      var front, last := acts[..|acts| - 1], acts[|acts| - 1];
      LedgerMeaning(now, front, key);
      LedgerStep(Run(Start(now), front), last, key);
      assert forall i :: 0 <= i < |front| ==> front[i] == acts[i];
    }
  }

  /** A verdict lands on another declaration than the one it was passed on only if the key was
      registered anew after its handler took up the job. */
  lemma VerdictLands(w: World, h: nat, handshake: Option<string>)
    requires Recorded(w) && h in w.jobs && w.jobs[h].key in w.ledger
    ensures var job := w.jobs[h];
            var f := Next(w, Judge(h, handshake)).ledger[job.key];
            && f.pem == w.ledger[job.key].pem
            && f.ruling == Some(Ruling(job.pem, job.since, handshake))
            && (Overtaken(f) <==> job.since < w.ledger[job.key].at)
            && (f.pem != job.pem ==> Overtaken(f))
  {
    assert JobFits(w.ledger, w.jobs[h], w.time);
  }

  /** A handler judges once: with its verdict the job is done, and a second one would change nothing. */
  lemma {:induction false} JudgesOnce(w: World, h: nat, handshake: Option<string>, again: Option<string>)
    ensures var judged := Next(w, Judge(h, handshake));
            && h !in judged.jobs
            && Next(judged, Judge(h, again)).ledger == judged.ledger
            && Next(judged, Judge(h, again)).signer.entries == judged.signer.entries
  {
  }

  // ------------------------------------------------------------ what is served

  // The key the cache selects for a domain.
  function KeyOf(w: World, domain: string): string {
    FindParentDomain(w.signer.entries, NormalName(domain))
  }

  // Declared, and not judged since then or judged well by what its judge held for declared.
  predicate Upheld(f: Filing) {
    f.pem != "" && (f.ruling.None? || Matches(f.ruling.value.pem, f.ruling.value.handshake))
  }

  predicate Backed(w: World, domain: string) {
    var key := KeyOf(w, domain);
    key != "" && key in w.ledger && Upheld(w.ledger[key])
  }

  lemma TrustedIffBacked(w: World, domain: string)
    requires Recorded(w)
    ensures TrustedIn(w.signer.entries, domain) <==> Backed(w, domain)
  {
    var key := KeyOf(w, domain);
    if key in w.ledger {
      assert Shows(w.signer.entries[key], w.ledger[key]);
    }
  }

  /** Whatever the interleaving of calls and handlers: a call's certificate is its domain's own, and
      CA-signed exactly when at the call's own check the ledger backed the domain. */
  lemma ServedByLedger(now: int, acts: seq<Act>, t: nat) returns (i: nat)
    requires Run(Start(now), acts).signer.Pc(t).Done?
    ensures var pc := Run(Start(now), acts).signer.Pc(t);
            && pc.cert.domain == pc.domain
            && IsItsCheck(Start(now).signer, StepsOf(Start(now), acts), t, pc.domain, pc.cert.caSigned, i)
            && (pc.cert.caSigned <==> Backed(WorldAt(Start(now), acts, i), pc.domain))
  {
    var w0 := Start(now);
    var steps := StepsOf(w0, acts);
    SignerRefines(w0, acts, |acts|);
    assert acts[..|acts|] == acts;
    StateAtEnd(w0.signer, steps);
    i := ServedAsChecked(map[], now, steps, t);
    SignerRefines(w0, acts, i);
    RunsAreRecorded(now, acts[..i]);
    TrustedIffBacked(WorldAt(w0, acts, i), Run(w0, acts).signer.Pc(t).domain);
  }

  /** With a server that does not present what is declared for it, a CA-signed certificate is served in
      three cases exactly. At the check the declaration was not judged yet; or the verdict in force is
      that of an overtaken handler, one that took up its job before this registration, and was right
      about what that held; or it was passed on this declaration, in a handshake in which something
      else was presented: by another address of the name, or by the server before it changed. */
  lemma {:induction false} ServedDespiteMismatchIff(now: int, acts: seq<Act>, t: nat, i: nat, presented: Option<string>)
    requires Run(Start(now), acts).signer.Pc(t).Done?
    requires var pc := Run(Start(now), acts).signer.Pc(t);
             IsItsCheck(Start(now).signer, StepsOf(Start(now), acts), t, pc.domain, pc.cert.caSigned, i)
    requires var w := WorldAt(Start(now), acts, i);
             var key := KeyOf(w, Run(Start(now), acts).signer.Pc(t).domain);
             key in w.ledger && !Matches(w.ledger[key].pem, presented)
    ensures var pc := Run(Start(now), acts).signer.Pc(t);
            var w := WorldAt(Start(now), acts, i);
            var key := KeyOf(w, pc.domain);
            pc.cert.caSigned <==> key != "" && w.ledger[key].pem != "" && Gap(w.ledger[key], presented)
  {
    var w, domain := WorldAt(Start(now), acts, i), Run(Start(now), acts).signer.Pc(t).domain;
    SignerRefines(Start(now), acts, i);
    RunsAreRecorded(now, acts[..i]);
    TrustedIffBacked(w, domain);
    assert Consistent(w.ledger[KeyOf(w, domain)], w.time);
  }

  // The three ways in which a declaration is upheld that is not what the server presents.
  predicate Gap(f: Filing, presented: Option<string>) {
    || f.ruling.None?
    || (Overtaken(f) && Matches(f.ruling.value.pem, f.ruling.value.handshake))
    || (!Overtaken(f) && Matches(f.pem, f.ruling.value.handshake) && f.ruling.value.handshake != presented)
  }

  /** The third of them takes one handler only: a handshake with what is declared makes the name trusted
      whatever is presented later. */
  lemma OwnVerdictCanMiss(w: World, h: nat, name: string, ip: string, port: int, pem: string, subs: map<string, string>,
                          handshake: Option<string>, presented: Option<string>)
    requires NormalName(name) != "" && Matches(pem, handshake) && !Matches(pem, presented)
    ensures var w' := Next(Next(w, File(h, name, ip, port, pem, subs)), Judge(h, handshake));
            var f := w'.ledger[NormalName(name)];
            && TrustedIn(w'.signer.entries, name)
            && f.pem == pem && f.ruling.Some? && !Overtaken(f) && Gap(f, presented)
  {
    var key := NormalName(name);
    var w1 := Next(w, File(h, name, ip, port, pem, subs));
    assert w1.jobs[h] == Job(key, pem, w.time);
    VerdictDecides(w1.signer.entries, key, true, "", name);
    assert FindParentDomain(w1.signer.entries, key) == key;
  }

  /** Registering a name opens the first of these gaps whatever was known before: until its verdict, and
      for good after a query to the packet stack, any declaration makes it trusted. */
  lemma FilingReopensTrust(w: World, h: nat, name: string, ip: string, port: int, pem: string,
                           subs: map<string, string>)
    ensures TrustedIn(Next(w, File(h, name, ip, port, pem, subs)).signer.entries, name) <==>
            NormalName(name) != "" && pem != ""
  {
    var key := NormalName(name);
    assert FindParentDomain(w.signer.entries[key := Entry(ip, port, pem, subs, false, false, "")], key) == key;
  }

  /** Two queries for a name that meet open the second: the verdict of the first, on what it found
      declared, decides the trust of what the second has registered meanwhile. */
  lemma OvertakenVerdictDecides(w: World, h: nat, g: nat, name: string, ip: string, port: int, first: string,
                                second: string, subs: map<string, string>, handshake: Option<string>)
    requires h != g
    ensures var w1 := Next(w, File(h, name, ip, port, first, subs));
            var w2 := Next(w1, File(g, name, ip, port, second, subs));
            TrustedIn(Next(w2, Judge(h, handshake)).signer.entries, name) <==>
            NormalName(name) != "" && second != "" && Matches(first, handshake)
  {
    var key := NormalName(name);
    var w1 := Next(w, File(h, name, ip, port, first, subs));
    var w2 := Next(w1, File(g, name, ip, port, second, subs));
    assert w2.jobs[h] == Job(key, first, w.time);
    VerdictDecides(w2.signer.entries, key, Matches(first, handshake), "", name);
    assert FindParentDomain(w2.signer.entries, key) == key;
  }
}
