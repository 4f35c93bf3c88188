/** Multi-node resolution: windows of three nodes queried in parallel, and one answer picked from
    the results a window has at its end. */
module Resolver {
  import opened Wrappers

  const MAX_NODES_PER_SET: nat := 3
  const MAX_RETRY_SETS: nat := 3

  // What a DNN node knows about a name.
  datatype Resolved = Resolved(ip: string, port: int, certPEM: string, subdomainIPs: map<string, string>)

  datatype Resolution = Resolution(pubkey: string, resolved: Resolved)

  datatype ConnEvent = ConnEvent(id: string, pubkey: string, sig: string, createdAt: int, content: string)

  // Whether the signature of an event checks.
  type Verifier = ConnEvent -> bool

  datatype Result = Result(resolution: Option<Resolution>, connEvent: Option<ConnEvent>, domainFound: bool,
                           nodeURL: string, failed: bool)

  // A slot no goroutine has written yet.
  const UNFILLED: Result := Result(None, None, false, "", false)

  datatype Candidate = Candidate(resolution: Resolution, createdAt: int, pubkey: string, nodeURL: string,
                                 domainFound: bool)

  // A result that counts: no error, and signed correctly if signed. Unsigned ones count as of time 0.
  function AsCandidate(verify: Verifier, r: Result): Option<Candidate> {
    if r.failed || r.resolution.None? then None
    else
      match r.connEvent
      case Some(e) =>
        if verify(e) then Some(Candidate(r.resolution.value, e.createdAt, e.pubkey, r.nodeURL, r.domainFound)) else None
      case None => Some(Candidate(r.resolution.value, 0, r.resolution.value.pubkey, r.nodeURL, r.domainFound))
  }

  function Candidates(verify: Verifier, results: seq<Result>): (valid: seq<Candidate>)
    ensures |valid| <= |results|
  {
    if results == [] then []
    else
      Candidates(verify, results[..|results| - 1]) +
      match AsCandidate(verify, results[|results| - 1])
      case Some(c) => [c]
      case None => []
  }

  predicate Differ(a: Candidate, b: Candidate) {
    a.pubkey != "" && b.pubkey != "" && a.pubkey != b.pubkey
  }

  // The position of the first candidate with the newest creation time.
  function Newest(valid: seq<Candidate>): (i: nat)
    requires valid != []
    ensures i < |valid|
    ensures forall j :: 0 <= j < |valid| ==> valid[j].createdAt <= valid[i].createdAt
    ensures forall j :: 0 <= j < i ==> valid[j].createdAt < valid[i].createdAt
  {
    if |valid| == 1 then 0
    else
      var best := Newest(valid[..|valid| - 1]);
      if valid[|valid| - 1].createdAt > valid[best].createdAt then |valid| - 1 else best
  }

  function Outcome(c: Candidate): Option<Resolution> {
    if c.domainFound then Some(c.resolution) else None
  }

  function PickBest(verify: Verifier, results: seq<Result>): Option<Resolution> {
    var valid := Candidates(verify, results);
    if valid == [] || exists j :: 0 <= j < |valid| && Differ(valid[0], valid[j]) then None
    else Outcome(valid[Newest(valid)])
  }

  // The results that count, collected.
  method CollectValid(verify: Verifier, results: seq<Result>) returns (valid: seq<Candidate>)
    ensures valid == Candidates(verify, results)
  {
    valid := [];
    for i := 0 to |results|
      invariant valid == Candidates(verify, results[..i])
    {
      assert results[..i + 1][..i] == results[..i];
      var res := results[i];
      if res.failed || res.resolution.None? {
        continue;
      }
      match res.connEvent {
        case Some(e) =>
          if !verify(e) {
            continue;
          }
          valid := valid + [Candidate(res.resolution.value, e.createdAt, e.pubkey, res.nodeURL, res.domainFound)];
        case None =>
          valid := valid + [Candidate(res.resolution.value, 0, res.resolution.value.pubkey, res.nodeURL,
                                      res.domainFound)];
      }
    }
    assert results[..|results|] == results;
  }

  method PickBestResult(verify: Verifier, results: seq<Result>) returns (best: Option<Resolution>)
    ensures best == PickBest(verify, results)
    ensures best.Some? ==> exists i: nat :: Answers(verify, results, i, best.value)
  {
    if PickBest(verify, results).Some? {
      PickedIsGenuine(verify, results);
    }
    var valid := CollectValid(verify, results);
    if |valid| == 0 {
      return None;
    }
    var otherOwner := NamesOtherOwner(valid);
    if otherOwner {
      return None;
    }
    var newest := PickNewest(valid);
    if !newest.domainFound {
      return None;
    }
    return Some(newest.resolution);
  }

  // Whether some candidate names another owner than the first.
  method NamesOtherOwner(valid: seq<Candidate>) returns (found: bool)
    requires valid != []
    ensures found <==> exists j :: 0 <= j < |valid| && Differ(valid[0], valid[j])
  {
    var refPubkey := valid[0].pubkey;
    for i := 1 to |valid|
      invariant forall j :: 0 <= j < i ==> !Differ(valid[0], valid[j])
    {
      if valid[i].pubkey != "" && refPubkey != "" && valid[i].pubkey != refPubkey {
        assert Differ(valid[0], valid[i]);
        return true;
      }
    }
    return false;
  }

  method PickNewest(valid: seq<Candidate>) returns (newest: Candidate)
    requires valid != []
    ensures newest == valid[Newest(valid)]
  {
    newest := valid[0];
    for i := 1 to |valid|
      invariant newest == valid[Newest(valid[..i])]
    {
      assert valid[..i + 1][..i] == valid[..i];
      if valid[i].createdAt > newest.createdAt {
        newest := valid[i];
      }
    }
    assert valid[..|valid|] == valid;
  }

  // ------------------------------------------------------------ what counts

  // Answered without an error, and with a correct signature if it carries an event.
  predicate Counts(verify: Verifier, r: Result) {
    !r.failed && r.resolution.Some? && (r.connEvent.None? || verify(r.connEvent.value))
  }

  function TimeOf(r: Result): int {
    if r.connEvent.Some? then r.connEvent.value.createdAt else 0
  }

  // Who signed it, or whom an unsigned answer names.
  function OwnerOf(r: Result): string
    requires r.resolution.Some?
  {
    if r.connEvent.Some? then r.connEvent.value.pubkey else r.resolution.value.pubkey
  }

  lemma {:induction false} CountsIff(verify: Verifier, r: Result)
    ensures AsCandidate(verify, r).Some? <==> Counts(verify, r)
    ensures Counts(verify, r) ==>
              var c := AsCandidate(verify, r).value;
              && c.resolution == r.resolution.value && c.domainFound == r.domainFound
              && c.createdAt == TimeOf(r) == (if r.connEvent.Some? then r.connEvent.value.createdAt else 0)
              && c.pubkey == OwnerOf(r) ==
                 (if r.connEvent.Some? then r.connEvent.value.pubkey else r.resolution.value.pubkey)
  {
  }

  /** A failed result, or one whose signature is wrong, is as if it were not there. */
  lemma {:induction false} UncountedIsAbsent(verify: Verifier, before: seq<Result>, r: Result, after: seq<Result>)
    requires r.failed || r.resolution.None? || (r.connEvent.Some? && !verify(r.connEvent.value))
    ensures PickBest(verify, before + [r] + after) == PickBest(verify, before + after)
  {
    CandidatesOfConcat(verify, before + [r], after);
    CandidatesOfConcat(verify, before, [r]);
    CandidatesOfConcat(verify, before, after);
    assert [r][..0] == [];
    assert Candidates(verify, [r]) == [];
    assert Candidates(verify, before) + [] + Candidates(verify, after) ==
           Candidates(verify, before) + Candidates(verify, after);
  }

  /** The i-th result answers: it counts and has found the domain, none that counts is newer, and what it
      resolves is the answer. */
  ghost predicate Answers(verify: Verifier, results: seq<Result>, i: nat, answer: Resolution) {
    && i < |results|
    && !results[i].failed && results[i].domainFound && results[i].resolution == Some(answer)
    && (results[i].connEvent.Some? ==> verify(results[i].connEvent.value))
    && forall j :: 0 <= j < |results| && Counts(verify, results[j]) ==> TimeOf(results[j]) <= TimeOf(results[i])
  }

  // All results that count and name an owner name the same, if the first that counts names one.
  ghost predicate OneOwner(verify: Verifier, results: seq<Result>) {
    forall i, j :: 0 <= i <= j < |results| && Counts(verify, results[i]) && Counts(verify, results[j])
                   && OwnerOf(results[i]) != "" && OwnerOf(results[j]) != ""
                   && (forall k :: 0 <= k < i ==> !Counts(verify, results[k])) ==>
                     OwnerOf(results[i]) == OwnerOf(results[j])
  }

  /** What is picked is genuine, newest and uncontested, all in terms of the results themselves. */
  lemma {:induction false} PickedIsGenuine(verify: Verifier, results: seq<Result>)
    requires PickBest(verify, results).Some?
    ensures exists i: nat :: Answers(verify, results, i, PickBest(verify, results).value)
    ensures OneOwner(verify, results)
  {
    PickedIff(verify, results);
    var i: nat :| IsFreshest(verify, results, i) && AsCandidate(verify, results[i]).value.domainFound;
    FreshestDecides(verify, results, i);
    CountsIff(verify, results[i]);
    forall j: nat | j < |results| && Counts(verify, results[j]) ensures TimeOf(results[j]) <= TimeOf(results[i]) {
      CountsIff(verify, results[j]);
      assert NoFresher(verify, results, i, j);
    }
    assert Answers(verify, results, i, PickBest(verify, results).value);
    PickedHasOneOwner(verify, results);
  }

  lemma {:induction false} PickedHasOneOwner(verify: Verifier, results: seq<Result>)
    requires !Inconsistent(verify, results)
    ensures OneOwner(verify, results)
  {
    forall i, j | 0 <= i <= j < |results| && Counts(verify, results[i]) && Counts(verify, results[j])
                  && OwnerOf(results[i]) != "" && OwnerOf(results[j]) != ""
                  && (forall k :: 0 <= k < i ==> !Counts(verify, results[k]))
      ensures OwnerOf(results[i]) == OwnerOf(results[j])
    {
      CountsIff(verify, results[i]);
      CountsIff(verify, results[j]);
      forall k | 0 <= k < i ensures AsCandidate(verify, results[k]).None? {
        CountsIff(verify, results[k]);
      }
      assert IsFirstValid(verify, results, i);
      assert !Differ(AsCandidate(verify, results[i]).value, AsCandidate(verify, results[j]).value);
    }
  }

  // ------------------------------------------------------------ what is picked

  // The positions of the results that count, in order.
  function Positions(verify: Verifier, results: seq<Result>): (ps: seq<nat>)
    ensures |ps| == |Candidates(verify, results)|
    ensures forall k :: 0 <= k < |ps| ==> ps[k] < |results|
  {
    if results == [] then []
    else
      Positions(verify, results[..|results| - 1]) +
      if AsCandidate(verify, results[|results| - 1]).Some? then [|results| - 1] else []
  }

  lemma {:induction false} PositionsIncrease(verify: Verifier, results: seq<Result>)
    ensures var ps := Positions(verify, results);
            forall k, m :: 0 <= k < m < |ps| ==> ps[k] < ps[m]
  {
    if results != [] {
      var front := results[..|results| - 1];
      PositionsIncrease(verify, front);
      assert forall k :: 0 <= k < |Positions(verify, front)| ==> Positions(verify, front)[k] < |front|;
    }
  }

  lemma {:induction false} PositionsPoint(verify: Verifier, results: seq<Result>, k: nat)
    requires k < |Positions(verify, results)|
    ensures AsCandidate(verify, results[Positions(verify, results)[k]]) == Some(Candidates(verify, results)[k])
  {
    var front := results[..|results| - 1];
    if k < |Positions(verify, front)| {
      PositionsPoint(verify, front, k);
    }
  }

  lemma {:induction false} PositionsCover(verify: Verifier, results: seq<Result>, i: nat)
    requires i < |results| && AsCandidate(verify, results[i]).Some?
    ensures i in Positions(verify, results)
  {
    var front := results[..|results| - 1];
    if i < |front| {
      PositionsCover(verify, front, i);
    }
  }

  lemma {:induction false} PositionsMeaning(verify: Verifier, results: seq<Result>)
    ensures var ps, valid := Positions(verify, results), Candidates(verify, results);
            && (forall k :: 0 <= k < |ps| ==> AsCandidate(verify, results[ps[k]]) == Some(valid[k]))
            && (forall k, m :: 0 <= k < m < |ps| ==> ps[k] < ps[m])
            && (forall i :: 0 <= i < |results| && AsCandidate(verify, results[i]).Some? ==> i in ps)
  {
    PositionsIncrease(verify, results);
    forall k | 0 <= k < |Positions(verify, results)|
      ensures AsCandidate(verify, results[Positions(verify, results)[k]]) == Some(Candidates(verify, results)[k])
    {
      PositionsPoint(verify, results, k);
    }
    forall i | 0 <= i < |results| && AsCandidate(verify, results[i]).Some? ensures i in Positions(verify, results) {
      PositionsCover(verify, results, i);
    }
  }

  // The j-th result is not newer than the i-th, and older if it comes before.
  ghost predicate NoFresher(verify: Verifier, results: seq<Result>, i: nat, j: nat)
    requires i < |results| && AsCandidate(verify, results[i]).Some?
    requires j < |results| && AsCandidate(verify, results[j]).Some?
  {
    && AsCandidate(verify, results[j]).value.createdAt <= AsCandidate(verify, results[i]).value.createdAt
    && (j < i ==> AsCandidate(verify, results[j]).value.createdAt < AsCandidate(verify, results[i]).value.createdAt)
  }

  /** The i-th result counts, no result that counts is newer, and none before it is as new. */
  ghost predicate IsFreshest(verify: Verifier, results: seq<Result>, i: nat) {
    && i < |results| && AsCandidate(verify, results[i]).Some?
    && forall j: nat :: j < |results| && AsCandidate(verify, results[j]).Some? ==> NoFresher(verify, results, i, j)
  }

  ghost predicate IsFirstValid(verify: Verifier, results: seq<Result>, f: nat) {
    && f < |results| && AsCandidate(verify, results[f]).Some?
    && forall j :: 0 <= j < f ==> AsCandidate(verify, results[j]).None?
  }

  // A later result names another owner than the first one that counts.
  ghost predicate Inconsistent(verify: Verifier, results: seq<Result>) {
    exists f: nat, j: nat :: IsFirstValid(verify, results, f) && j < |results| && AsCandidate(verify, results[j]).Some?
                             && Differ(AsCandidate(verify, results[f]).value, AsCandidate(verify, results[j]).value)
  }

  /** The freshest result decides, whatever the others say: if the results are consistent it is
      returned when it has found the domain, and nothing is when it has not. */
  lemma FreshestDecides(verify: Verifier, results: seq<Result>, i: nat)
    requires IsFreshest(verify, results, i)
    ensures PickBest(verify, results) ==
            if Inconsistent(verify, results) then None else Outcome(AsCandidate(verify, results[i]).value)
  {
    var ps, valid := Positions(verify, results), Candidates(verify, results);
    PositionsMeaning(verify, results);
    var k :| 0 <= k < |ps| && ps[k] == i;
    forall j | 0 <= j < |valid|
      ensures valid[j].createdAt <= valid[k].createdAt && (j < k ==> valid[j].createdAt < valid[k].createdAt)
    {
      assert AsCandidate(verify, results[ps[j]]) == Some(valid[j]);
    }
    NewestIsUnique(valid, k);
    InconsistentIff(verify, results);
  }

  lemma {:induction false} NewestIsUnique(valid: seq<Candidate>, k: nat)
    requires k < |valid|
    requires forall j :: 0 <= j < |valid| ==> valid[j].createdAt <= valid[k].createdAt
    requires forall j :: 0 <= j < k ==> valid[j].createdAt < valid[k].createdAt
    ensures Newest(valid) == k
  {
  }

  lemma {:induction false} InconsistentIff(verify: Verifier, results: seq<Result>)
    requires Candidates(verify, results) != []
    ensures var valid := Candidates(verify, results);
            Inconsistent(verify, results) <==> exists j :: 0 <= j < |valid| && Differ(valid[0], valid[j])
  {
    var ps, valid := Positions(verify, results), Candidates(verify, results);
    PositionsMeaning(verify, results);
    FirstValidIs(verify, results);
    if Inconsistent(verify, results) {
      var f: nat, j: nat :| IsFirstValid(verify, results, f) && j < |results| && AsCandidate(verify, results[j]).Some?
                            && Differ(AsCandidate(verify, results[f]).value, AsCandidate(verify, results[j]).value);
      var k :| 0 <= k < |ps| && ps[k] == j;
      assert f == ps[0] && Differ(valid[0], valid[k]);
    }
    if j :| 0 <= j < |valid| && Differ(valid[0], valid[j]) {
      assert Differ(AsCandidate(verify, results[ps[0]]).value, AsCandidate(verify, results[ps[j]]).value);
    }
  }

  lemma {:induction false} FirstValidIs(verify: Verifier, results: seq<Result>)
    requires Candidates(verify, results) != []
    ensures forall f: nat :: IsFirstValid(verify, results, f) <==> f == Positions(verify, results)[0]
  {
    var ps := Positions(verify, results);
    PositionsMeaning(verify, results);
    forall j | 0 <= j < |results| && AsCandidate(verify, results[j]).Some? ensures ps[0] <= j {
      var k :| 0 <= k < |ps| && ps[k] == j;
      assert k > 0 ==> ps[0] < ps[k];
    }
  }

  /** Without a result that counts there is no freshest one, and nothing is picked. */
  lemma {:induction false} NothingValid(verify: Verifier, results: seq<Result>)
    ensures (exists i: nat :: IsFreshest(verify, results, i)) <==> Candidates(verify, results) != []
    ensures Candidates(verify, results) == [] ==> PickBest(verify, results).None?
  {
    PositionsMeaning(verify, results);
    if Candidates(verify, results) != [] {
      NewestIsFreshest(verify, results);
    }
  }

  lemma {:induction false} NewestIsFreshest(verify: Verifier, results: seq<Result>)
    requires Candidates(verify, results) != []
    ensures IsFreshest(verify, results, Positions(verify, results)[Newest(Candidates(verify, results))])
  {
    var n := Newest(Candidates(verify, results));
    PositionsPoint(verify, results, n);
    forall j: nat | j < |results| && AsCandidate(verify, results[j]).Some?
      ensures NoFresher(verify, results, Positions(verify, results)[n], j)
    {
      NewestBeats(verify, results, n, j);
    }
  }

  lemma {:induction false} NewestBeats(verify: Verifier, results: seq<Result>, n: nat, j: nat)
    requires Candidates(verify, results) != [] && n == Newest(Candidates(verify, results))
    requires AsCandidate(verify, results[Positions(verify, results)[n]]) == Some(Candidates(verify, results)[n])
    requires j < |results| && AsCandidate(verify, results[j]).Some?
    ensures NoFresher(verify, results, Positions(verify, results)[n], j)
  {
    var k := PositionOf(verify, results, j);
    if k > n {
      PositionsOrder(verify, results, n, k);
    }
    NewestIsLater(Candidates(verify, results), Positions(verify, results), k);
  }

  lemma {:induction false} NewestIsLater(valid: seq<Candidate>, ps: seq<nat>, k: nat)
    requires k < |valid| == |ps| && (k > Newest(valid) ==> ps[Newest(valid)] < ps[k])
    ensures valid[k].createdAt <= valid[Newest(valid)].createdAt
    ensures ps[k] < ps[Newest(valid)] ==> valid[k].createdAt < valid[Newest(valid)].createdAt
  {
  }

  lemma {:induction false} PositionsOrder(verify: Verifier, results: seq<Result>, k: nat, m: nat)
    requires k < m < |Positions(verify, results)|
    ensures Positions(verify, results)[k] < Positions(verify, results)[m]
  {
    PositionsIncrease(verify, results);
  }

  lemma PositionOf(verify: Verifier, results: seq<Result>, i: nat) returns (k: nat)
    requires i < |results| && AsCandidate(verify, results[i]).Some?
    ensures k < |Positions(verify, results)| && Positions(verify, results)[k] == i
    ensures AsCandidate(verify, results[i]) == Some(Candidates(verify, results)[k])
  {
    PositionsCover(verify, results, i);
    k :| 0 <= k < |Positions(verify, results)| && Positions(verify, results)[k] == i;
    PositionsPoint(verify, results, k);
  }

  /** What a signature covers is not what is resolved: giving a signed result that counts any other
      resolution changes no check, neither which results count nor which is the freshest nor the owners. */
  lemma {:induction false} ResolutionIsUnsigned(verify: Verifier, results: seq<Result>, i: nat, other: Resolution)
    requires i < |results| && results[i].connEvent.Some? && AsCandidate(verify, results[i]).Some?
    ensures var results' := results[i := results[i].(resolution := Some(other))];
            && (forall j: nat :: IsFreshest(verify, results', j) <==> IsFreshest(verify, results, j))
            && (Inconsistent(verify, results') <==> Inconsistent(verify, results))
            && (IsFreshest(verify, results, i) && PickBest(verify, results).Some? ==>
                  PickBest(verify, results') == Some(other))
            && (PickBest(verify, results').Some? <==> PickBest(verify, results).Some?)
  {
    var results' := results[i := results[i].(resolution := Some(other))];
    assert forall j: nat :: j < |results| ==> SameChecks(verify, results[j], results'[j]);
    SameFreshest(verify, results, results');
    SameOwners(verify, results, results');
    SameFinds(verify, results, results');
    PickedIff(verify, results);
    PickedIff(verify, results');
    if IsFreshest(verify, results, i) {
      FreshestDecides(verify, results', i);
      FreshestDecides(verify, results, i);
    }
  }

  // Both count or none does, and they agree in all that is compared.
  ghost predicate SameChecks(verify: Verifier, r: Result, r': Result) {
    match (AsCandidate(verify, r), AsCandidate(verify, r'))
    case (Some(c), Some(c')) => c.createdAt == c'.createdAt && c.pubkey == c'.pubkey && c.domainFound == c'.domainFound
    case (None, None) => true
    case _ => false
  }

  lemma {:induction false} SameFreshest(verify: Verifier, results: seq<Result>, results': seq<Result>)
    requires |results| == |results'| && forall j: nat :: j < |results| ==> SameChecks(verify, results[j], results'[j])
    ensures forall j: nat :: IsFreshest(verify, results', j) <==> IsFreshest(verify, results, j)
  {
    forall j: nat ensures IsFreshest(verify, results', j) <==> IsFreshest(verify, results, j) {
      if IsFreshest(verify, results, j) {
        StaysFreshest(verify, results, results', j);
      }
      if IsFreshest(verify, results', j) {
        StaysFreshest(verify, results', results, j);
      }
    }
  }

  lemma {:induction false} StaysFreshest(verify: Verifier, results: seq<Result>, results': seq<Result>, j: nat)
    requires |results| == |results'| && forall k: nat :: k < |results| ==> SameChecks(verify, results[k], results'[k])
    requires IsFreshest(verify, results, j)
    ensures IsFreshest(verify, results', j)
  {
    forall k: nat | k < |results'| && AsCandidate(verify, results'[k]).Some? ensures NoFresher(verify, results', j, k) {
      assert SameChecks(verify, results[k], results'[k]) && SameChecks(verify, results[j], results'[j]);
      assert NoFresher(verify, results, j, k);
    }
  }

  lemma {:induction false} SameFinds(verify: Verifier, results: seq<Result>, results': seq<Result>)
    requires |results| == |results'| && forall j: nat :: j < |results| ==> SameChecks(verify, results[j], results'[j])
    ensures Finds(verify, results') <==> Finds(verify, results)
  {
    SameFreshest(verify, results, results');
    SameOwners(verify, results, results');
    forall j: nat | IsFreshest(verify, results, j)
      ensures AsCandidate(verify, results'[j]).value.domainFound == AsCandidate(verify, results[j]).value.domainFound
    {
      assert SameChecks(verify, results[j], results'[j]);
    }
  }

  lemma {:induction false} SameOwners(verify: Verifier, results: seq<Result>, results': seq<Result>)
    requires |results| == |results'| && forall j: nat :: j < |results| ==> SameChecks(verify, results[j], results'[j])
    ensures Inconsistent(verify, results') <==> Inconsistent(verify, results)
  {
    if Inconsistent(verify, results) {
      StaysInconsistent(verify, results, results');
    }
    if Inconsistent(verify, results') {
      StaysInconsistent(verify, results', results);
    }
  }

  lemma {:induction false} StaysInconsistent(verify: Verifier, results: seq<Result>, results': seq<Result>)
    requires |results| == |results'| && forall k: nat :: k < |results| ==> SameChecks(verify, results[k], results'[k])
    requires Inconsistent(verify, results)
    ensures Inconsistent(verify, results')
  {
    var f: nat, j: nat :| IsFirstValid(verify, results, f) && j < |results| && AsCandidate(verify, results[j]).Some?
                          && Differ(AsCandidate(verify, results[f]).value, AsCandidate(verify, results[j]).value);
    assert SameChecks(verify, results[f], results'[f]) && SameChecks(verify, results[j], results'[j]);
    assert IsFirstValid(verify, results', f);
  }

  /** An unsigned result is never picked against a signed one of a positive creation time. */
  lemma UnsignedLoses(verify: Verifier, results: seq<Result>, i: nat, j: nat)
    requires i < |results| && AsCandidate(verify, results[i]).Some? && results[i].connEvent.None?
    requires j < |results| && AsCandidate(verify, results[j]).Some? && results[j].connEvent.Some?
    requires results[j].connEvent.value.createdAt > 0
    ensures !IsFreshest(verify, results, i)
  {
    assert AsCandidate(verify, results[j]).value.createdAt > AsCandidate(verify, results[i]).value.createdAt;
  }

  lemma {:induction false} CandidatesOfConcat(verify: Verifier, a: seq<Result>, b: seq<Result>)
    ensures Candidates(verify, a + b) == Candidates(verify, a) + Candidates(verify, b)
    decreases |b|
  {
    if b == [] {
      assert a + b == a;
    } else {
      var front, last := b[..|b| - 1], b[|b| - 1];
      CandidatesOfConcat(verify, a, front);
      LastApart(a, b);
      CandidatesSnoc(verify, a + front, last);
      CandidatesSnoc(verify, front, last);
      var added := if AsCandidate(verify, last).Some? then [AsCandidate(verify, last).value] else [];
      Associative(Candidates(verify, a), Candidates(verify, front), added);
    }
  }

  lemma LastApart(a: seq<Result>, b: seq<Result>)
    requires b != []
    ensures a + b == (a + b[..|b| - 1]) + [b[|b| - 1]]
    ensures b == b[..|b| - 1] + [b[|b| - 1]]
  {
  }

  lemma {:induction false} CandidatesSnoc(verify: Verifier, results: seq<Result>, r: Result)
    ensures Candidates(verify, results + [r]) ==
            Candidates(verify, results) + if AsCandidate(verify, r).Some? then [AsCandidate(verify, r).value] else []
  {
    assert (results + [r])[..|results|] == results;
  }

  /** A slot still unfilled at the timeout counts as if it were not there. */
  lemma UnfilledIsAbsent(verify: Verifier, before: seq<Result>, after: seq<Result>)
    ensures PickBest(verify, before + [UNFILLED] + after) == PickBest(verify, before + after)
  {
    CandidatesOfConcat(verify, before + [UNFILLED], after);
    CandidatesOfConcat(verify, before, [UNFILLED]);
    CandidatesOfConcat(verify, before, after);
    assert [UNFILLED][..0] == [];
    assert Candidates(verify, [UNFILLED]) == [];
    assert Candidates(verify, before) + [] + Candidates(verify, after) ==
           Candidates(verify, before) + Candidates(verify, after);
  }

  // ------------------------------------------------------------ the order of the results

  lemma {:induction false} CandidateMembers(verify: Verifier, results: seq<Result>)
    ensures forall c :: c in Candidates(verify, results) <==>
            exists r :: r in results && AsCandidate(verify, r) == Some(c)
  {
    if results != [] {
      var front, last := results[..|results| - 1], results[|results| - 1];
      assert results == front + [last];
      CandidateMembers(verify, front);
      forall c | c in Candidates(verify, results)
        ensures exists r :: r in results && AsCandidate(verify, r) == Some(c)
      {
        if c in Candidates(verify, front) {
          var r :| r in front && AsCandidate(verify, r) == Some(c);
          assert r in results;
        } else {
          assert AsCandidate(verify, last) == Some(c);
        }
      }
    }
  }

  // With `first` the first candidate and `newest` the one picked, this is what comes out.
  ghost function VerdictOf(valid: seq<Candidate>, first: Candidate, newest: Candidate): Option<Resolution> {
    if exists c :: c in valid && Differ(first, c) then None else Outcome(newest)
  }

  ghost predicate IsNewest(valid: seq<Candidate>, m: Candidate) {
    m in valid && forall c :: c in valid ==> c.createdAt <= m.createdAt
  }

  // In some order `first` comes first and `newest` is picked.
  ghost predicate Possible(valid: seq<Candidate>, first: Candidate, newest: Candidate) {
    && first in valid && IsNewest(valid, newest)
    && (first == newest || first.createdAt < newest.createdAt)
  }

  ghost predicate OrderIndependent(verify: Verifier, results: seq<Result>) {
    forall other: seq<Result> :: multiset(other) == multiset(results) ==>
        PickBest(verify, other) == PickBest(verify, results)
  }

  // All possible pairs come to the same: a condition on the candidates, not on their order.
  ghost predicate OneVerdict(valid: seq<Candidate>) {
    forall a, m, a', m' :: Possible(valid, a, m) && Possible(valid, a', m') ==>
        VerdictOf(valid, a, m) == VerdictOf(valid, a', m')
  }

  lemma {:induction false} PickIsPossible(verify: Verifier, results: seq<Result>)
    requires Candidates(verify, results) != []
    ensures var valid := Candidates(verify, results);
            && Possible(valid, valid[0], valid[Newest(valid)])
            && PickBest(verify, results) == VerdictOf(valid, valid[0], valid[Newest(valid)])
  {
    var valid := Candidates(verify, results);
    var n := Newest(valid);
    assert IsNewest(valid, valid[n]);
    SomeDiffers(valid);
  }

  lemma SomeDiffers(valid: seq<Candidate>)
    requires valid != []
    ensures (exists c :: c in valid && Differ(valid[0], c)) <==>
            exists j :: 0 <= j < |valid| && Differ(valid[0], valid[j])
  {
    if c :| c in valid && Differ(valid[0], c) {
      var j :| 0 <= j < |valid| && valid[j] == c;
      assert Differ(valid[0], valid[j]);
    }
  }

  lemma {:induction false} SameMembers(verify: Verifier, a: seq<Result>, b: seq<Result>)
    requires multiset(a) == multiset(b)
    ensures forall c :: c in Candidates(verify, a) <==> c in Candidates(verify, b)
  {
    CandidateMembers(verify, a);
    CandidateMembers(verify, b);
    assert forall r :: r in a <==> r in multiset(a);
    assert forall r :: r in b <==> r in multiset(b);
  }

  lemma SamePossible(valid: seq<Candidate>, other: seq<Candidate>, a: Candidate, m: Candidate)
    requires forall c :: c in valid <==> c in other
    ensures Possible(valid, a, m) <==> Possible(other, a, m)
    ensures VerdictOf(valid, a, m) == VerdictOf(other, a, m)
  {
  }

  // Moves one element to the front.
  lemma ToFront(results: seq<Result>, i: nat) returns (rest: seq<Result>)
    requires i < |results|
    ensures multiset([results[i]] + rest) == multiset(results)
  {
    rest := results[..i] + results[i + 1..];
    assert results == results[..i] + ([results[i]] + results[i + 1..]);
  }

  // Brings a result of a given candidate to the front.
  lemma LeadWith(verify: Verifier, results: seq<Result>, c: Candidate) returns (r: Result, rest: seq<Result>)
    requires c in Candidates(verify, results)
    ensures AsCandidate(verify, r) == Some(c) && multiset([r] + rest) == multiset(results)
    ensures Candidates(verify, [r] + rest) == [c] + Candidates(verify, rest)
  {
    CandidateMembers(verify, results);
    r :| r in results && AsCandidate(verify, r) == Some(c);
    var i :| 0 <= i < |results| && results[i] == r;
    rest := ToFront(results, i);
    CandidatesOfOne(verify, r, rest);
  }

  // Every possible pair is met by some order of the results.
  lemma PossibleIsMet(verify: Verifier, results: seq<Result>, a: Candidate, m: Candidate) returns (other: seq<Result>)
    requires Possible(Candidates(verify, results), a, m)
    ensures multiset(other) == multiset(results)
    ensures PickBest(verify, other) == VerdictOf(Candidates(verify, results), a, m)
  {
    var valid := Candidates(verify, results);
    var ra, rest := LeadWith(verify, results, a);
    other := [ra] + rest;
    SameMembers(verify, results, other);
    if a != m {
      assert m in [a] + Candidates(verify, rest);
      var rm, rest' := LeadWith(verify, rest, m);
      other := [ra] + ([rm] + rest');
      assert multiset([ra] + rest) == multiset([ra]) + multiset(rest);
      assert multiset(other) == multiset([ra]) + multiset([rm] + rest');
      CandidatesOfOne(verify, ra, [rm] + rest');
      SameMembers(verify, results, other);
    }
    LeadersDecide(verify, results, other, a, m);
  }

  lemma {:induction false} LeadersDecide(verify: Verifier, results: seq<Result>, other: seq<Result>, a: Candidate,
                                         m: Candidate)
    requires Possible(Candidates(verify, results), a, m)
    requires forall c :: c in Candidates(verify, results) <==> c in Candidates(verify, other)
    requires var valid := Candidates(verify, other);
             |valid| > 0 && valid[0] == a && (a == m || (|valid| > 1 && valid[1] == m))
    ensures PickBest(verify, other) == VerdictOf(Candidates(verify, results), a, m)
  {
    SamePossible(Candidates(verify, results), Candidates(verify, other), a, m);
    PickIsPossible(verify, other);
    NewestLeads(Candidates(verify, other), a, m);
  }

  lemma {:induction false} NewestLeads(valid: seq<Candidate>, a: Candidate, m: Candidate)
    requires Possible(valid, a, m)
    requires |valid| > 0 && valid[0] == a && (a == m || (|valid| > 1 && valid[1] == m))
    ensures valid[Newest(valid)] == m
  {
    NewestIsUnique(valid, if a == m then 0 else 1);
  }

  lemma {:induction false} CandidatesOfOne(verify: Verifier, r: Result, rest: seq<Result>)
    requires AsCandidate(verify, r).Some?
    ensures Candidates(verify, [r] + rest) == [AsCandidate(verify, r).value] + Candidates(verify, rest)
  {
    CandidatesOfConcat(verify, [r], rest);
    assert [r][..0] == [];
  }

  lemma {:induction false} CandidatesOfTwo(verify: Verifier, r: Result, s: Result, rest: seq<Result>)
    requires AsCandidate(verify, r).Some? && AsCandidate(verify, s).Some?
    ensures Candidates(verify, [r, s] + rest) ==
            [AsCandidate(verify, r).value, AsCandidate(verify, s).value] + Candidates(verify, rest)
  {
    assert [r, s] + rest == [r] + ([s] + rest);
    CandidatesOfOne(verify, r, [s] + rest);
    CandidatesOfOne(verify, s, rest);
  }

  /** What makes the order of the results irrelevant. If two candidates name different owners, none
      that names no owner may come first and leave the pick to a newest one that has found the
      domain; otherwise all newest candidates must have the same to say. */
  ghost predicate Settled(valid: seq<Candidate>) {
    if exists a, b :: a in valid && b in valid && Differ(a, b)
    then forall a, m :: Possible(valid, a, m) && a.pubkey == "" ==> !m.domainFound
    else forall m, m' :: IsNewest(valid, m) && IsNewest(valid, m') ==> Outcome(m) == Outcome(m')
  }

  lemma SettledIff(valid: seq<Candidate>)
    ensures Settled(valid) <==> OneVerdict(valid)
  {
    if a, b :| a in valid && b in valid && Differ(a, b) {
      ContradictedIff(valid, a, b);
    } else {
      forall m | IsNewest(valid, m) ensures Possible(valid, m, m) && VerdictOf(valid, m, m) == Outcome(m) {}
    }
  }

  // With two owners named, some order always comes to nothing.
  lemma ContradictedIff(valid: seq<Candidate>, a: Candidate, b: Candidate)
    requires a in valid && b in valid && Differ(a, b)
    ensures OneVerdict(valid) <==> forall c, m :: Possible(valid, c, m) && c.pubkey == "" ==> !m.domainFound
  {
    forall c, m | Possible(valid, c, m)
      ensures VerdictOf(valid, c, m) == if c.pubkey == "" then Outcome(m) else None
    {
      assert c.pubkey != "" ==> Differ(c, a) || Differ(c, b);
    }
    var newest := valid[Newest(valid)];
    assert IsNewest(valid, newest);
    var m := if a.createdAt < newest.createdAt then newest else a;
    assert Possible(valid, a, m) && VerdictOf(valid, a, m).None?;
  }

  /** The pick does not depend on the order of the results exactly when the candidates are settled. */
  lemma {:induction false} OrderIndependentIff(verify: Verifier, results: seq<Result>)
    ensures OrderIndependent(verify, results) <==> Settled(Candidates(verify, results))
  {
    var valid := Candidates(verify, results);
    SettledIff(valid);
    if OrderIndependent(verify, results) {
      forall a, m, a', m' | Possible(valid, a, m) && Possible(valid, a', m')
        ensures VerdictOf(valid, a, m) == VerdictOf(valid, a', m')
      {
        var o := PossibleIsMet(verify, results, a, m);
        var o' := PossibleIsMet(verify, results, a', m');
      }
    }
    if OneVerdict(valid) {
      forall other: seq<Result> | multiset(other) == multiset(results)
        ensures PickBest(verify, other) == PickBest(verify, results)
      {
        OneVerdictFixesPick(verify, results, other);
      }
    }
  }

  lemma HasMember(valid: seq<Candidate>)
    requires valid != []
    ensures exists c :: c in valid
  {
    assert valid[0] in valid;
  }

  lemma {:induction false} OneVerdictFixesPick(verify: Verifier, results: seq<Result>, other: seq<Result>)
    requires multiset(other) == multiset(results) && OneVerdict(Candidates(verify, results))
    ensures PickBest(verify, other) == PickBest(verify, results)
  {
    var valid, valid' := Candidates(verify, results), Candidates(verify, other);
    SameMembers(verify, results, other);
    if valid == [] {
      if valid' != [] {
        HasMember(valid');
        assert false;
      }
    } else {
      assert valid[0] in valid';
      PickIsPossible(verify, results);
      PickIsPossible(verify, other);
      SamePossible(valid, valid', valid'[0], valid'[Newest(valid')]);
    }
  }

  /** In particular it does not when every candidate names an owner and only one is newest. */
  lemma {:induction false} OwnedAndUniqueIsOrderIndependent(verify: Verifier, results: seq<Result>)
    requires var valid := Candidates(verify, results);
             && (forall c :: c in valid ==> c.pubkey != "")
             && forall c, d :: IsNewest(valid, c) && IsNewest(valid, d) ==> c == d
    ensures OrderIndependent(verify, results)
  {
    OrderIndependentIff(verify, results);
  }

  function Unsigned(pubkey: string): Result {
    Result(Some(Resolution(pubkey, Resolved("", 0, "", map[]))), None, true, "", false)
  }

  lemma ThreeUnsigned(verify: Verifier, p: string, q: string, r: string)
    ensures var c := Candidates(verify, [Unsigned(p), Unsigned(q), Unsigned(r)]);
            && |c| == 3 && c[0].pubkey == p && c[1].pubkey == q && c[2].pubkey == r
            && forall i :: 0 <= i < 3 ==> c[i].domainFound
  {
    var a, b, c := Unsigned(p), Unsigned(q), Unsigned(r);
    CandidatesOfTwo(verify, a, b, [c]);
    assert [a, b] + [c] == [a, b, c];
    assert [c][..0] == [];
  }

  /** A response without an owner switches the owner check off when it comes first: then one of two
      contradicting answers is picked that cancel each other in another order. */
  lemma OrderCanMatter(verify: Verifier)
    ensures PickBest(verify, [Unsigned(""), Unsigned("a"), Unsigned("b")]).Some?
    ensures PickBest(verify, [Unsigned("a"), Unsigned("b"), Unsigned("")]).None?
  {
    ThreeUnsigned(verify, "", "a", "b");
    ThreeUnsigned(verify, "a", "b", "");
    var valid := Candidates(verify, [Unsigned("a"), Unsigned("b"), Unsigned("")]);
    assert Differ(valid[0], valid[1]);
  }

  // ------------------------------------------------------------ windows

  // The position in the order at which the k-th set of MAX_NODES_PER_SET nodes starts.
  function Start(k: nat): nat {
    MAX_NODES_PER_SET * k
  }

  // The slots of one set of nodes.
  function Window(slots: seq<Result>, k: nat): seq<Result>
    requires Start(k) <= |slots|
  {
    var start := Start(k);
    var end := if start + MAX_NODES_PER_SET > |slots| then |slots| else start + MAX_NODES_PER_SET;
    slots[start..end]
  }

  // The first answer of a set from the k-th on.
  function FirstBest(verify: Verifier, slots: seq<Result>, k: nat): Option<Resolution>
    decreases MAX_RETRY_SETS - k
  {
    if k >= MAX_RETRY_SETS || Start(k) >= |slots| then None
    else
      var best := PickBest(verify, Window(slots, k));
      if best.Some? then best else FirstBest(verify, slots, k + 1)
  }

  ghost predicate IsSet(slots: seq<Result>, k: nat) {
    k < MAX_RETRY_SETS && Start(k) < |slots|
  }

  /** The answer is that of the first set that has one; there is none exactly when no set has. A set
      whose freshest result has not found the domain just counts as having none. */
  lemma {:induction false} FirstBestMeaning(verify: Verifier, slots: seq<Result>)
    ensures FirstBest(verify, slots, 0).None? <==> NoneYet(verify, slots)
    ensures forall best :: best == FirstBest(verify, slots, 0) && best.Some? ==>
            exists m :: IsAnswer(verify, slots, m, best)
  {
    var m := FirstBestFrom(verify, slots, 0);
  }

  // The m-th set is the first that has an answer, and that is it.
  ghost predicate IsAnswer(verify: Verifier, slots: seq<Result>, m: nat, best: Option<Resolution>) {
    && IsSet(slots, m) && PickBest(verify, Window(slots, m)) == best && best.Some?
    && NoneBefore(verify, slots, m)
  }

  ghost predicate NoneYet(verify: Verifier, slots: seq<Result>) {
    forall m: nat :: IsSet(slots, m) ==> PickBest(verify, Window(slots, m)).None?
  }

  // No set before the k-th has an answer.
  ghost predicate NoneBefore(verify: Verifier, slots: seq<Result>, k: nat) {
    forall n: nat :: n < k && IsSet(slots, n) ==> PickBest(verify, Window(slots, n)).None?
  }

  lemma {:induction false} FirstBestFrom(verify: Verifier, slots: seq<Result>, k: nat) returns (m: nat)
    requires NoneBefore(verify, slots, k)
    ensures FirstBest(verify, slots, k).None? ==> NoneYet(verify, slots)
    ensures FirstBest(verify, slots, k).Some? ==> IsAnswer(verify, slots, m, FirstBest(verify, slots, k))
    decreases MAX_RETRY_SETS - k
  {
    m := k;
    if !IsSet(slots, k) {
      NoSetLeft(verify, slots, k);
    } else if PickBest(verify, Window(slots, k)).Some? {
      AnsweredAt(verify, slots, k);
    } else {
      NotAnsweredAt(verify, slots, k);
      m := FirstBestFrom(verify, slots, k + 1);
    }
  }

  lemma {:induction false} NoSetLeft(verify: Verifier, slots: seq<Result>, k: nat)
    requires NoneBefore(verify, slots, k) && !IsSet(slots, k)
    ensures FirstBest(verify, slots, k).None? && NoneYet(verify, slots)
  {
  }

  lemma {:induction false} AnsweredAt(verify: Verifier, slots: seq<Result>, k: nat)
    requires NoneBefore(verify, slots, k) && IsSet(slots, k) && PickBest(verify, Window(slots, k)).Some?
    ensures FirstBest(verify, slots, k).Some? && IsAnswer(verify, slots, k, FirstBest(verify, slots, k))
  {
  }

  lemma NotAnsweredAt(verify: Verifier, slots: seq<Result>, k: nat)
    requires NoneBefore(verify, slots, k) && IsSet(slots, k) && PickBest(verify, Window(slots, k)).None?
    ensures FirstBest(verify, slots, k) == FirstBest(verify, slots, k + 1) && NoneBefore(verify, slots, k + 1)
  {
  }

  lemma {:induction false} AnswerIsFirstBest(verify: Verifier, slots: seq<Result>, m: nat, best: Option<Resolution>)
    requires IsAnswer(verify, slots, m, best)
    ensures FirstBest(verify, slots, 0) == best
  {
    var m' := FirstBestFrom(verify, slots, 0);
    assert m' == m;
  }

  /** The freshest of consistent results has found the domain. */
  ghost predicate Finds(verify: Verifier, results: seq<Result>) {
    && !Inconsistent(verify, results)
    && exists j: nat :: IsFreshest(verify, results, j) && AsCandidate(verify, results[j]).value.domainFound
  }

  lemma PickedIff(verify: Verifier, results: seq<Result>)
    ensures PickBest(verify, results).Some? <==> Finds(verify, results)
  {
    NothingValid(verify, results);
    if i: nat :| IsFreshest(verify, results, i) {
      FreshestDecides(verify, results, i);
      forall j: nat | IsFreshest(verify, results, j) ensures j == i {
        OneFreshest(verify, results, i, j);
      }
    }
  }

  lemma OneFreshest(verify: Verifier, results: seq<Result>, i: nat, j: nat)
    requires IsFreshest(verify, results, i) && IsFreshest(verify, results, j)
    ensures i == j
  {
  }

  ghost predicate SetFinds(verify: Verifier, slots: seq<Result>, m: nat) {
    IsSet(slots, m) && Finds(verify, Window(slots, m))
  }

  /** A name resolves exactly when in some set the freshest result has found it and the results name
      no two owners, as far as the check goes. */
  lemma {:induction false} ResolvesIff(verify: Verifier, slots: seq<Result>)
    ensures FirstBest(verify, slots, 0).Some? <==> exists m: nat :: SetFinds(verify, slots, m)
  {
    FirstBestMeaning(verify, slots);
    forall m: nat | IsSet(slots, m)
      ensures PickBest(verify, Window(slots, m)).Some? <==> SetFinds(verify, slots, m)
    {
      PickedIff(verify, Window(slots, m));
    }
    if FirstBest(verify, slots, 0).Some? {
      var m :| IsAnswer(verify, slots, m, FirstBest(verify, slots, 0));
      assert SetFinds(verify, slots, m);
    }
  }

  // A set that the i-th slot is no part of finds the name.
  ghost predicate OtherSetFinds(verify: Verifier, slots: seq<Result>, i: nat, m: nat) {
    SetFinds(verify, slots, m) && !(Start(m) <= i < Start(m + 1))
  }

  /** A removed domain, one that the freshest result of all has not found, resolves all the same
      exactly when some other set than that result's own finds it. */
  lemma {:induction false} RemovedResolvesIff(verify: Verifier, slots: seq<Result>, i: nat)
    requires IsFreshest(verify, slots, i) && !AsCandidate(verify, slots[i]).value.domainFound
    ensures FirstBest(verify, slots, 0).Some? <==> exists m: nat :: OtherSetFinds(verify, slots, i, m)
  {
    ResolvesIff(verify, slots);
    forall m: nat ensures OtherSetFinds(verify, slots, i, m) <==> SetFinds(verify, slots, m) {
      if IsSet(slots, m) && Start(m) <= i < Start(m + 1) {
        OwnSetFindsNothing(verify, slots, i, m);
      }
    }
  }

  lemma OwnSetFindsNothing(verify: Verifier, slots: seq<Result>, i: nat, m: nat)
    requires IsFreshest(verify, slots, i) && !AsCandidate(verify, slots[i]).value.domainFound
    requires IsSet(slots, m) && Start(m) <= i < Start(m + 1)
    ensures !SetFinds(verify, slots, m)
  {
    var w := Window(slots, m);
    FreshestInWindow(verify, slots, i, m);
    forall j: nat | IsFreshest(verify, w, j) ensures w[j] == slots[i] {
      OneFreshest(verify, w, i - Start(m), j);
    }
  }

  lemma FreshestInWindow(verify: Verifier, slots: seq<Result>, i: nat, m: nat)
    requires IsFreshest(verify, slots, i) && IsSet(slots, m) && Start(m) <= i < Start(m + 1)
    ensures IsFreshest(verify, Window(slots, m), i - Start(m))
    ensures Window(slots, m)[i - Start(m)] == slots[i]
  {
    var w := Window(slots, m);
    forall j | 0 <= j < |w| ensures w[j] == slots[Start(m) + j] {}
  }

  /** With one set only there is no other one: the freshest result has the last word. */
  lemma {:induction false} RemovedInOneSet(verify: Verifier, slots: seq<Result>, i: nat)
    requires |slots| <= MAX_NODES_PER_SET && IsFreshest(verify, slots, i)
    ensures !AsCandidate(verify, slots[i]).value.domainFound ==> FirstBest(verify, slots, 0).None?
  {
    if !AsCandidate(verify, slots[i]).value.domainFound {
      RemovedResolvesIff(verify, slots, i);
      assert forall m: nat :: IsSet(slots, m) ==> m == 0;
    }
  }

  function SignedAt(createdAt: int, found: bool): Result {
    Result(Some(Resolution("p", Resolved("", 0, "", map[]))), Some(ConnEvent("", "p", "", createdAt, "")), found, "",
           false)
  }

  lemma FindsAlone(verify: Verifier, r: Result)
    requires AsCandidate(verify, r).Some? && AsCandidate(verify, r).value.domainFound
    ensures Finds(verify, [r])
  {
    assert IsFreshest(verify, [r], 0);
  }

  /** With more sets it may, whatever the two results are: when the older one that still found the domain
      is in a later set, that is asked and answers, although the freshest of all has not found it. */
  lemma OlderSetResolves(verify: Verifier, removed: Result, older: Result)
    requires AsCandidate(verify, removed).Some? && !AsCandidate(verify, removed).value.domainFound
    requires AsCandidate(verify, older).Some? && AsCandidate(verify, older).value.domainFound
    requires AsCandidate(verify, older).value.createdAt < AsCandidate(verify, removed).value.createdAt
    ensures var slots := [removed, UNFILLED, UNFILLED, older];
            IsFreshest(verify, slots, 0) && FirstBest(verify, slots, 0).Some?
  {
    var slots := [removed, UNFILLED, UNFILLED, older];
    assert Window(slots, 1) == [older];
    FindsAlone(verify, older);
    assert SetFinds(verify, slots, 1);
    ResolvesIff(verify, slots);
  }

  /** For instance these two. */
  lemma RemovedCanResolve(verify: Verifier)
    requires verify(SignedAt(2, false).connEvent.value) && verify(SignedAt(1, true).connEvent.value)
    ensures var slots := [SignedAt(2, false), UNFILLED, UNFILLED, SignedAt(1, true)];
            IsFreshest(verify, slots, 0) && FirstBest(verify, slots, 0).Some?
  {
    OlderSetResolves(verify, SignedAt(2, false), SignedAt(1, true));
  }

  // A slot at the timeout: unfilled, or what that node answered.
  predicate SlotOf(slot: Result, node: string) {
    slot == UNFILLED || slot.nodeURL == node
  }

  predicate SlotsOf(slots: seq<Result>, order: seq<string>) {
    |slots| <= |order| && forall i :: 0 <= i < |slots| ==> SlotOf(slots[i], order[i])
  }

  lemma MoreSlots(slots: seq<Result>, results: seq<Result>, order: seq<string>)
    requires |slots| + |results| <= |order| && SlotsOf(slots, order[..|slots|])
    requires SlotsOf(results, order[|slots|..|slots| + |results|])
    ensures SlotsOf(slots + results, order[..|slots| + |results|])
  {
    forall i | 0 <= i < |slots + results| ensures SlotOf((slots + results)[i], order[..|slots| + |results|][i]) {
      if i < |slots| {
        assert SlotOf(slots[i], order[..|slots|][i]);
      } else {
        assert SlotOf(results[i - |slots|], order[|slots|..|slots| + |results|][i - |slots|]);
      }
    }
  }

  function AtMost(n: nat, cap: nat): nat {
    if n < cap then n else cap
  }

  class Resolver {
    var nodes: seq<string>
    var currentNode: nat

    // The nodes asked in the latest resolution, in order, and what their slots held.
    ghost var asked: seq<string>
    ghost var slots: seq<Result>

    constructor (nodes: seq<string>)
      ensures this.nodes == nodes && currentNode == 0
    {
      this.nodes, currentNode, asked, slots := nodes, 0, [], [];
    }

    method UpdateNodes(nodes: seq<string>)
      modifies this`nodes, this`currentNode
      ensures this.nodes == nodes
      ensures currentNode == if old(currentNode) >= |nodes| then 0 else old(currentNode)
    {
      this.nodes := nodes;
      if currentNode >= |nodes| {
        currentNode := 0;
      }
    }

    // One request to one node; nothing is known about what it answers.
    method ResolveFromNode(node: string) returns (answer: Result)
      ensures answer.nodeURL == node
    {
      var r: Result := *;
      answer := r.(nodeURL := node);
    }

    /** The goroutines fill their slots in any order, and the timeout may cut in at any moment: any
        subset of the slots is filled then, each by its own node. */
    method QueryNodesParallel(nodes: seq<string>) returns (results: seq<Result>)
      modifies this`asked, this`slots
      ensures |results| == |nodes| && SlotsOf(results, nodes)
      ensures asked == old(asked) + nodes && slots == old(slots) + results
    {
      var filled := new Result[|nodes|](i => UNFILLED);
      var pending := set i {:trigger nodes[i]} | 0 <= i < |nodes|;
      while pending != {}
        invariant forall i :: i in pending ==> 0 <= i < |nodes|
        invariant forall i :: 0 <= i < |nodes| ==> SlotOf(filled[i], nodes[i])
        invariant asked == old(asked) && slots == old(slots)
        decreases pending
      {
        var timeout: bool := *;
        if timeout {
          break;
        }
        var i :| i in pending;
        pending := pending - {i};
        filled[i] := ResolveFromNode(nodes[i]);
      }
      results := filled[..];
      asked, slots := asked + nodes, slots + results;
    }

    method Shuffle(nodes: seq<string>) returns (shuffled: seq<string>)
      ensures multiset(shuffled) == multiset(nodes) && |shuffled| == |nodes|
    {
      shuffled := nodes;
      var i := |nodes| - 1;
      while i > 0
        invariant |shuffled| == |nodes| && i < |nodes|
        invariant multiset(shuffled) == multiset(nodes)
      {
        var j :| 0 <= j <= i;
        shuffled := shuffled[i := shuffled[j]][j := shuffled[i]];
        i := i - 1;
      }
    }

    // Asks one set more and picks from what its slots hold.
    method TrySet(verify: Verifier, setNodes: seq<string>, ghost order: seq<string>, ghost k: nat)
      returns (best: Option<Resolution>)
      requires Unanswered(verify, order, asked, slots, k) && k < MAX_RETRY_SETS && Start(k) < |order|
      requires setNodes == order[Start(k)..AtMost(Start(k + 1), |order|)]
      modifies this`asked, this`slots
      ensures Asked(order, asked, slots, k + 1)
      ensures best.Some? ==> best == FirstBest(verify, slots, 0) && AnsweredBy(verify, asked, slots, k, best, |order|)
      ensures best.None? ==> NoneYet(verify, slots)
    {
      ghost var asked0, slots0 := asked, slots;
      var results := QueryNodesParallel(setNodes);
      best := PickBestResult(verify, results);
      assert setNodes == order[Start(k)..Start(k) + |results|];
      NewWindow(verify, order, asked0, slots0, results, k);
    }

    /** The answer is the first best of the sets of three that were asked, one after the other, along
        some order of the nodes. The asking stops at the set that has the answer, and goes on to the
        third set, or the last node, if none has. */
    method Resolve(verify: Verifier) returns (answer: Option<Resolution>, ghost order: seq<string>)
      modifies this`asked, this`slots
      ensures multiset(order) == multiset(nodes)
      ensures asked <= order && |slots| == |asked| && SlotsOf(slots, asked)
      ensures answer == FirstBest(verify, slots, 0)
      ensures answer.Some? ==> exists m :: AnsweredBy(verify, asked, slots, m, answer, |nodes|)
      ensures answer.Some? ==> exists i: nat :: AnsweredFrom(verify, slots, i, answer.value)
      ensures answer.None? ==> |asked| == if |nodes| < 9 then |nodes| else 9
    {
      order, asked, slots := nodes, [], [];
      if |nodes| == 0 {
        return None, order;
      }
      var allNodes := Shuffle(nodes);
      order := allNodes;
      var k := 0;
      while k < MAX_RETRY_SETS
        invariant k <= MAX_RETRY_SETS
        invariant Unanswered(verify, order, asked, slots, k)
      {
        var startIdx := MAX_NODES_PER_SET * k;
        if startIdx >= |allNodes| {
          break;
        }
        var endIdx := startIdx + MAX_NODES_PER_SET;
        if endIdx > |allNodes| {
          endIdx := |allNodes|;
        }
        var best := TrySet(verify, allNodes[startIdx..endIdx], order, k);
        if best.Some? {
          AnswerIsGenuine(verify, slots, k, best);
          return best, order;
        }
        k := k + 1;
      }
      FirstBestMeaning(verify, slots);
      return None, order;
    }
  }

  // The m-th set is the first that has an answer, and the last that was asked.
  ghost predicate AnsweredBy(verify: Verifier, asked: seq<string>, slots: seq<Result>, m: nat,
                             answer: Option<Resolution>, nodes: nat)
  {
    IsAnswer(verify, slots, m, answer) && |asked| == AtMost(Start(m + 1), nodes)
  }

  // The i-th slot holds the answer, not failed, with the domain found and signed correctly if signed.
  ghost predicate AnsweredFrom(verify: Verifier, slots: seq<Result>, i: nat, answer: Resolution) {
    && i < |slots| && !slots[i].failed && slots[i].domainFound && slots[i].resolution == Some(answer)
    && (slots[i].connEvent.Some? ==> verify(slots[i].connEvent.value))
  }

  lemma {:induction false} AnswerIsGenuine(verify: Verifier, slots: seq<Result>, m: nat, best: Option<Resolution>)
    requires IsAnswer(verify, slots, m, best)
    ensures exists i: nat :: AnsweredFrom(verify, slots, i, best.value)
  {
    var w := Window(slots, m);
    PickedIsGenuine(verify, w);
    var j: nat :| Answers(verify, w, j, best.value);
    assert w[j] == slots[Start(m) + j];
    assert AnsweredFrom(verify, slots, Start(m) + j, best.value);
  }

  // The first k sets have been asked and none has an answer.
  ghost predicate Unanswered(verify: Verifier, order: seq<string>, asked: seq<string>, slots: seq<Result>, k: nat) {
    && Asked(order, asked, slots, k)
    && NoneYet(verify, slots)
  }

  ghost predicate Asked(order: seq<string>, asked: seq<string>, slots: seq<Result>, k: nat) {
    && |slots| == |asked| == AtMost(Start(k), |order|)
    && asked == order[..|asked|]
    && SlotsOf(slots, asked)
  }

  // One more set: either it has the answer, or there is none yet.
  lemma {:induction false} NewWindow(verify: Verifier, order: seq<string>, asked: seq<string>, slots: seq<Result>,
                                     results: seq<Result>, k: nat)
    requires Unanswered(verify, order, asked, slots, k) && k < MAX_RETRY_SETS && Start(k) < |order|
    requires |results| == AtMost(Start(k + 1), |order|) - Start(k)
    requires SlotsOf(results, order[Start(k)..Start(k) + |results|])
    ensures Asked(order, asked + order[Start(k)..Start(k) + |results|], slots + results, k + 1)
    ensures var best := PickBest(verify, results);
            if best.Some?
            then FirstBest(verify, slots + results, 0) == best && IsAnswer(verify, slots + results, k, best)
            else NoneYet(verify, slots + results)
  {
    AskedMore(order, asked, slots, results, k);
    WindowDecides(verify, slots, results, k);
  }

  lemma AskedMore(order: seq<string>, asked: seq<string>, slots: seq<Result>, results: seq<Result>, k: nat)
    requires Asked(order, asked, slots, k) && Start(k) < |order|
    requires |results| == AtMost(Start(k + 1), |order|) - Start(k)
    requires SlotsOf(results, order[Start(k)..Start(k) + |results|])
    ensures Asked(order, asked + order[Start(k)..Start(k) + |results|], slots + results, k + 1)
  {
    MoreSlots(slots, results, order);
    Prefixes(order, Start(k), Start(k) + |results|);
  }

  lemma Prefixes(order: seq<string>, m: nat, n: nat)
    requires m <= n <= |order|
    ensures order[..m] + order[m..n] == order[..n]
  {
  }

  lemma WindowDecides(verify: Verifier, asked: seq<Result>, results: seq<Result>, k: nat)
    requires |asked| == Start(k) && 0 < |results| <= MAX_NODES_PER_SET && k < MAX_RETRY_SETS
    requires NoneYet(verify, asked)
    ensures var slots, best := asked + results, PickBest(verify, results);
            if best.Some? then FirstBest(verify, slots, 0) == best && IsAnswer(verify, slots, k, best)
            else NoneYet(verify, slots)
  {
    var slots := asked + results;
    assert IsSet(slots, k) && Window(slots, k) == results;
    forall m: nat | IsSet(slots, m) && m != k ensures PickBest(verify, Window(slots, m)).None? {
      assert Window(slots, m) == Window(asked, m);
    }
    if PickBest(verify, results).Some? {
      AnswerIsFirstBest(verify, slots, k, PickBest(verify, results));
    }
  }
}
