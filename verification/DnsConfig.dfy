/** Taking over the DNS settings of network adapters: save first, then change, and never overwrite
    what was saved. */
module DnsConfig {
  import opened Wrappers

  datatype InterfaceConfig = InterfaceConfig(name: string, dns: seq<string>, wasDHCP: bool)

  type Configs = map<string, InterfaceConfig>

  // The entries of a saved list by name; of several with one name the last counts.
  function AsMap(list: seq<InterfaceConfig>): Configs {
    if list == [] then map[]
    else AsMap(list[..|list| - 1])[list[|list| - 1].name := list[|list| - 1]]
  }

  function SavedEntries(saved: Option<seq<InterfaceConfig>>): Configs {
    if saved.Some? then AsMap(saved.value) else map[]
  }

  /** Of several entries with one name the last counts. */
  lemma {:induction false} AsMapMeaning(list: seq<InterfaceConfig>, i: nat)
    requires i < |list| && forall j :: i < j < |list| ==> list[j].name != list[i].name
    ensures list[i].name in AsMap(list) && AsMap(list)[list[i].name] == list[i]
  {
    var n := |list| - 1;
    if i < n {
      AsMapMeaning(list[..n], i);
    }
  }

  // Adds the entries in order, each only if its name is new.
  function MergeInto(known: Configs, list: seq<InterfaceConfig>): Configs {
    if list == [] then known
    else
      var merged, last := MergeInto(known, list[..|list| - 1]), list[|list| - 1];
      if last.name in merged then merged else merged[last.name := last]
  }

  predicate DistinctNames(list: seq<InterfaceConfig>) {
    forall i, j :: 0 <= i < j < |list| ==> list[i].name != list[j].name
  }

  lemma {:induction false} MergeAppend(known: Configs, a: seq<InterfaceConfig>, b: seq<InterfaceConfig>)
    ensures MergeInto(known, a + b) == MergeInto(MergeInto(known, a), b)
    decreases |b|
  {
    if b == [] {
      assert a + b == a;
    } else {
      assert (a + b)[..|a + b| - 1] == a + b[..|b| - 1];
      MergeAppend(known, a, b[..|b| - 1]);
    }
  }

  /** Merging keeps every entry there is, and for a new name takes the first entry with it. */
  lemma {:induction false} MergeMeaning(known: Configs, list: seq<InterfaceConfig>, name: string)
    ensures name in known ==> name in MergeInto(known, list) && MergeInto(known, list)[name] == known[name]
    ensures name !in known ==>
              if name in MergeInto(known, list)
              then IsFirstEntry(list, name, MergeInto(known, list)[name])
              else forall i :: 0 <= i < |list| ==> list[i].name != name
  {
    if list != [] {
      var front := list[..|list| - 1];
      MergeMeaning(known, front, name);
      if name !in known && name in MergeInto(known, front) {
        var i :| 0 <= i < |front| && front[i] == MergeInto(known, front)[name] && front[i].name == name
                 && forall j :: 0 <= j < i ==> front[j].name != name;
        assert list[i] == front[i] && forall j :: 0 <= j < i ==> list[j] == front[j];
      }
    }
  }

  ghost predicate IsFirstEntry(list: seq<InterfaceConfig>, name: string, c: InterfaceConfig) {
    exists i :: 0 <= i < |list| && list[i] == c && list[i].name == name
                && forall j :: 0 <= j < i ==> list[j].name != name
  }

  lemma {:induction false} DistinctMerge(list: seq<InterfaceConfig>)
    requires DistinctNames(list)
    ensures AsMap(list) == MergeInto(map[], list)
    ensures forall n :: n in AsMap(list) ==> exists i :: 0 <= i < |list| && list[i].name == n
  {
    if list != [] {
      DistinctMerge(list[..|list| - 1]);
    }
  }

  function NamesOf(list: seq<InterfaceConfig>): set<string> {
    set c | c in list :: c.name
  }

  function NameList(list: seq<InterfaceConfig>): seq<string> {
    seq(|list|, i requires 0 <= i < |list| => list[i].name)
  }

  // The interfaces that do not use the given server yet.
  function NotUsing(dns: string, list: seq<InterfaceConfig>): seq<InterfaceConfig> {
    if list == [] then []
    else
      var last := list[|list| - 1];
      NotUsing(dns, list[..|list| - 1]) + if dns in last.dns then [] else [last]
  }

  /** Exactly the listed ones that do not name the server. */
  lemma {:induction false} NotUsingMeaning(dns: string, list: seq<InterfaceConfig>, c: InterfaceConfig)
    ensures c in NotUsing(dns, list) <==> c in list && forall i :: 0 <= i < |c.dns| ==> c.dns[i] != dns
  {
    if list != [] {
      NotUsingMeaning(dns, list[..|list| - 1], c);
      assert list == list[..|list| - 1] + [list[|list| - 1]];
    }
  }

  lemma {:induction false} NotUsingMore(dns: string, list: seq<InterfaceConfig>, c: InterfaceConfig)
    ensures NotUsing(dns, list + [c]) == NotUsing(dns, list) + if dns in c.dns then [] else [c]
  {
    assert (list + [c])[..|list|] == list;
  }

  predicate Lists(list: seq<InterfaceConfig>, names: set<string>) {
    NamesOf(list) == names
  }

  /** The saved list with the current one merged into it, one entry for each name. With nothing saved
      the current list is taken as it is. */
  method MergeInterfaceConfigs(existing: Option<seq<InterfaceConfig>>, current: seq<InterfaceConfig>)
    returns (result: seq<InterfaceConfig>)
    ensures existing.None? || existing.value == [] ==> result == current
    ensures existing.Some? && existing.value != [] ==>
              DistinctNames(result) && AsMap(result) == MergeInto(AsMap(existing.value), current)
    ensures DistinctNames(current) ==>
              DistinctNames(result) && AsMap(result) == MergeInto(SavedEntries(existing), current)
  {
    if existing.None? || |existing.value| == 0 {
      if DistinctNames(current) {
        DistinctMerge(current);
      }
      return current;
    }
    var existingMap: Configs := map[];
    for i := 0 to |existing.value|
      invariant existingMap == AsMap(existing.value[..i])
    {
      assert existing.value[..i + 1][..i] == existing.value[..i];
      existingMap := existingMap[existing.value[i].name := existing.value[i]];
    }
    assert existing.value[..|existing.value|] == existing.value;
    ghost var saved := existingMap;
    for i := 0 to |current|
      invariant existingMap == MergeInto(saved, current[..i])
    {
      assert current[..i + 1][..i] == current[..i];
      if current[i].name !in existingMap {
        existingMap := existingMap[current[i].name := current[i]];
      }
    }
    assert current[..|current|] == current;
    NamedByKey(existing.value, current);
    result := Entries(existingMap);
  }

  ghost predicate KeysAreNames(m: Configs) {
    forall n :: n in m ==> m[n].name == n
  }

  lemma {:induction false} NamedByKey(existing: seq<InterfaceConfig>, current: seq<InterfaceConfig>)
    ensures KeysAreNames(MergeInto(AsMap(existing), current))
    decreases |existing| + |current|
  {
    if current != [] {
      NamedByKey(existing, current[..|current| - 1]);
    } else if existing != [] {
      NamedByKey(existing[..|existing| - 1], []);
    }
  }

  lemma {:induction false} AsMapAppend(list: seq<InterfaceConfig>, c: InterfaceConfig)
    ensures AsMap(list + [c]) == AsMap(list)[c.name := c]
  {
    assert (list + [c])[..|list|] == list;
  }

  lemma PutBack(m: Configs, names: set<string>, name: string)
    requires name in names && name in m
    ensures (m - names)[name := m[name]] == m - (names - {name})
  {
  }

  lemma DistinctAppend(list: seq<InterfaceConfig>, c: InterfaceConfig)
    requires DistinctNames(list) && forall i :: 0 <= i < |list| ==> list[i].name != c.name
    ensures DistinctNames(list + [c])
  {
  }

  // The entries of a map, in no particular order.
  method Entries(m: Configs) returns (result: seq<InterfaceConfig>)
    requires KeysAreNames(m)
    ensures AsMap(result) == m && DistinctNames(result)
  {
    result := [];
    var names := m.Keys;
    while names != {}
      invariant names <= m.Keys
      invariant AsMap(result) == m - names
      invariant DistinctNames(result)
      invariant forall i :: 0 <= i < |result| ==> result[i].name !in names
    {
      var name :| name in names;
      AsMapAppend(result, m[name]);
      DistinctAppend(result, m[name]);
      PutBack(m, names, name);
      result := result + [m[name]];
      names := names - {name};
    }
    assert m - {} == m;
  }

  // ------------------------------------------------------------ the machine

  datatype Setting = Setting(dns: seq<string>, dhcp: bool)

  // The saved entries are the first observations made.
  ghost predicate Faithful(saved: Option<seq<InterfaceConfig>>, observed: seq<InterfaceConfig>) {
    SavedEntries(saved) == MergeInto(map[], observed)
  }

  /** Every adapter pointing at the daemon has a saved entry, the saved entry of an adapter is the
      first observation of it, and no saved entry points at the daemon. */
  ghost predicate Safe(localDNS: string, saved: Option<seq<InterfaceConfig>>, adapters: map<string, Setting>,
                       observed: seq<InterfaceConfig>) {
    && (forall n :: n in adapters && localDNS in adapters[n].dns ==> n in SavedEntries(saved))
    && Faithful(saved, observed)
    && (forall n :: n in SavedEntries(saved) ==> localDNS !in SavedEntries(saved)[n].dns)
  }

  /** On a safe machine an adapter pointing at the daemon can be restored to the setting that was
      observed of it first, and that setting did not point at the daemon. */
  lemma FirstObservationWins(localDNS: string, saved: Option<seq<InterfaceConfig>>, adapters: map<string, Setting>,
                             observed: seq<InterfaceConfig>, name: string)
    requires Safe(localDNS, saved, adapters, observed)
    requires name in adapters && localDNS in adapters[name].dns
    ensures name in SavedEntries(saved) && IsFirstEntry(observed, name, SavedEntries(saved)[name])
    ensures localDNS !in SavedEntries(saved)[name].dns
  {
    MergeMeaning(map[], observed, name);
  }

  // Pointing an adapter at the daemon is safe exactly when it has a saved entry.
  lemma SetIsSafeIff(localDNS: string, saved: Option<seq<InterfaceConfig>>, adapters: map<string, Setting>,
                     observed: seq<InterfaceConfig>, name: string)
    requires Safe(localDNS, saved, adapters, observed) && name in adapters
    ensures Safe(localDNS, saved, Pointed(localDNS, adapters, name), observed) <==> name in SavedEntries(saved)
  {
    assert localDNS in Pointed(localDNS, adapters, name)[name].dns;
  }

  // The adapters with one of them pointing at the daemon and nowhere else.
  function Pointed(localDNS: string, adapters: map<string, Setting>, name: string): map<string, Setting>
    requires name in adapters
  {
    adapters[name := adapters[name].(dns := [localDNS])]
  }

  /** The adapter then uses the daemon alone; everything else is as it was. */
  lemma PointedMeaning(localDNS: string, adapters: map<string, Setting>, name: string, n: string)
    requires name in adapters
    ensures n in Pointed(localDNS, adapters, name) <==> n in adapters
    ensures Pointed(localDNS, adapters, name)[name].dns == [localDNS]
    ensures n in adapters ==> Pointed(localDNS, adapters, name)[n].dhcp == adapters[n].dhcp
    ensures n in adapters && n != name ==> Pointed(localDNS, adapters, name)[n] == adapters[n]
  {
  }

  lemma {:induction false} MergedNames(entries: Configs, list: seq<InterfaceConfig>)
    ensures forall n :: n in MergeInto(entries, list) <==> n in entries || n in NamesOf(list)
  {
    forall n ensures n in MergeInto(entries, list) <==> n in entries || n in NamesOf(list) {
      MergeMeaning(entries, list, n);
    }
  }

  // What a list of observations may say: what points at the daemon is saved already.
  ghost predicate Harmless(localDNS: string, saved: Option<seq<InterfaceConfig>>, list: seq<InterfaceConfig>) {
    forall i :: 0 <= i < |list| && localDNS in list[i].dns ==> list[i].name in SavedEntries(saved)
  }

  // ------------------------------------------------------------ reading and writing the saved list

  /** What becomes of the file when a list is written to it: all of it is there, the file is as it was,
      or, cut short, it cannot be read any more. */
  datatype Outcome = Written | Untouched | Lost

  // The entries after a save of what was loaded merged with a list; what could not be loaded is not there.
  function SavedAfter(before: Configs, list: seq<InterfaceConfig>, loaded: bool, outcome: Outcome): Configs {
    match outcome
    case Written => MergeInto(if loaded then before else map[], list)
    case Untouched => before
    case Lost => map[]
  }

  // Nothing saved is lost or changed.
  ghost predicate Kept(before: Configs, after: Configs) {
    forall n :: n in before ==> n in after && after[n] == before[n]
  }

  // Every entry is in the list as well.
  predicate Repeats(list: seq<InterfaceConfig>, before: Configs) {
    forall n :: n in before ==> before[n] in list
  }

  predicate Keeps(before: Configs, list: seq<InterfaceConfig>, loaded: bool, outcome: Outcome) {
    before == map[] || outcome.Untouched? || (outcome.Written? && (loaded || Repeats(list, before)))
  }

  /** A save keeps every entry exactly when there was none, or the file is as it was, or it was written
      and the old list had been loaded or was repeated in the new one. */
  lemma {:induction false} KeptIff(before: Configs, list: seq<InterfaceConfig>, loaded: bool, outcome: Outcome)
    requires KeysAreNames(before) && DistinctNames(list)
    ensures Kept(before, SavedAfter(before, list, loaded, outcome)) <==> Keeps(before, list, loaded, outcome)
  {
    match outcome
    case Written =>
      if loaded {
        MergeKeeps(before, list);
      } else {
        forall n | n in before
          ensures before[n] in list <==> n in MergeInto(map[], list) && MergeInto(map[], list)[n] == before[n]
        {
          ListedIff(list, before[n]);
        }
      }
    case Untouched =>
    case Lost =>
      if n :| n in before {
        assert n !in SavedAfter(before, list, loaded, outcome);
      }
  }

  lemma {:induction false} MergeKeeps(before: Configs, list: seq<InterfaceConfig>)
    ensures Kept(before, MergeInto(before, list))
  {
    forall n | n in before ensures n in MergeInto(before, list) && MergeInto(before, list)[n] == before[n] {
      MergeMeaning(before, list, n);
    }
  }

  lemma {:induction false} ListedIff(list: seq<InterfaceConfig>, c: InterfaceConfig)
    requires DistinctNames(list)
    ensures c in list <==> c.name in MergeInto(map[], list) && MergeInto(map[], list)[c.name] == c
  {
    MergeMeaning(map[], list, c.name);
    if c in list {
      var i :| 0 <= i < |list| && list[i] == c;
      FirstEntryIsMerged(map[], list, i);
    }
  }

  lemma {:induction false} FirstEntryIsMerged(entries: Configs, list: seq<InterfaceConfig>, i: nat)
    requires i < |list| && list[i].name !in entries && forall j :: 0 <= j < i ==> list[j].name != list[i].name
    ensures list[i].name in MergeInto(entries, list) && MergeInto(entries, list)[list[i].name] == list[i]
  {
    var name := list[i].name;
    MergeMeaning(entries, list, name);
    var k :| 0 <= k < |list| && list[k] == MergeInto(entries, list)[name] && list[k].name == name
             && forall j :: 0 <= j < k ==> list[j].name != name;
    assert k == i;
  }

  // Merging into nothing comes to the same as merging into the old entries exactly when it keeps them.
  lemma {:induction false} SameMergeIff(before: Configs, list: seq<InterfaceConfig>)
    ensures MergeInto(map[], list) == MergeInto(before, list) <==> Kept(before, MergeInto(map[], list))
  {
    MergeKeeps(before, list);
    MergedNames(before, list);
    MergedNames(map[], list);
    if Kept(before, MergeInto(map[], list)) {
      forall n | n in MergeInto(before, list) ensures MergeInto(map[], list)[n] == MergeInto(before, list)[n] {
        MergeMeaning(before, list, n);
        MergeMeaning(map[], list, n);
      }
    }
  }

  lemma {:induction false} FaithfulIff(saved: Option<seq<InterfaceConfig>>, observed: seq<InterfaceConfig>,
                                       list: seq<InterfaceConfig>, loaded: bool, outcome: Outcome,
                                       saved': Option<seq<InterfaceConfig>>)
    requires Faithful(saved, observed) && DistinctNames(list)
    requires SavedEntries(saved') == SavedAfter(SavedEntries(saved), list, loaded, outcome)
    ensures Faithful(saved', if outcome.Written? then observed + list else observed) <==>
            Keeps(SavedEntries(saved), list, loaded, outcome)
    ensures Keeps(SavedEntries(saved), list, loaded, outcome) ==> Kept(SavedEntries(saved), SavedEntries(saved'))
  {
    var before := SavedEntries(saved);
    NamedByKey(if saved.Some? then saved.value else [], []);
    KeptIff(before, list, loaded, outcome);
    MergeAppend(map[], observed, list);
    SameMergeIff(before, list);
  }

  /** A save leaves a safe machine safe exactly when it keeps every entry. What was written then has an
      entry. */
  lemma {:induction false} SaveIsSafeIff(localDNS: string, saved: Option<seq<InterfaceConfig>>,
                                         adapters: map<string, Setting>, observed: seq<InterfaceConfig>,
                                         list: seq<InterfaceConfig>, loaded: bool, outcome: Outcome,
                                         saved': Option<seq<InterfaceConfig>>)
    requires Safe(localDNS, saved, adapters, observed) && Harmless(localDNS, saved, list) && DistinctNames(list)
    requires SavedEntries(saved') == SavedAfter(SavedEntries(saved), list, loaded, outcome)
    ensures Safe(localDNS, saved', adapters, if outcome.Written? then observed + list else observed) <==>
            Keeps(SavedEntries(saved), list, loaded, outcome)
    ensures Safe(localDNS, saved', adapters, if outcome.Written? then observed + list else observed) <==>
            Faithful(saved', if outcome.Written? then observed + list else observed)
    ensures outcome.Written? ==> forall i :: 0 <= i < |list| ==> list[i].name in SavedEntries(saved')
  {
    var before := SavedEntries(saved);
    FaithfulIff(saved, observed, list, loaded, outcome, saved');
    MergedNames(if loaded then before else map[], list);
    assert forall i :: 0 <= i < |list| ==> list[i] in list;
    if Keeps(before, list, loaded, outcome) {
      forall n | n in SavedEntries(saved') ensures localDNS !in SavedEntries(saved')[n].dns {
        if n !in before {
          MergeMeaning(if loaded then before else map[], list, n);
        }
      }
    }
  }

  // ------------------------------------------------------------ attempts

  /** One save and the commands after it: the entries there were, what was observed, whether the entries
      could be loaded, what became of the file, and whether an adapter observed was then pointed at the
      daemon. */
  datatype Attempt =
    Attempt(before: Configs, list: seq<InterfaceConfig>, loaded: bool, outcome: Outcome, changed: bool)
  {
    predicate Keeping() {
      Keeps(before, list, loaded, outcome)
    }

    function After(): Configs {
      SavedAfter(before, list, loaded, outcome)
    }

    // It has kept the entries, and has pointed no adapter at the daemon that has none.
    predicate Careful() {
      Keeping() && (!changed || outcome.Written? || forall i :: 0 <= i < |list| ==> list[i].name in before)
    }
  }

  lemma {:induction false} AfterAttempt(saved: Option<seq<InterfaceConfig>>, a: Attempt,
                                        saved': Option<seq<InterfaceConfig>>)
    requires a.before == SavedEntries(saved) && SavedEntries(saved') == a.After() && DistinctNames(a.list)
    ensures a.Keeping() <==> Kept(a.before, SavedEntries(saved'))
    ensures a.outcome.Written? ==> forall i :: 0 <= i < |a.list| ==> a.list[i].name in SavedEntries(saved')
  {
    NamedByKey(if saved.Some? then saved.value else [], []);
    KeptIff(a.before, a.list, a.loaded, a.outcome);
    MergedNames(if a.loaded then a.before else map[], a.list);
    assert forall i :: 0 <= i < |a.list| ==> a.list[i] in a.list;
  }

  ghost predicate AllCareful(before: seq<Attempt>, after: seq<Attempt>) {
    before <= after && forall k :: |before| <= k < |after| ==> after[k].Careful()
  }

  ghost predicate AllKeeping(before: seq<Attempt>, after: seq<Attempt>) {
    before <= after && forall k :: |before| <= k < |after| ==> after[k].Keeping()
  }

  lemma OneMoreAttempt(before: seq<Attempt>, after: seq<Attempt>, a: Attempt)
    requires before <= after
    ensures before <= after + [a]
    ensures AllCareful(before, after + [a]) <==> AllCareful(before, after) && a.Careful()
    ensures AllKeeping(before, after + [a]) <==> AllKeeping(before, after) && a.Keeping()
  {
    assert (after + [a])[|after|] == a;
    assert forall k :: 0 <= k < |after| ==> (after + [a])[k] == after[k];
  }

  lemma Consecutive(before: seq<Attempt>, middle: seq<Attempt>, after: seq<Attempt>)
    requires before <= middle <= after
    ensures AllCareful(before, after) <==> AllCareful(before, middle) && AllCareful(middle, after)
    ensures AllKeeping(before, after) <==> AllKeeping(before, middle) && AllKeeping(middle, after)
  {
    assert forall k :: 0 <= k < |middle| ==> middle[k] == after[k];
  }

  // One attempt and one command for each interface listed; some command succeeded, or none.
  ghost predicate Attempted(issued0: seq<string>, issued: seq<string>, before: seq<Attempt>, after: seq<Attempt>,
                            list: seq<InterfaceConfig>, changed: bool) {
    && issued == issued0 + NameList(list)
    && before <= after && |after| == |before| + |list|
    && (changed <==> exists k :: |before| <= k < |after| && after[k].changed)
    && forall k :: 0 <= k < |list| ==> after[|before| + k].list == [list[k]]
  }

  lemma AttemptedMore(issued0: seq<string>, issued: seq<string>, before: seq<Attempt>, after: seq<Attempt>,
                      list: seq<InterfaceConfig>, changed: bool, iface: InterfaceConfig, a: Attempt)
    requires Attempted(issued0, issued, before, after, list, changed) && a.list == [iface]
    ensures Attempted(issued0, issued + [iface.name], before, after + [a], list + [iface], changed || a.changed)
  {
    assert NameList(list + [iface]) == NameList(list) + [iface.name];
    assert (after + [a])[|after|] == a;
    assert forall k :: 0 <= k < |after| ==> (after + [a])[k] == after[k];
    if changed {
      var k :| |before| <= k < |after| && after[k].changed;
      assert (after + [a])[k].changed;
    }
  }

  /** Healing ignores a failed load and a failed save. It leaves a safe machine safe exactly when it was
      careful: all entries are kept, and the adapter, if it was pointed at the daemon, was written or had
      an entry already. */
  lemma {:induction false} HealingIsSafeIff(localDNS: string, saved: Option<seq<InterfaceConfig>>,
                                            adapters: map<string, Setting>, observed: seq<InterfaceConfig>,
                                            iface: InterfaceConfig, loaded: bool, outcome: Outcome, changed: bool,
                                            saved': Option<seq<InterfaceConfig>>)
    requires Safe(localDNS, saved, adapters, observed) && localDNS !in iface.dns
    requires SavedEntries(saved') == SavedAfter(SavedEntries(saved), [iface], loaded, outcome)
    requires changed ==> iface.name in adapters
    ensures Safe(localDNS, saved', if changed then Pointed(localDNS, adapters, iface.name) else adapters,
                 if outcome.Written? then observed + [iface] else observed) <==>
            Attempt(SavedEntries(saved), [iface], loaded, outcome, changed).Careful()
  {
    var observed' := if outcome.Written? then observed + [iface] else observed;
    SaveIsSafeIff(localDNS, saved, adapters, observed, [iface], loaded, outcome, saved');
    if changed && Keeps(SavedEntries(saved), [iface], loaded, outcome) {
      SetIsSafeIff(localDNS, saved', adapters, observed', iface.name);
      EntryOfHealed(SavedEntries(saved), iface, loaded, outcome);
    }
    var adapters' := if changed then Pointed(localDNS, adapters, iface.name) else adapters;
    assert Safe(localDNS, saved', adapters', observed') ==> Faithful(saved', observed');
    OneIsKnown(Attempt(SavedEntries(saved), [iface], loaded, outcome, changed), iface);
  }

  lemma OneIsKnown(a: Attempt, iface: InterfaceConfig)
    requires a.list == [iface]
    ensures a.Careful() <==> a.Keeping() && (!a.changed || a.outcome.Written? || iface.name in a.before)
  {
    assert a.list[0] == iface;
  }

  lemma {:induction false} EntryOfHealed(before: Configs, iface: InterfaceConfig, loaded: bool, outcome: Outcome)
    requires Keeps(before, [iface], loaded, outcome)
    ensures iface.name in SavedAfter(before, [iface], loaded, outcome) <==> outcome.Written? || iface.name in before
  {
    MergedNames(if loaded then before else map[], [iface]);
    assert NamesOf([iface]) == {iface.name};
  }

  // The daemon's own address is among what would be restored.
  ghost predicate RecordsDaemon(localDNS: string, entries: Configs) {
    exists n :: n in entries && localDNS in entries[n].dns
  }

  // An adapter is seen pointing at the daemon before it has an entry.
  ghost predicate SeenTooLate(localDNS: string, entries: Configs, list: seq<InterfaceConfig>, i: nat) {
    && i < |list| && list[i].name !in entries && localDNS in list[i].dns
    && forall j :: 0 <= j < i ==> list[j].name != list[i].name
  }

  /** A save records the daemon's own address as a setting to restore exactly when it was recorded in what
      was loaded, or an adapter without an entry there is by then seen pointing at the daemon. Once
      recorded, no machine is safe with it. */
  lemma {:induction false} RecordsDaemonIff(localDNS: string, entries: Configs, list: seq<InterfaceConfig>)
    ensures RecordsDaemon(localDNS, MergeInto(entries, list)) <==>
            RecordsDaemon(localDNS, entries) || exists i: nat :: SeenTooLate(localDNS, entries, list, i)
    ensures forall saved, adapters, observed {:trigger Safe(localDNS, saved, adapters, observed)} ::
              RecordsDaemon(localDNS, SavedEntries(saved)) ==> !Safe(localDNS, saved, adapters, observed)
  {
    var merged := MergeInto(entries, list);
    if n :| n in merged && localDNS in merged[n].dns {
      MergeMeaning(entries, list, n);
      if n !in entries {
        var i :| 0 <= i < |list| && list[i] == merged[n] && list[i].name == n
                 && forall j :: 0 <= j < i ==> list[j].name != n;
        assert SeenTooLate(localDNS, entries, list, i);
      }
    }
    if n :| n in entries && localDNS in entries[n].dns {
      MergeMeaning(entries, list, n);
    }
    if i: nat :| SeenTooLate(localDNS, entries, list, i) {
      FirstEntryIsMerged(entries, list, i);
    }
  }

  /** For one adapter with no entry, a failed save and a successful command are enough: the machine is
      not safe any more, and the next configuration saves the daemon's address as the original one. */
  lemma HealingCanEndUnsafe()
    ensures var dns := "127.0.0.1";
            var adapters := map["eth" := Setting(["9.9.9.9"], true)];
            var pointed := Pointed(dns, adapters, "eth");
            && Safe(dns, None, adapters, [])
            && !Safe(dns, None, pointed, [])
            && RecordsDaemon(dns, MergeInto(SavedEntries(None), [InterfaceConfig("eth", pointed["eth"].dns, true)]))
  {
    var dns, adapters := "127.0.0.1", map["eth" := Setting(["9.9.9.9"], true)];
    var seen := InterfaceConfig("eth", [dns], true);
    HealingIsSafeIff(dns, None, adapters, [], InterfaceConfig("eth", ["9.9.9.9"], true), true, Untouched, true, None);
    assert SeenTooLate(dns, map[], [seen], 0);
    RecordsDaemonIff(dns, map[], [seen]);
  }

  /** A load that fails is enough as well, with everything else going well: one adapter that points at the
      daemon has an entry, another one is healed, and the first has none any more. Were the first seen
      in that save, its entry would now be the daemon's own address. */
  lemma FailedLoadForgets(localDNS: string, entry: InterfaceConfig, other: InterfaceConfig)
    requires entry.name != other.name && localDNS !in entry.dns && localDNS !in other.dns
    ensures var before := map[entry.name := entry];
            && !Attempt(before, [other], false, Written, true).Careful()
            && entry.name !in SavedAfter(before, [other], false, Written)
            && RecordsDaemon(localDNS, SavedAfter(before, [entry.(dns := [localDNS])], false, Written))
  {
    var seen := entry.(dns := [localDNS]);
    MergedNames(map[], [other]);
    assert SeenTooLate(localDNS, map[], [seen], 0);
    RecordsDaemonIff(localDNS, map[], [seen]);
    var before := map[entry.name := entry];
    assert before[entry.name] == entry && entry !in [other];
  }

  class Machine {
    const localDNS: string
    var adapters: map<string, Setting> // all adapters known to the system, connected or not
    var up: set<string>
    var saved: Option<seq<InterfaceConfig>>
    ghost var observed: seq<InterfaceConfig> // the settings observed and saved, oldest first
    ghost var issued: seq<string>            // the adapters commands were issued for, oldest first
    ghost var attempts: seq<Attempt>         // the saves and what came after them, oldest first
    ghost var moments: seq<bool>             // whether the machine was safe after each command and whenever
                                             // others came in, oldest first

    ghost predicate IsSafe()
      reads this
    {
      Safe(localDNS, saved, adapters, observed)
    }

    /** The daemon starts with no adapter pointing at it, and possibly with entries saved earlier. */
    constructor (localDNS: string, adapters: map<string, Setting>, up: set<string>, saved: seq<InterfaceConfig>)
      requires forall n :: n in adapters ==> localDNS !in adapters[n].dns
      requires DistinctNames(saved) && forall i :: 0 <= i < |saved| ==> localDNS !in saved[i].dns
      ensures IsSafe() && this.localDNS == localDNS
    {
      this.localDNS, this.adapters, this.up := localDNS, adapters, up;
      this.saved := if saved == [] then None else Some(saved);
      observed, issued, attempts, moments := saved, [], [], [];
      new;
      DistinctMerge(saved);
      assert AsMap([]) == map[];
      forall n | n in AsMap(saved) ensures localDNS !in AsMap(saved)[n].dns {
        MergeMeaning(map[], saved, n);
      }
    }

    /** Whatever others do meanwhile: adapters come up, go down, appear, disappear or change; but
        nobody else points one at the daemon. */
    method Outside()
      modifies this`adapters, this`up, this`moments
      ensures old(IsSafe()) ==> IsSafe()
      ensures moments == old(moments) + [old(IsSafe())]
    {
      moments := moments + [IsSafe()];
      var others: map<string, Setting> :|
        forall n :: n in others && localDNS in others[n].dns ==> n in adapters && others[n] == adapters[n];
      adapters := others;
      up := *;
    }

    method GetActiveInterfaces() returns (interfaces: Option<seq<InterfaceConfig>>)
      ensures interfaces.Some? ==> ListsActive(interfaces.value)
    {
      var failed: bool := *;
      if failed {
        return None;
      }
      var result: seq<InterfaceConfig> := [];
      var names := up * adapters.Keys;
      while names != {}
        invariant names <= up * adapters.Keys
        invariant DistinctNames(result) && Lists(result, up * adapters.Keys - names)
        invariant forall i :: 0 <= i < |result| ==> IsCurrent(result[i])
      {
        var name :| name in names;
        ghost var before := result;
        var c := InterfaceConfig(name, adapters[name].dns, adapters[name].dhcp);
        assert forall i :: 0 <= i < |result| ==> result[i] in result;
        DistinctAppend(result, c);
        result := result + [c];
        assert NamesOf(result) == NamesOf(before) + {name};
        names := names - {name};
      }
      return Some(result);
    }

    ghost predicate IsCurrent(c: InterfaceConfig)
      reads this
    {
      c.name in up && c.name in adapters && c == InterfaceConfig(c.name, adapters[c.name].dns, adapters[c.name].dhcp)
    }

    // A file that cannot be read or understood loads as none, and so may any other for once.
    method LoadOriginalConfig() returns (config: Option<seq<InterfaceConfig>>, loaded: bool)
      ensures config == if loaded then saved else None
    {
      var failed: bool := *;
      config, loaded := if failed then None else saved, !failed;
    }

    // An error may be reported whatever has become of the file; none is only when all was written.
    method SaveOriginalConfig(config: seq<InterfaceConfig>) returns (ok: bool, ghost outcome: Outcome)
      modifies this`saved
      ensures ok ==> outcome == Written
      ensures saved == match outcome { case Written => Some(config) case Untouched => old(saved) case Lost => None }
    {
      var result: Outcome := *;
      ok := *;
      match result {
        case Written => saved := Some(config);
        case Untouched => ok := false;
        case Lost =>
          saved := None;
          ok := false;
      }
      outcome := result;
    }

    // Saves what could be loaded merged with what was observed.
    method SaveObserved(current: seq<InterfaceConfig>) returns (ok: bool, ghost a: Attempt)
      requires DistinctNames(current)
      modifies this`saved, this`observed
      ensures ok ==> a.outcome == Written
      ensures a == Attempt(SavedEntries(old(saved)), current, a.loaded, a.outcome, false)
      ensures SavedEntries(saved) == a.After()
      ensures a.Keeping() ==> Kept(a.before, SavedEntries(saved))
      ensures a.outcome.Written? ==> forall i :: 0 <= i < |current| ==> current[i].name in SavedEntries(saved)
      ensures old(IsSafe()) && Harmless(localDNS, old(saved), current) ==>
                (IsSafe() <==> a.Keeping()) && (Faithful(saved, observed) <==> a.Keeping())
    {
      var existing, loaded := LoadOriginalConfig();
      var merged := MergeInterfaceConfigs(existing, current);
      ghost var outcome: Outcome;
      ok, outcome := SaveOriginalConfig(merged);
      a := Attempt(SavedEntries(old(saved)), current, loaded, outcome, false);
      if outcome.Written? {
        observed := observed + current;
      }
      AfterAttempt(old(saved), a, saved);
      if old(IsSafe()) && Harmless(localDNS, old(saved), current) {
        SaveIsSafeIff(localDNS, old(saved), adapters, old(observed), current, loaded, outcome, saved);
      }
    }

    // Since then every attempt has kept the entries and pointed no adapter at the daemon that has none.
    ghost predicate CarefulSince(before: seq<Attempt>)
      reads this
    {
      AllCareful(before, attempts)
    }

    ghost predicate KeepingSince(before: seq<Attempt>)
      reads this
    {
      AllKeeping(before, attempts)
    }

    /** Safe, at all moments in between as well, if it was and all attempts since have been careful; and
        nothing lost, if all have kept the entries. */
    ghost predicate Sound(safe: bool, entries: Configs, before: seq<Attempt>, moments0: seq<bool>)
      reads this
    {
      && before <= attempts && moments0 <= moments
      && (safe && CarefulSince(before) ==> IsSafe() && SafeSince(moments0))
      && (KeepingSince(before) ==> Kept(entries, SavedEntries(saved)))
    }

    method SetInterfaceDNS(name: string) returns (ok: bool)
      modifies this`adapters, this`issued, this`moments
      ensures moments == old(moments) + [IsSafe()]
      ensures issued == old(issued) + [name]
      ensures ok ==> name in old(adapters) && adapters == Pointed(localDNS, old(adapters), name)
      ensures ok ==> adapters[name] == Setting([localDNS], old(adapters)[name].dhcp)
      ensures !ok ==> adapters == old(adapters)
    {
      ok := *;
      if name !in adapters {
        ok := false;
      }
      if ok {
        adapters := Pointed(localDNS, adapters, name);
      }
      issued := issued + [name];
      moments := moments + [IsSafe()];
    }

    // It has been safe at every one of these moments since then.
    ghost predicate SafeSince(before: seq<bool>)
      reads this
    {
      before <= moments && forall k :: |before| <= k < |moments| ==> moments[k]
    }

    // All adapters that are up, each once, with the settings they have.
    ghost predicate ListsActive(list: seq<InterfaceConfig>)
      reads this
    {
      DistinctNames(list) && Lists(list, up * adapters.Keys) && forall i :: 0 <= i < |list| ==> IsCurrent(list[i])
    }

    /** A safe machine is safe afterwards exactly when the save, if one was attempted, kept every entry;
        it is then safe at every point in between where others can come in, too. A call that succeeds
        has written and then pointed at the daemon all adapters that were up; one that fails has pointed
        none there. */
    method SetDNS() returns (ok: bool, ghost found: seq<InterfaceConfig>)
      modifies this
      ensures old(attempts) <= attempts && old(moments) <= moments
      ensures old(IsSafe()) ==> (IsSafe() <==> CarefulSince(old(attempts)))
      ensures old(IsSafe()) && CarefulSince(old(attempts)) ==> SafeSince(old(moments))
      ensures KeepingSince(old(attempts)) ==> Kept(SavedEntries(old(saved)), SavedEntries(saved))
      ensures ok ==> old(ListsActive(found)) && found != [] && issued == old(issued) + NameList(found)
      ensures ok ==> forall i :: 0 <= i < |found| ==> found[i].name in SavedEntries(saved)
      ensures !ok ==> issued == old(issued)
      ensures if attempts == old(attempts) then saved == old(saved) && !ok
              else exists a :: attempts == old(attempts) + [a] && a.list == found && a.changed == ok
                               && a.before == SavedEntries(old(saved)) && SavedEntries(saved) == a.After()
    {
      found := [];
      var interfaces := GetActiveInterfaces();
      if interfaces.None? {
        return false, found;
      }
      var current := interfaces.value;
      found := current;
      ghost var safe := IsSafe();
      assert safe ==> Harmless(localDNS, saved, current);
      Outside();
      if |current| == 0 {
        return false, found;
      }
      ghost var a: Attempt;
      ok, a := SaveAndPointAll(current);
      OneMoreAttempt(old(attempts), old(attempts), a);
      assert old(attempts) + [a] == attempts;
    }

    // The save of SetDNS and what comes after it.
    method SaveAndPointAll(current: seq<InterfaceConfig>) returns (ok: bool, ghost a: Attempt)
      requires DistinctNames(current)
      modifies this
      ensures attempts == old(attempts) + [a]
      ensures a.before == SavedEntries(old(saved)) && a.list == current && a.changed == ok
      ensures SavedEntries(saved) == a.After()
      ensures old(IsSafe()) && Harmless(localDNS, old(saved), current) ==>
                (IsSafe() <==> a.Careful()) && (a.Careful() ==> SafeSince(old(moments)))
      ensures old(moments) <= moments
      ensures a.Keeping() ==> Kept(a.before, SavedEntries(saved))
      ensures issued == old(issued) + if ok then NameList(current) else []
      ensures ok ==> forall i :: 0 <= i < |current| ==> current[i].name in SavedEntries(saved)
    {
      ghost var save: Attempt;
      ok, save := SaveObserved(current);
      a := save.(changed := ok);
      attempts := attempts + [a];
      if ok {
        PointAll(current);
        Outside();
      }
    }

    // Points the listed adapters at the daemon, as far as that works.
    method PointAll(current: seq<InterfaceConfig>)
      modifies this`adapters, this`up, this`issued, this`moments
      ensures old(moments) <= moments
      ensures old(IsSafe()) && (forall i :: 0 <= i < |current| ==> current[i].name in SavedEntries(saved)) ==>
                IsSafe() && SafeSince(old(moments))
      ensures issued == old(issued) + NameList(current)
    {
      ghost var safe := IsSafe() && forall i :: 0 <= i < |current| ==> current[i].name in SavedEntries(saved);
      for i := 0 to |current|
        invariant old(moments) <= moments
        invariant safe ==> IsSafe() && SafeSince(old(moments))
        invariant issued == old(issued) + NameList(current)[..i]
      {
        PointOne(current[i].name);
        assert NameList(current)[..i + 1] == NameList(current)[..i] + [current[i].name];
      }
      assert NameList(current)[..|current|] == NameList(current);
    }

    // One of them, others coming in first.
    method PointOne(name: string)
      modifies this`adapters, this`up, this`issued, this`moments
      ensures old(moments) <= moments
      ensures old(IsSafe()) && name in SavedEntries(saved) ==> IsSafe() && SafeSince(old(moments))
      ensures issued == old(issued) + [name]
    {
      ghost var safe := IsSafe() && name in SavedEntries(saved);
      Outside();
      ghost var before := adapters;
      var changed := SetInterfaceDNS(name);
      if safe && changed {
        SetIsSafeIff(localDNS, saved, before, observed, name);
      }
    }

    /** Makes one attempt to save each interface that does not use the daemon before pointing it
        there. A safe machine stays safe, in between as well, if every attempt is careful, and every
        entry stays if every attempt keeps them. */
    method EnsureDNS() returns (changed: bool, failed: bool, ghost found: seq<InterfaceConfig>)
      modifies this
      ensures Sound(old(IsSafe()), SavedEntries(old(saved)), old(attempts), old(moments))
      ensures failed ==> found == []
      ensures !failed ==> old(ListsActive(found))
      ensures Attempted(old(issued), issued, old(attempts), attempts, NotUsing(localDNS, found), changed)
    {
      changed, failed, found := false, true, [];
      var interfaces := GetActiveInterfaces();
      if interfaces.None? {
        return;
      }
      failed := false;
      var current := interfaces.value;
      found := current;
      ghost var safe, entries := IsSafe(), SavedEntries(saved);
      for i := 0 to |current|
        invariant Sound(safe, entries, old(attempts), old(moments))
        invariant Attempted(old(issued), issued, old(attempts), attempts, NotUsing(localDNS, current[..i]), changed)
      {
        NotUsingMore(localDNS, current[..i], current[i]);
        assert current[..i + 1] == current[..i] + [current[i]];
        changed := HealIfNeeded(current[i], changed, safe, entries, old(issued), old(attempts), old(moments),
                                NotUsing(localDNS, current[..i]));
      }
      assert current[..|current|] == current;
    }

    // What the loop does with one interface.
    method HealIfNeeded(iface: InterfaceConfig, changed0: bool, ghost safe: bool, ghost entries: Configs,
                        ghost issued0: seq<string>, ghost before: seq<Attempt>, ghost moments0: seq<bool>,
                        ghost list: seq<InterfaceConfig>)
      returns (changed: bool)
      requires Sound(safe, entries, before, moments0) && Attempted(issued0, issued, before, attempts, list, changed0)
      modifies this
      ensures Sound(safe, entries, before, moments0)
      ensures Attempted(issued0, issued, before, attempts, list + if localDNS in iface.dns then [] else [iface],
                        changed)
    {
      Outside();
      changed := changed0;
      var needsConfig := localDNS !in iface.dns;
      if needsConfig {
        var changedNow, a := TakeOver(iface, safe, entries, before, moments0);
        AttemptedMore(issued0, old(issued), before, old(attempts), list, changed0, iface, a);
        changed := changed || changedNow;
      } else {
        assert list + [] == list;
      }
    }

    /** One attempt at healing, with others at work between its save and its command. A safe machine is
        safe afterwards exactly when the attempt was careful. */
    method SaveAndPoint(iface: InterfaceConfig) returns (changed: bool, ghost a: Attempt)
      requires localDNS !in iface.dns
      modifies this
      ensures attempts == old(attempts) + [a]
      ensures a.before == SavedEntries(old(saved)) && a.list == [iface] && a.changed == changed
      ensures SavedEntries(saved) == a.After()
      ensures old(IsSafe()) ==> (IsSafe() <==> a.Careful()) && (a.Careful() ==> SafeSince(old(moments)))
      ensures old(moments) <= moments
      ensures a.Keeping() ==> Kept(a.before, SavedEntries(saved))
      ensures issued == old(issued) + [iface.name]
    {
      ghost var save: Attempt;
      var ok;
      ok, save := SaveObserved([iface]);
      ghost var safe := IsSafe();
      Outside();
      ghost var adapters1 := adapters;
      changed := SetInterfaceDNS(iface.name);
      a := save.(changed := changed);
      OneIsKnown(a, iface);
      if a.Keeping() {
        EntryOfHealed(a.before, iface, a.loaded, a.outcome);
        if safe && changed {
          SetIsSafeIff(localDNS, saved, adapters1, observed, iface.name);
        }
      }
      attempts := attempts + [a];
    }

    method TakeOver(iface: InterfaceConfig, ghost safe: bool, ghost entries: Configs, ghost before: seq<Attempt>,
                    ghost moments0: seq<bool>)
      returns (changed: bool, ghost a: Attempt)
      requires localDNS !in iface.dns && Sound(safe, entries, before, moments0)
      modifies this
      ensures Sound(safe, entries, before, moments0)
      ensures attempts == old(attempts) + [a] && a.changed == changed && a.list == [iface]
      ensures issued == old(issued) + [iface.name]
    {
      changed, a := SaveAndPoint(iface);
      Outside();
      OneMoreAttempt(before, old(attempts), a);
    }

    // One call of either, others coming in first.
    method AnyCall(ghost safe: bool, ghost entries: Configs, ghost before: seq<Attempt>, ghost moments0: seq<bool>)
      requires Sound(safe, entries, before, moments0)
      modifies this
      ensures Sound(safe, entries, before, moments0)
    {
      Outside();
      ghost var attempts1 := attempts;
      var healing: bool := *;
      if healing {
        var changed, failed, found := EnsureDNS();
      } else {
        var ok, found := SetDNS();
      }
      Consecutive(before, attempts1, attempts);
    }

    /** First observation wins, over any run: however often the daemon configures and heals, with
        others at work all the time, a safe machine stays safe as long as every attempt is careful, and
        what was saved once stays as long as every attempt keeps it. */
    method AnyRun(steps: nat)
      modifies this
      ensures Sound(old(IsSafe()), SavedEntries(old(saved)), old(attempts), old(moments))
    {
      ghost var safe, entries := IsSafe(), SavedEntries(saved);
      for k := 0 to steps
        invariant Sound(safe, entries, old(attempts), old(moments))
      {
        AnyCall(safe, entries, old(attempts), old(moments));
      }
    }
  }
}
