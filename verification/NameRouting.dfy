/** Which name is resolved for a query: the capture handler, the DNS server and the HTTPS proxy each
    compute it in a way of their own. */
module NameRouting {
  import opened Text
  import opened Detector

  // The first position but 0 at which the label occurs; 0 if there is none.
  function PositionAfterFirst(parts: seq<string>, tld: string, from: nat): (i: nat)
    requires from <= |parts|
    ensures i != 0 ==> from <= i < |parts| && parts[i] == tld
    ensures forall j :: from <= j < |parts| && parts[j] == tld && j > 0 ==> 0 < i <= j
    decreases |parts| - from
  {
    if from == |parts| then 0
    else if parts[from] == tld && from > 0 then from
    else PositionAfterFirst(parts, tld, from + 1)
  }

  function Position(parts: seq<string>, tld: string): nat {
    PositionAfterFirst(parts, tld, 0)
  }

  // The name both capture handlers resolve.
  function CaptureName(words: Dictionary, name: string): string {
    var tld := TLDOf(words, name);
    var parts := Split(ToLower(name));
    var i := Position(parts, tld);
    if name != tld && i > 0 then parts[i - 1] + "." + tld else name
  }

  // The name the HTTPS proxy files a connection under, and resolves if it is not cached.
  function ProxyName(words: Dictionary, serverName: string): string {
    ParentName(serverName, Split(ToLower(serverName)), TLDOf(words, serverName))
  }

  function ParentName(serverName: string, parts: seq<string>, tld: string): string {
    var i := Position(parts, tld);
    if i >= 2 then parts[i - 1] + "." + tld else serverName
  }

  // The label the proxy looks up among the subdomain addresses of that name.
  function ProxySubdomain(words: Dictionary, serverName: string): string {
    SubdomainOf(Split(ToLower(serverName)), TLDOf(words, serverName))
  }

  function SubdomainOf(parts: seq<string>, tld: string): string {
    if Position(parts, tld) >= 2 then parts[0] else ""
  }

  // The label before the first place where the text of the TLD occurs, if that comes after a dot.
  function PrefixFound(name: string, tld: string): string {
    var p := Index(name, tld);
    if p > 0 && name[p - 1] == '.' then Last(Split(name[..p - 1])) else ""
  }

  // The name the DNS server resolves: the TLD with that label, unless it is a DNN name itself.
  function ServerName(words: Dictionary, dnnName: string): string {
    ServerNameFrom(words, PrefixFound(Canonical(dnnName), TLDOf(words, dnnName)), TLDOf(words, dnnName))
  }

  function ServerNameFrom(words: Dictionary, prefix: string, tld: string): string {
    if !IsDNNName(words, prefix) && prefix != "" then prefix + "." + tld else tld
  }

  method CaptureNameToResolve(words: Dictionary, name: string) returns (nameToResolve: string)
    ensures nameToResolve == CaptureName(words, name)
  {
    var dnnTLD := GetTLD(words, name);
    if name == dnnTLD {
      nameToResolve := dnnTLD;
    } else {
      nameToResolve := WithPrefix(name, Split(ToLower(name)), dnnTLD);
    }
  }

  // The label before the TLD and the TLD; the whole name if the TLD has none.
  method WithPrefix(name: string, parts: seq<string>, dnnTLD: string) returns (nameToResolve: string)
    ensures var i := Position(parts, dnnTLD);
            nameToResolve == if i > 0 then parts[i - 1] + "." + dnnTLD else name
  {
    nameToResolve := name;
    for i := 0 to |parts|
      invariant Position(parts, dnnTLD) == PositionAfterFirst(parts, dnnTLD, i)
      invariant nameToResolve == name
    {
      if parts[i] == dnnTLD && i > 0 {
        nameToResolve := parts[i - 1] + "." + dnnTLD;
        break;
      }
    }
  }

  method ProxyNames(words: Dictionary, serverName: string) returns (subdomain: string, parentName: string)
    ensures parentName == ProxyName(words, serverName)
    ensures subdomain == ProxySubdomain(words, serverName)
  {
    var dnnTLD := GetTLD(words, serverName);
    subdomain, parentName := ParentAndSubdomain(serverName, Split(ToLower(serverName)), dnnTLD);
  }

  method ParentAndSubdomain(serverName: string, parts: seq<string>, dnnTLD: string)
    returns (subdomain: string, parentName: string)
    ensures parentName == ParentName(serverName, parts, dnnTLD) && subdomain == SubdomainOf(parts, dnnTLD)
  {
    subdomain, parentName := SplitAtTLD(serverName, parts, dnnTLD);
    if |parentName| == 0 {
      parentName := serverName;
    }
  }

  // The scan for the TLD; no parent name if it is not found after the first label.
  method SplitAtTLD(serverName: string, parts: seq<string>, dnnTLD: string)
    returns (subdomain: string, parentName: string)
    ensures subdomain == SubdomainOf(parts, dnnTLD)
    ensures Position(parts, dnnTLD) > 0 ==> parentName == ParentName(serverName, parts, dnnTLD)
    ensures Position(parts, dnnTLD) >= 2 ==> |parentName| > 0
    ensures Position(parts, dnnTLD) == 0 ==> |parentName| == 0
  {
    subdomain, parentName := "", "";
    for i := 0 to |parts|
      invariant Position(parts, dnnTLD) == PositionAfterFirst(parts, dnnTLD, i)
      invariant subdomain == "" && parentName == ""
    {
      if parts[i] == dnnTLD && i > 0 {
        if i >= 2 {
          subdomain := parts[0];
          parentName := parts[i - 1] + "." + dnnTLD;
        } else {
          parentName := serverName;
        }
        break;
      }
    }
  }

  // ------------------------------------------------------------ where the TLD text occurs

  /** The text before a dot is cut into the labels before it: a prefix of all labels. */
  lemma {:induction false} LabelsBefore(s: string, p: nat)
    requires 0 < p <= |s| && s[p - 1] == '.'
    ensures Split(s) == Split(s[..p - 1]) + Split(s[p..])
  {
    assert s == s[..p - 1] + "." + s[p..];
    SplitAtDot(s[..p - 1], s[p..]);
  }

  // Where the i-th label begins.
  function LabelStart(parts: seq<string>, i: nat): nat
    requires i < |parts|
  {
    if i == 0 then 0 else |Join(parts[..i])| + 1
  }

  lemma {:induction false} FrontOfJoin(parts: seq<string>)
    requires parts != []
    ensures parts[0] <= Join(parts)
  {
  }

  lemma {:induction false} JoinCut(parts: seq<string>, i: nat)
    requires 0 < i < |parts|
    ensures Join(parts) == Join(parts[..i]) + "." + Join(parts[i..])
  {
    assert parts == parts[..i] + parts[i..];
    JoinOfConcat(parts[..i], parts[i..]);
  }

  lemma {:induction false} LabelOccurs(s: string, i: nat)
    requires i < |Split(s)|
    ensures var parts := Split(s);
            var p := LabelStart(parts, i);
            && OccursAt(s, parts[i], p)
            && (i > 0 ==> s[p - 1] == '.' && Split(s[..p - 1]) == parts[..i])
  {
    var parts := Split(s);
    SplitLabels(s);
    if i > 0 {
      LabelOccursAfter(s, parts, i);
    } else {
      FrontOfJoin(parts);
    }
  }

  lemma {:induction false} LabelOccursAfter(s: string, parts: seq<string>, i: nat)
    requires 0 < i < |parts| && s == Join(parts) && forall k :: 0 <= k < |parts| ==> '.' !in parts[k]
    ensures var p := LabelStart(parts, i);
            OccursAt(s, parts[i], p) && s[p - 1] == '.' && Split(s[..p - 1]) == parts[..i]
  {
    JoinCut(parts, i);
    FrontOfJoin(parts[i..]);
    SplitOfJoin(parts[..i]);
    OccursAfter(Join(parts[..i]), Join(parts[i..]), parts[i]);
  }

  lemma OccursAfter(a: string, b: string, t: string)
    requires t <= b
    ensures var s := a + "." + b;
            OccursAt(s, t, |a| + 1) && s[|a|] == '.' && s[..|a|] == a
  {
    assert (a + "." + b)[|a| + 1..] == b;
    assert (a + "." + b)[|a| + 1..|a| + 1 + |t|] == b[..|t|];
  }

  /** A dot at or before the start of the i-th label is preceded by one of the first i labels. */
  lemma LabelBeforeDot(s: string, i: nat, p: nat) returns (j: nat)
    requires i < |Split(s)|
    requires 0 < p <= LabelStart(Split(s), i) && p <= |s| && s[p - 1] == '.'
    ensures j < i && Last(Split(s[..p - 1])) == Split(s)[j]
  {
    var parts := Split(s);
    var q := LabelStart(parts, i);
    LabelOccurs(s, i);
    if p == q {
      j := i - 1;
    } else {
      CutPrefix(s, p, q - 1);
      j := |Split(s[..p - 1])| - 1;
      FrontElement(parts[..i], Split(s[..p - 1]), Split(s[p..q - 1]));
    }
  }

  // Cutting a prefix of the text at one of its dots.
  lemma CutPrefix(s: string, p: nat, n: nat)
    requires 0 < p <= n <= |s| && s[p - 1] == '.'
    ensures Split(s[..n]) == Split(s[..p - 1]) + Split(s[p..n])
  {
    LabelsBefore(s[..n], p);
    assert s[..n][..p - 1] == s[..p - 1] && s[..n][p..] == s[p..n];
  }

  lemma FrontElement(parts: seq<string>, front: seq<string>, back: seq<string>)
    requires parts == front + back && front != [] && back != []
    ensures |front| - 1 < |parts| && Last(front) == parts[|front| - 1]
  {
  }

  // ------------------------------------------------------------ the guard of the DNS server

  /** The server skips a prefix label that is a DNN name itself. It never meets one: the TLD is the
      leftmost such label. */
  lemma GuardNeverRejects(words: Dictionary, dnnName: string)
    requires IsDNNName(words, dnnName)
    ensures !IsDNNName(words, PrefixFound(Canonical(dnnName), TLDOf(words, dnnName)))
  {
    var name := Canonical(dnnName);
    TLDIsLeftmostLabel(words, dnnName);
    var i := FirstDNN(words, Split(name));
    var tld := Split(name)[i];
    LabelOccurs(name, i);
    var p := Index(name, tld);
    if p > 0 && name[p - 1] == '.' {
      var j := LabelBeforeDot(name, i, p);
      EarlierLabelIsNoName(words, dnnName, j);
    }
  }

  lemma EarlierLabelIsNoName(words: Dictionary, dnnName: string, j: nat)
    requires j < FirstDNN(words, Split(Canonical(dnnName)))
    ensures !IsDNNName(words, Split(Canonical(dnnName))[j])
  {
    CanonicalParts(dnnName, j);
    NameOfOneLabel(words, Split(Canonical(dnnName))[j]);
  }

  // ------------------------------------------------------------ agreement

  lemma TLDPosition(words: Dictionary, name: string)
    requires IsDNNName(words, name) && !EndsWith(name, '.')
    ensures var parts := Split(ToLower(name));
            var i := FirstDNN(words, parts);
            && Canonical(name) == ToLower(name)
            && i < |parts| && TLDOf(words, name) == parts[i]
            && (i > 0 ==> Position(parts, parts[i]) == i)
  {
    TLDIsLeftmostLabel(words, name);
    var parts := Split(ToLower(name));
    var i := FirstDNN(words, parts);
    var k := Position(parts, parts[i]);
    if i > 0 {
      assert k != 0 && k <= i;
      assert IsSinglePartDNN(words, parts[k]);
    }
  }

  lemma ServerNameIs(words: Dictionary, name: string)
    requires IsDNNName(words, name)
    ensures var tld := TLDOf(words, name);
            var prefix := PrefixFound(Canonical(name), tld);
            ServerName(words, name) == if prefix != "" then prefix + "." + tld else tld
  {
    GuardNeverRejects(words, name);
  }

  predicate Agree(words: Dictionary, name: string) {
    CaptureName(words, name) == ServerName(words, name) == ProxyName(words, name)
  }

  // The i-th label has a non-empty label before it, which is also what the DNS server finds, and there
  // are either two labels before it or the name is just those two labels in lower case.
  predicate Prefixed(name: string, parts: seq<string>, i: nat, prefix: string)
    requires 0 < i < |parts|
  {
    parts[i - 1] != "" && prefix == parts[i - 1] && (i >= 2 || (|parts| == 2 && name == ToLower(name)))
  }

  /** A single lower-case label; or a name whose TLD has a non-empty label before it, where the first
      place at which the text of the TLD occurs comes after that same label too, and there are either
      two labels before the TLD or the name is just those two labels in lower case. */
  predicate Agreeable(words: Dictionary, name: string) {
    var parts := Split(ToLower(name));
    var i := FirstDNN(words, parts);
    || (|parts| == 1 && name == ToLower(name))
    || (0 < i < |parts| && Prefixed(name, parts, i, PrefixFound(ToLower(name), parts[i])))
  }

  /** These are exactly the DNN names on which the three routines agree. */
  lemma RoutinesAgreeIff(words: Dictionary, name: string)
    requires IsDNNName(words, name) && !EndsWith(name, '.')
    ensures Agree(words, name) <==> Agreeable(words, name)
  {
    var i := FirstDNN(words, Split(ToLower(name)));
    if i == 0 {
      FirstAgreesIff(words, name);
    } else {
      PrefixedAgreeIff(words, name, i);
    }
  }

  lemma FirstAgreesIff(words: Dictionary, name: string)
    requires IsDNNName(words, name) && !EndsWith(name, '.')
    requires FirstDNN(words, Split(ToLower(name))) == 0
    ensures Agree(words, name) <==> Agreeable(words, name)
  {
    FirstLabelIsTLD(words, name);
  }

  lemma PrefixedAgreeIff(words: Dictionary, name: string, i: nat)
    requires IsDNNName(words, name) && !EndsWith(name, '.')
    requires i == FirstDNN(words, Split(ToLower(name))) && i > 0
    ensures Agree(words, name) <==> Agreeable(words, name)
  {
    TLDPosition(words, name);
    PrefixedIffAgree(words, name, Split(ToLower(name)), i);
  }

  lemma PrefixedIffAgree(words: Dictionary, name: string, parts: seq<string>, i: nat)
    requires IsDNNName(words, name) && !EndsWith(name, '.')
    requires parts == Split(ToLower(name)) && i == FirstDNN(words, parts) && 0 < i < |parts|
    ensures Agree(words, name) <==> Prefixed(name, parts, i, PrefixFound(ToLower(name), parts[i]))
  {
    PrefixedRoutines(words, name, i);
    AllEqualIff(name, parts, i, PrefixFound(ToLower(name), parts[i]), CaptureName(words, name), ServerName(words, name),
                ProxyName(words, name));
  }

  lemma AllEqualIff(name: string, parts: seq<string>, i: nat, prefix: string, capture: string, server: string,
                    proxy: string)
    requires parts == Split(ToLower(name)) && 0 < i < |parts|
    requires capture == parts[i - 1] + "." + parts[i]
    requires server == if prefix != "" then prefix + "." + parts[i] else parts[i]
    requires proxy == if i >= 2 then capture else name
    ensures capture == server == proxy <==> Prefixed(name, parts, i, prefix)
  {
    PrefixedIff(prefix, parts[i - 1], parts[i]);
    if i == 1 {
      TwoLabels(name, parts);
    }
  }

  lemma PrefixedRoutines(words: Dictionary, name: string, i: nat)
    requires IsDNNName(words, name) && !EndsWith(name, '.')
    requires i == FirstDNN(words, Split(ToLower(name))) && i > 0
    ensures var parts := Split(ToLower(name));
            var prefix := PrefixFound(ToLower(name), parts[i]);
            && i < |parts|
            && CaptureName(words, name) == parts[i - 1] + "." + parts[i]
            && ServerName(words, name) == (if prefix != "" then prefix + "." + parts[i] else parts[i])
            && ProxyName(words, name) == (if i >= 2 then parts[i - 1] + "." + parts[i] else name)
  {
    TLDPosition(words, name);
    CaptureOfPrefixed(words, name, i);
    ServerNameIs(words, name);
  }

  lemma PrefixedIff(prefix: string, before: string, tld: string)
    ensures before + "." + tld == (if prefix != "" then prefix + "." + tld else tld) <==>
            before != "" && prefix == before
  {
    if prefix != "" && prefix + "." + tld == before + "." + tld {
      assert prefix == (prefix + "." + tld)[..|prefix|];
      assert before == (before + "." + tld)[..|before|];
    }
    if prefix == "" {
      assert |before + "." + tld| > |tld|;
    }
  }

  lemma CaptureOfPrefixed(words: Dictionary, name: string, i: nat)
    requires IsDNNName(words, name) && !EndsWith(name, '.')
    requires i == FirstDNN(words, Split(ToLower(name))) && i > 0
    ensures var parts := Split(ToLower(name));
            CaptureName(words, name) == parts[i - 1] + "." + parts[i]
  {
    var parts := Split(ToLower(name));
    TLDPosition(words, name);
    LabelOccurs(ToLower(name), i);
    assert |ToLower(name)| > |parts[i]|;
  }

  lemma TwoLabels(name: string, parts: seq<string>)
    requires parts == Split(ToLower(name)) && |parts| >= 2
    ensures name == parts[0] + "." + parts[1] <==> |parts| == 2 && name == ToLower(name)
  {
    SplitLabels(ToLower(name));
    if |parts| == 2 {
      assert parts[1..] == [parts[1]];
    } else {
      assert parts == [parts[0], parts[1]] + parts[2..];
      JoinOfConcat([parts[0], parts[1]], parts[2..]);
      assert [parts[0], parts[1]][1..] == [parts[1]];
    }
  }

  // When the TLD comes first, everything agrees only if nothing follows it.
  lemma FirstLabelIsTLD(words: Dictionary, name: string)
    requires IsDNNName(words, name) && !EndsWith(name, '.')
    requires FirstDNN(words, Split(ToLower(name))) == 0
    ensures var parts := Split(ToLower(name));
            Agree(words, name) <==> |parts| == 1 && name == ToLower(name)
  {
    var lower := ToLower(name);
    ServerOfFirst(words, name);
    TLDPosition(words, name);
    CaptureOfFirst(words, name, Split(lower)[0]);
    if |Split(lower)| == 1 {
      SplitLabels(lower);
    }
  }

  lemma ServerOfFirst(words: Dictionary, name: string)
    requires IsDNNName(words, name) && !EndsWith(name, '.')
    requires FirstDNN(words, Split(ToLower(name))) == 0
    ensures ServerName(words, name) == Split(ToLower(name))[0]
  {
    TLDPosition(words, name);
    ServerNameIs(words, name);
    LabelOccurs(ToLower(name), 0);
  }

  lemma CaptureOfFirst(words: Dictionary, name: string, tld: string)
    requires tld == TLDOf(words, name) == Split(ToLower(name))[0]
    ensures var parts := Split(ToLower(name));
            if |parts| == 1 then CaptureName(words, name) == ProxyName(words, name) == name
            else |CaptureName(words, name)| > |tld|
  {
    if |Split(ToLower(name))| > 1 {
      LongerThanFirst(ToLower(name));
    }
  }

  lemma {:induction false} LongerThanFirst(s: string)
    requires |Split(s)| > 1
    ensures |s| > |Split(s)[0]|
  {
    SplitLabels(s);
  }

  /** They differ whenever the TLD is the first or second label and something follows it. */
  lemma FollowedDisagree(words: Dictionary, name: string)
    requires IsDNNName(words, name) && !EndsWith(name, '.')
    requires var parts := Split(ToLower(name));
             FirstDNN(words, parts) < 2 && FirstDNN(words, parts) + 1 < |parts|
    ensures !Agree(words, name)
  {
    RoutinesAgreeIff(words, name);
  }

  /** When the machine appends its search suffix, here the name itself, the server drops it and the
      other two do not. */
  lemma SuffixedDisagree(words: Dictionary, part: string)
    requires IsSinglePartDNN(words, part) && '.' !in part && ToLower(part) == part
    ensures IsDNNName(words, part + "." + part) && !Agree(words, part + "." + part)
  {
    NameOfOneLabel(words, part);
    SuffixedLabels(part);
    SuffixedIsName(words, part + "." + part, part);
  }

  lemma {:induction false} SuffixedIsName(words: Dictionary, name: string, part: string)
    requires IsSinglePartDNN(words, part) && |name| >= 8 && ' ' !in name
    requires ToLower(name) == name && !EndsWith(name, '.') && Canonical(name) == name && Split(name) == [part, part]
    ensures IsDNNName(words, name) && !Agree(words, name)
  {
    LeftmostIsFirst(words, [part, part], 0);
    FirstLabelIsTLD(words, name);
  }

  lemma SuffixedLabels(part: string)
    requires part != "" && '.' !in part && ToLower(part) == part
    ensures var name := part + "." + part;
            && ToLower(name) == name && !EndsWith(name, '.') && Canonical(name) == name
            && Split(name) == [part, part]
  {
    SplitOfLabel(part);
    SplitAtDot(part, part);
    LowerOfConcat(part, ".");
    LowerOfConcat(part + ".", part);
    assert ToLower(".") == ".";
    assert (part + "." + part)[|part| + 1 + |part| - 1] == part[|part| - 1];
  }

  /** Any two words of a dictionary in which no word starts another make such a name. */
  lemma RoutinesCanDisagree(words: Dictionary, word1: string, word2: string)
    requires PrefixFree(words) && word1 in words && word2 in words
    ensures var part := Print(Parts(word1, word2, "", "x"));
            && IsSinglePartDNN(words, part)
            && !Agree(words, part + "." + part)
  {
    var p := Parts(word1, word2, "", "x");
    AlwaysRoundTripsIff(words);
    PrintIsPlain(words, p);
    SuffixedDisagree(words, Print(p));
  }

  /** In particular they agree when the text of the TLD does not occur before it and there is a
      non-empty label before it, whatever follows, once there are two labels before it; with fewer
      the name must be in lower case and end there. */
  lemma RoutinesAgree(words: Dictionary, name: string)
    requires IsDNNName(words, name) && !EndsWith(name, '.')
    requires var parts := Split(ToLower(name));
             var i := FirstDNN(words, parts);
             && i < |parts| && Index(ToLower(name), parts[i]) == LabelStart(parts, i)
             && (i > 0 ==> parts[i - 1] != "")
             && (i < 2 ==> |parts| == i + 1 && name == ToLower(name))
    ensures var parts := Split(ToLower(name));
            var i := FirstDNN(words, parts);
            && Agree(words, name)
            && ServerName(words, name) == if i == 0 then parts[0] else parts[i - 1] + "." + parts[i]
  {
    var parts := Split(ToLower(name));
    var i := FirstDNN(words, parts);
    if i == 0 {
      FirstLabelIsTLD(words, name);
      SplitLabels(name);
    } else {
      PrefixedAgree(words, name, i);
    }
  }

  lemma PrefixedAgree(words: Dictionary, name: string, i: nat)
    requires IsDNNName(words, name) && !EndsWith(name, '.')
    requires var parts := Split(ToLower(name));
             && i == FirstDNN(words, parts) && 0 < i < |parts|
             && Index(ToLower(name), parts[i]) == LabelStart(parts, i) && parts[i - 1] != ""
             && (i == 1 ==> |parts| == 2 && name == ToLower(name))
    ensures Agree(words, name)
    ensures var parts := Split(ToLower(name));
            ServerName(words, name) == parts[i - 1] + "." + parts[i]
  {
    PrefixOfLabel(ToLower(name), i);
    PrefixedAgreeIff(words, name, i);
    CaptureOfPrefixed(words, name, i);
  }

  lemma {:induction false} PrefixOfLabel(s: string, i: nat)
    requires 0 < i < |Split(s)| && Index(s, Split(s)[i]) == LabelStart(Split(s), i)
    ensures PrefixFound(s, Split(s)[i]) == Split(s)[i - 1]
  {
    LabelOccurs(s, i);
  }

  lemma {:induction false} ParentIsShorter(s: string, i: nat)
    requires 2 <= i < |Split(s)|
    ensures var parts := Split(s); |s| > |parts[i - 1] + "." + parts[i]|
  {
    var parts := Split(s);
    SplitLabels(s);
    JoinCut(parts, i - 1);
    JoinCut(parts[i - 1..], 1);
    assert parts[i - 1..][..1] == [parts[i - 1]] && parts[i - 1..][1..] == parts[i..];
    FrontOfJoin(parts[i..]);
  }

  lemma ParentNameIsShorter(name: string, parts: seq<string>, tld: string)
    requires parts == Split(ToLower(name))
    ensures Position(parts, tld) >= 2 ==> |ParentName(name, parts, tld)| < |name|
    ensures Position(parts, tld) < 2 ==> ParentName(name, parts, tld) == name
  {
    if Position(parts, tld) >= 2 {
      ParentIsShorter(ToLower(name), Position(parts, tld));
    }
  }

  /** With two labels or more before the TLD the capture handler resolves what the proxy takes for the
      parent. */
  lemma CaptureIsParent(words: Dictionary, name: string)
    ensures Position(Split(ToLower(name)), TLDOf(words, name)) >= 2 ==>
              CaptureName(words, name) == ProxyName(words, name)
  {
    ParentNameIsShorter(name, Split(ToLower(name)), TLDOf(words, name));
  }

  /** The capture handler files a resolution under the whole name, the proxy looks it up under the
      parent. It finds it there exactly when the TLD is among the first two labels. */
  lemma ProxyFindsCapturedIff(words: Dictionary, name: string)
    ensures ToLower(ProxyName(words, name)) == ToLower(name) <==> Position(Split(ToLower(name)), TLDOf(words, name)) < 2
  {
    ParentNameIsShorter(name, Split(ToLower(name)), TLDOf(words, name));
    assert |ToLower(ProxyName(words, name))| == |ProxyName(words, name)|;
  }

  // A label in lower case, with neither white space nor a DNN identifier in it.
  predicate IsPlain(words: Dictionary, part: string) {
    && part != "" && '.' !in part && ToLower(part) == part && !IsSinglePartDNN(words, part)
    && forall i :: 0 <= i < |part| ==> !IsSpace(part[i])
  }

  /** With two plain labels before a DNN label the proxy takes the first for the subdomain and the rest for
      the parent. */
  lemma ParentOfThree(words: Dictionary, a: string, b: string, part: string)
    requires IsPlain(words, a) && IsPlain(words, b)
    requires IsSinglePartDNN(words, part) && '.' !in part && ToLower(part) == part
    ensures var name := a + "." + (b + "." + part);
            && Position(Split(ToLower(name)), TLDOf(words, name)) == 2
            && ProxyName(words, name) == b + "." + part && ProxySubdomain(words, name) == a
            && NormalName(name) == name
  {
    ThreeLabels(a, b, part);
    ThreeLabelsTrimmed(words, a, b, part);
    ParentOfLabels(words, a + "." + (b + "." + part), a, b, part);
  }

  lemma {:induction false} ParentOfLabels(words: Dictionary, name: string, a: string, b: string, part: string)
    requires IsPlain(words, a) && IsPlain(words, b) && IsSinglePartDNN(words, part)
    requires ToLower(name) == name && Canonical(name) == name && Split(name) == [a, b, part]
    ensures Position(Split(ToLower(name)), TLDOf(words, name)) == 2
    ensures ProxyName(words, name) == b + "." + part && ProxySubdomain(words, name) == a
  {
    LeftmostIsFirst(words, [a, b, part], 2);
    assert TLDOf(words, name) == part;
    assert Position([a, b, part], part) == 2;
  }

  lemma ThreeLabelsTrimmed(words: Dictionary, a: string, b: string, part: string)
    requires IsPlain(words, a) && ToLower(b) == b
    requires IsSinglePartDNN(words, part) && ToLower(part) == part
    ensures var name := a + "." + (b + "." + part);
            ToLower(name) == name && Canonical(name) == name && TrimSpace(name) == name
  {
    LowerOfThree(a, b, part);
    ParseIsSound(words, part);
    PrintIsPlain(words, Parse(words, part).value);
    EndsOfThree(a, b, part);
  }

  lemma EndsOfThree(a: string, b: string, part: string)
    requires a != "" && !IsSpace(a[0]) && part != "" && IsLetter(part[|part| - 1])
    ensures var name := a + "." + (b + "." + part);
            TrimSuffix(name, '.') == name && TrimSpace(name) == name
  {
    var name := a + "." + (b + "." + part);
    assert name[0] == a[0] && name[|name| - 1] == part[|part| - 1];
    TrimSpaceTrims(name);
  }

  lemma LowerOfThree(a: string, b: string, c: string)
    ensures ToLower(a + "." + (b + "." + c)) == ToLower(a) + "." + (ToLower(b) + "." + ToLower(c))
  {
  }

  lemma {:induction false} ThreeLabels(a: string, b: string, c: string)
    requires '.' !in a && '.' !in b && '.' !in c
    ensures Split(a + "." + (b + "." + c)) == [a, b, c]
  {
    SplitOfLabel(a);
    SplitOfLabel(b);
    SplitOfLabel(c);
    SplitAtDot(b, c);
    SplitAtDot(a, b + "." + c);
  }
}
