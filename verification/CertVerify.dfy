/** Comparing a declared certificate with the one a server presents. */
module CertVerify {
  import opened Wrappers

  datatype Verification = Valid | NoDeclaredCert | NoServerCert | CertMismatch

  // strings.ReplaceAll(s, c, "") for a text c of one character.
  function RemoveAll(s: string, c: char): string {
    if s == [] then []
    else if s[0] == c then RemoveAll(s[1..], c)
    else [s[0]] + RemoveAll(s[1..], c)
  }

  function NormalizePEM(pem: string): string {
    RemoveAll(RemoveAll(RemoveAll(pem, '\r'), '\n'), ' ')
  }

  function VerifyCert(declaredPEM: string, serverPEM: string): Verification {
    if declaredPEM == "" then NoDeclaredCert
    else if serverPEM == "" then NoServerCert
    else if NormalizePEM(declaredPEM) != NormalizePEM(serverPEM) then CertMismatch
    else Valid
  }

  predicate IsLayout(c: char) {
    c == '\r' || c == '\n' || c == ' '
  }

  // The text without its layout, in one pass.
  function Essence(s: string): string {
    if s == [] then [] else EssenceOf(s[0]) + Essence(s[1..])
  }

  function EssenceOf(c: char): string {
    if IsLayout(c) then [] else [c]
  }

  lemma {:induction false} NormalizeIsEssence(pem: string)
    ensures NormalizePEM(pem) == Essence(pem)
  {
    if pem != [] {
      NormalizeIsEssence(pem[1..]);
      var c, rest := pem[0], pem[1..];
      var r1 := RemoveAll(rest, '\r');
      var r2 := RemoveAll(r1, '\n');
      if c != '\r' {
        assert ([c] + r1)[1..] == r1;
        if c != '\n' {
          assert ([c] + r2)[1..] == r2;
        }
      }
    }
  }

  /** Nothing matches an empty text, not even one of layout only. */
  lemma {:induction false} EmptyNeverMatches(pem: string)
    ensures !VerifyCert(pem, "").Valid? && !VerifyCert("", pem).Valid?
  {
  }

  /** Nothing but layout is left out. */
  lemma {:induction false} EssenceKeeps(s: string)
    requires forall i :: 0 <= i < |s| ==> s[i] !in {'\r', '\n', ' '}
    ensures Essence(s) == s
  {
    if s != [] {
      EssenceKeeps(s[1..]);
      assert s == [s[0]] + s[1..];
    }
  }

  /** So texts without layout match only if they are the same. */
  lemma {:induction false} PlainMatchIff(declaredPEM: string, serverPEM: string)
    requires forall i :: 0 <= i < |declaredPEM| ==> declaredPEM[i] !in {'\r', '\n', ' '}
    requires forall i :: 0 <= i < |serverPEM| ==> serverPEM[i] !in {'\r', '\n', ' '}
    ensures VerifyCert(declaredPEM, serverPEM).Valid? <==> declaredPEM != "" && declaredPEM == serverPEM
  {
    VerifyMeansMatch(declaredPEM, serverPEM);
    EssenceKeeps(declaredPEM);
    EssenceKeeps(serverPEM);
  }

  /** The certificate declared for a name is the one its server presents, if it presents one at all:
      the texts are non-empty and differ in layout only. */
  predicate Matches(declaredPEM: string, handshake: Option<string>) {
    declaredPEM != "" && handshake.Some? && handshake.value != "" && Essence(declaredPEM) == Essence(handshake.value)
  }

  lemma VerifyMeansMatch(declaredPEM: string, serverPEM: string)
    ensures VerifyCert(declaredPEM, serverPEM).Valid? <==> Matches(declaredPEM, Some(serverPEM))
  {
    NormalizeIsEssence(declaredPEM);
    NormalizeIsEssence(serverPEM);
  }

  lemma {:induction false} EssenceOfConcat(a: string, b: string)
    ensures Essence(a + b) == Essence(a) + Essence(b)
  {
    if a == [] {
      assert a + b == b;
    } else {
      EssenceOfConcat(a[1..], b);
      ConsConcat(a, b);
      EssenceOfCons(a[0], a[1..] + b);
      Associative(EssenceOf(a[0]), Essence(a[1..]), Essence(b));
    }
  }

  lemma ConsConcat(a: string, b: string)
    requires a != []
    ensures a + b == [a[0]] + (a[1..] + b)
  {
  }

  lemma {:induction false} EssenceOfCons(c: char, s: string)
    ensures Essence([c] + s) == EssenceOf(c) + Essence(s)
  {
    assert ([c] + s)[1..] == s;
  }

  /** Breaking a line, or any other layout, at any place changes no verdict. */
  lemma LayoutDoesNotMatter(a: string, layout: string, b: string, serverPEM: string)
    requires forall i :: 0 <= i < |layout| ==> layout[i] in {'\r', '\n', ' '}
    requires a + b != ""
    ensures VerifyCert(a + layout + b, serverPEM) == VerifyCert(a + b, serverPEM)
  {
    EssenceOfConcat(a + layout, b);
    EssenceOfConcat(a, layout);
    EssenceOfConcat(a, b);
    LayoutHasNoEssence(layout);
    assert |a + layout + b| > 0;
    SameEssenceSameVerdict(a + layout + b, a + b, serverPEM);
  }

  lemma {:induction false} SameEssenceSameVerdict(pem1: string, pem2: string, serverPEM: string)
    requires pem1 != "" && pem2 != "" && Essence(pem1) == Essence(pem2)
    ensures VerifyCert(pem1, serverPEM) == VerifyCert(pem2, serverPEM)
  {
    NormalizeIsEssence(pem1);
    NormalizeIsEssence(pem2);
  }

  lemma {:induction false} LayoutHasNoEssence(layout: string)
    requires forall i :: 0 <= i < |layout| ==> IsLayout(layout[i])
    ensures Essence(layout) == ""
  {
    if layout != "" {
      LayoutHasNoEssence(layout[1..]);
    }
  }
}
