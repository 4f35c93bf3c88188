/** The signer: certificates made on demand, CA-signed for trusted domains and self-signed for the
    rest, each kind in a cache of its own. */
module CA {
  import opened Wrappers
  import opened Mapper

  const HOUR: int := 3600
  const CERT_VALID: int := 365 * 24 * 3600

  datatype Cert = Cert(domain: string, caSigned: bool, notAfter: int)

  // A cached certificate is good for another hour.
  predicate Usable(cert: Cert, now: int) {
    now < cert.notAfter - HOUR
  }

  /** The trusted cache holds only CA-signed certificates, the other only self-signed ones, and each
      certificate is filed under its own domain. */
  ghost predicate SafeCaches(trusted: map<string, Cert>, untrusted: map<string, Cert>) {
    && (forall d :: d in trusted ==> trusted[d].domain == d && trusted[d].caSigned)
    && (forall d :: d in untrusted ==> untrusted[d].domain == d && !untrusted[d].caSigned)
  }

  /** One undisturbed call against one cache: what it leaves there and what it returns. */
  function Serve(certs: map<string, Cert>, domain: string, ca: bool, now: int, generated: bool)
    : (map<string, Cert>, Option<Cert>)
  {
    if domain in certs && Usable(certs[domain], now) then (certs, Some(certs[domain]))
    else if !generated then (certs - {domain}, None)
    else
      var cert := Cert(domain, ca, now + CERT_VALID);
      (certs[domain := cert], Some(cert))
  }

  lemma ReplacesDeleted(certs: map<string, Cert>, domain: string, cert: Cert)
    ensures (certs - {domain})[domain := cert] == certs[domain := cert]
    ensures domain !in certs ==> certs - {domain} == certs
  {
  }

  /** A certificate just made is served again, the very same one, until an hour before its year is
      over; from then on the call makes a new one of that kind, or has none. Other domains keep what
      they have. */
  lemma ServedUntilExpiry(certs: map<string, Cert>, domain: string, ca: bool, now: int, later: int, generated: bool)
    ensures var (certs1, cert1) := Serve(certs - {domain}, domain, ca, now, true);
            var (certs2, cert2) := Serve(certs1, domain, ca, later, generated);
            && cert1.Some? && cert1.value.notAfter == now + 365 * 86400
            && (cert2 == cert1 && certs2 == certs1 <==> later + 3600 < now + 365 * 86400)
            && (later + 3600 >= now + 365 * 86400 ==>
                  (cert2.Some? <==> generated) && (cert2.Some? ==> cert2.value.notAfter == later + 365 * 86400))
            && certs2 - {domain} == certs - {domain}
  {
    var (certs1, cert1) := Serve(certs - {domain}, domain, ca, now, true);
    var (certs2, cert2) := Serve(certs1, domain, ca, later, generated);
    ReplacesDeleted(certs, domain, cert1.value);
    assert certs1 - {domain} == certs - {domain};
    assert certs2 - {domain} == certs1 - {domain};
  }

  class Signer {
    var cache: map<string, Cert>
    var untrusted: map<string, Cert>
    var certChecker: Cache?

    ghost predicate Valid()
      reads this
    {
      SafeCaches(cache, untrusted)
    }

    ghost predicate MayTrust(domain: string)
      reads this, certChecker
    {
      certChecker == null || TrustedIn(Replay(certChecker.history), domain)
    }

    constructor ()
      ensures Valid() && cache == map[] && untrusted == map[] && certChecker == null
    {
      cache, untrusted, certChecker := map[], map[], null;
    }

    method SetCertChecker(checker: Cache)
      modifies this`certChecker
      ensures certChecker == checker
    {
      certChecker := checker;
    }

    // Key generation and signing may fail; then there is no certificate.
    method GenerateCert(domain: string, trusted: bool, now: int, generated: bool) returns (cert: Option<Cert>)
      ensures cert.Some? <==> generated
      ensures cert.Some? ==> cert.value.domain == domain && cert.value.caSigned == trusted
      ensures cert.Some? ==> Usable(cert.value, now) && cert.value.notAfter - now == CERT_VALID
    {
      cert := if generated then Some(Cert(domain, trusted, now + CERT_VALID)) else None;
    }

    /** The certificate served is the domain's own, good for another hour at least, and CA-signed
        exactly when there is no checker or the checker trusts the domain. */
    method GetCertificate(domain: string, now: int, generated: bool) returns (cert: Option<Cert>)
      requires Valid() && (certChecker != null ==> certChecker.Valid())
      modifies this`cache, this`untrusted
      ensures Valid()
      ensures cert.Some? ==> cert.value.domain == domain && now + 3600 < cert.value.notAfter
      ensures cert.Some? ==> (cert.value.caSigned <==> MayTrust(domain))
      ensures MayTrust(domain) ==>
                (cache, cert) == Serve(old(cache), domain, true, now, generated) && untrusted == old(untrusted)
      ensures !MayTrust(domain) ==>
                (untrusted, cert) == Serve(old(untrusted), domain, false, now, generated) && cache == old(cache)
    {
      if certChecker != null {
        var valid := certChecker.IsCertValidForDomain(domain);
        if !valid {
          cert := GetUntrustedCertificate(domain, now, generated);
          return;
        }
      }
      cert := GetTrustedCertificate(domain, now, generated);
    }

    // What GetCertificate goes on with for a trusted domain.
    method GetTrustedCertificate(domain: string, now: int, generated: bool) returns (cert: Option<Cert>)
      requires Valid()
      modifies this`cache
      ensures Valid()
      ensures (cache, cert) == Serve(old(cache), domain, true, now, generated)
    {
      if domain in cache {
        if Usable(cache[domain], now) {
          return Some(cache[domain]);
        }
        cache := cache - {domain};
      }
      cert := GenerateCert(domain, true, now, generated);
      ReplacesDeleted(old(cache), domain, Cert(domain, true, now + CERT_VALID));
      if cert.None? {
        return;
      }
      cache := cache[domain := cert.value];
    }

    method GetUntrustedCertificate(domain: string, now: int, generated: bool) returns (cert: Option<Cert>)
      requires Valid()
      modifies this`untrusted
      ensures Valid()
      ensures (untrusted, cert) == Serve(old(untrusted), domain, false, now, generated)
    {
      if domain in untrusted {
        if Usable(untrusted[domain], now) {
          return Some(untrusted[domain]);
        }
        untrusted := untrusted - {domain};
      }
      cert := GenerateCert(domain, false, now, generated);
      ReplacesDeleted(old(untrusted), domain, Cert(domain, false, now + CERT_VALID));
      if cert.None? {
        return;
      }
      untrusted := untrusted[domain := cert.value];
    }
  }
}
