/**
 * splitDomain of top-vulnerable-domains/main.go: a hostname split into
 * (subdomain, domain, tld) around its public suffix. The public-suffix lookup
 * is a foreign library; it is the parameter `psl`, which maps a hostname to
 * the suffix the library would report.
 *
 * A non-empty hostname falls in one of three cases, by the suffix reported:
 *  - the hostname is its own suffix: it is split into labels, and the last
 *    two become domain and tld (lines 45-58);
 *  - a strict suffix (non-empty, not the hostname): tld is "." + suffix, and
 *    the hostname with tld stripped gives subdomain and domain (lines 59-69);
 *  - no suffix (""): tld is "", and the whole hostname gives subdomain and
 *    domain (lines 62-69).
 */
module DomainSplit {
  import opened GoStrings

  datatype DomainParts = DomainParts(subdomain: string, domain: string, tld: string)

  /** Go's named results: subdomain, domain and tld, each "" unless set. */
  function SplitDomain(psl: string -> string, host: string): (r: DomainParts)
    ensures '.' !in r.domain
  {
    if host == "" then DomainParts("", "", "")
    else
      var suffix := psl(host);
      if suffix == host then
        // the hostname is its own public suffix
        var segments := Split(host, ".");
        var l := |segments|;
        LabelHasNoDot(segments, 0);
        if l == 1 then DomainParts("", segments[0], "")
        else if l == 2 then DomainParts("", segments[0], segments[1])
        else
          LabelHasNoDot(segments, l - 2);
          DomainParts(Join(segments[..l - 2], "."), segments[l - 2], segments[l - 1])
      else
        var tld := if suffix != "" then "." + suffix else "";
        var segments := Split(TrimSuffix(host, tld), ".");
        var l := |segments|;
        LabelHasNoDot(segments, l - 1);
        if l == 1 then DomainParts("", segments[0], tld)
        else DomainParts(Join(segments[..l - 1], "."), segments[l - 1], tld)
  }

  /** A piece of a split on "." holds no dot. */
  lemma LabelHasNoDot(segments: seq<string>, k: int)
    requires 0 <= k < |segments|
    requires !Contains(segments[k], ".")
    ensures '.' !in segments[k]
  {
    ContainsChar(segments[k], '.');
  }

  /** Splitting the labels of a dotted name, given as labels without dots. */
  lemma SplitLabels(labels: seq<string>)
    requires |labels| > 0
    requires forall k :: 0 <= k < |labels| ==> '.' !in labels[k]
    ensures Split(Join(labels, "."), ".") == labels
  {
    SplitJoin(labels, ".");
  }

  /** The empty hostname gives three empty parts, whatever the lookup says. */
  lemma EmptyHost(psl: string -> string, other: string -> string)
    ensures SplitDomain(psl, "") == SplitDomain(other, "") == DomainParts("", "", "")
  {
  }

  /** A one-label hostname that is its own suffix is all domain. */
  lemma SelfSuffixOneLabel(psl: string -> string, host: string)
    requires host != "" && psl(host) == host
    requires '.' !in host
    ensures SplitDomain(psl, host) == DomainParts("", host, "")
  {
    SplitLabels([host]);
  }

  /** A two-label hostname that is its own suffix is domain and tld, with no
      leading dot on tld (e.g. "co.uk" gives "co" and "uk"). */
  lemma SelfSuffixTwoLabels(psl: string -> string, domain: string, tld: string)
    requires '.' !in domain && '.' !in tld
    requires psl(domain + "." + tld) == domain + "." + tld
    ensures SplitDomain(psl, domain + "." + tld) == DomainParts("", domain, tld)
  {
    var labels := [domain, tld];
    assert Join(labels, ".") == domain + "." + tld;
    SplitLabels(labels);
  }

  /** A hostname of three or more labels that is its own suffix keeps the last
      two labels as domain and tld and everything before them as subdomain. */
  lemma SelfSuffixManyLabels(psl: string -> string, subdomain: string, domain: string, tld: string)
    requires '.' !in domain && '.' !in tld
    requires psl(subdomain + "." + domain + "." + tld) == subdomain + "." + domain + "." + tld
    ensures SplitDomain(psl, subdomain + "." + domain + "." + tld) == DomainParts(subdomain, domain, tld)
  {
    var host := subdomain + "." + domain + "." + tld;
    var front := Split(subdomain, ".");
    JoinSplit(subdomain, ".");
    forall k | 0 <= k < |front| ensures '.' !in front[k] {
      LabelHasNoDot(front, k);
    }
    var labels := front + [domain, tld];
    assert labels == (front + [domain]) + [tld];
    JoinSnoc(front, domain, ".");
    JoinSnoc(front + [domain], tld, ".");
    assert Join(labels, ".") == host;
    SplitLabels(labels);
    assert labels[..|labels| - 2] == front;
  }

  /** A strict suffix comes back as tld with a leading ".". */
  lemma StrictSuffixTld(psl: string -> string, host: string)
    requires host != "" && psl(host) != "" && psl(host) != host
    ensures SplitDomain(psl, host).tld == "." + psl(host)
  {
  }

  /** Without a suffix, tld is empty and the whole hostname is split into
      subdomain and domain, which put back together give the hostname; a
      dotless hostname is all domain. */
  lemma NoSuffix(psl: string -> string, host: string)
    requires host != "" && psl(host) == ""
    ensures SplitDomain(psl, host).tld == ""
    ensures var r := SplitDomain(psl, host);
      host == (if '.' in host then r.subdomain + "." + r.domain else r.domain)
    ensures '.' !in host ==> SplitDomain(psl, host) == DomainParts("", host, "")
  {
    Reassembly(psl, host);
  }

  /** Unless the hostname is its own suffix, the hostname with tld stripped is the last label as
      domain and the labels before it, joined by ".", as subdomain. */
  lemma {:induction false} Remainder(psl: string -> string, host: string, subdomain: string, domain: string)
    requires host != "" && psl(host) != host
    requires '.' !in domain
    requires TrimSuffix(host, SplitDomain(psl, host).tld) == subdomain + "." + domain
    ensures SplitDomain(psl, host).subdomain == subdomain
    ensures SplitDomain(psl, host).domain == domain
  {
    var front := Split(subdomain, ".");
    JoinSplit(subdomain, ".");
    forall k | 0 <= k < |front| ensures '.' !in front[k] {
      LabelHasNoDot(front, k);
    }
    var labels := front + [domain];
    JoinSnoc(front, domain, ".");
    SplitLabels(labels);
    assert labels[..|labels| - 1] == front;
  }

  /** The pieces of a split on ".": one piece when the name has no dot, and
      otherwise the name is the front pieces joined, a dot and the last. */
  lemma {:induction false} SplitLast(name: string)
    ensures var segments := Split(name, ".");
      var l := |segments|;
      if '.' in name then l >= 2 && name == Join(segments[..l - 1], ".") + "." + segments[l - 1]
      else segments == [name]
  {
    var segments := Split(name, ".");
    var l := |segments|;
    JoinSplit(name, ".");
    if '.' in name {
      if l == 1 {
        LabelHasNoDot(segments, 0);
        assert false;
      }
      assert segments == segments[..l - 1] + [segments[l - 1]];
      JoinSnoc(segments[..l - 1], segments[l - 1], ".");
    } else {
      SplitLabels([name]);
    }
  }

  /** Unless the hostname is its own suffix, when it really ends with tld the
      parts put back together give the hostname: domain + tld, with an empty
      subdomain, when the rest has no dot, and subdomain + "." + domain + tld
      when it has one. */
  lemma {:induction false} Reassembly(psl: string -> string, host: string)
    requires host != "" && psl(host) != host
    requires HasSuffix(host, SplitDomain(psl, host).tld)
    ensures var r := SplitDomain(psl, host);
      var rest := TrimSuffix(host, r.tld);
      host == (if '.' in rest then r.subdomain + "." + r.domain + r.tld else r.domain + r.tld)
    ensures var r := SplitDomain(psl, host);
      '.' !in TrimSuffix(host, r.tld) ==> r.subdomain == ""
  {
    var r := SplitDomain(psl, host);
    var suffix := psl(host);
    var tld := if suffix != "" then "." + suffix else "";
    assert r.tld == tld;
    var rest := TrimSuffix(host, tld);
    assert rest + tld == host;
    var segments := Split(rest, ".");
    var l := |segments|;
    SplitLast(rest);
    assert r.domain == segments[l - 1];
    if '.' in rest {
      assert r.subdomain == Join(segments[..l - 1], ".");
    }
  }

  /** "co.uk", its own suffix, splits as "co" and "uk" (no leading dot).
      The example's strings are parameters fixed by `requires` so that the
      verifier does not evaluate the split of a literal to its end. */
  lemma CoUkIsOwnSuffix(psl: string -> string, domain: string, tld: string)
    requires domain == "co" && tld == "uk"
    requires psl(domain + "." + tld) == domain + "." + tld
    ensures SplitDomain(psl, domain + "." + tld) == DomainParts("", "co", "uk")
  {
    SelfSuffixTwoLabels(psl, domain, tld);
  }

  /** A strict suffix with a subdomain: a registered name under a strict suffix splits
      into the labels before it, its last label and "." + suffix. */
  lemma StrictSuffixParts(psl: string -> string, subdomain: string, domain: string, suffix: string)
    requires '.' !in domain && suffix != ""
    requires psl(subdomain + "." + domain + "." + suffix) == suffix
    ensures SplitDomain(psl, subdomain + "." + domain + "." + suffix)
         == DomainParts(subdomain, domain, "." + suffix)
  {
    var host := subdomain + "." + domain + "." + suffix;
    var tld := "." + suffix;
    StrictSuffixTld(psl, host);
    assert host == (subdomain + "." + domain) + tld;
    assert HasSuffix(host, tld) && host[..|host| - |tld|] == subdomain + "." + domain;
    Remainder(psl, host, subdomain, domain);
  }

  /** A strict suffix without a subdomain: one label under a strict suffix is the
      domain, and tld is "." + suffix. */
  lemma StrictSuffixNoSubdomain(psl: string -> string, domain: string, suffix: string)
    requires '.' !in domain && suffix != ""
    requires psl(domain + "." + suffix) == suffix
    ensures SplitDomain(psl, domain + "." + suffix) == DomainParts("", domain, "." + suffix)
  {
    var host := domain + "." + suffix;
    var tld := "." + suffix;
    StrictSuffixTld(psl, host);
    assert host == domain + tld;
    assert HasSuffix(host, tld) && host[..|host| - |tld|] == domain;
    SplitLast(domain);
  }

  /** "sub.example.co.uk" under the suffix "co.uk" gives tld ".co.uk", with
      the leading dot of a strict suffix. The strings are parameters fixed
      by `requires`, as in CoUkIsOwnSuffix. */
  lemma SubdomainUnderCoUk(psl: string -> string, subdomain: string, domain: string, suffix: string)
    requires subdomain == "sub" && domain == "example" && suffix == "co.uk"
    requires psl(subdomain + "." + domain + "." + suffix) == suffix
    ensures SplitDomain(psl, subdomain + "." + domain + "." + suffix)
         == DomainParts("sub", "example", ".co.uk")
  {
    StrictSuffixParts(psl, subdomain, domain, suffix);
  }
}
