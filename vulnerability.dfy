/**
 * The alphabet of easily exploitable characters and the test that a domain
 * label is made of them alone (top-vulnerable-domains/main.go, the
 * `alphabet` map and the loop over the runes of `domain`).
 */
module Vulnerability {

  /** The fixed set of thirteen easily exploitable characters. */
  const Alphabet: set<char> := {'a', 'p', 'l', 'e', 'c', 'x', 's', 'y', 'j', 'i', 'h', 'o', '-'}

  /** Every character of the domain label is in the alphabet; the empty label
      passes. */
  predicate IsVulnerable(domain: string)
  {
    forall i :: 0 <= i < |domain| ==> domain[i] in Alphabet
  }

  /** The rune loop of the scan, lifted out: it stops at the first character
      outside the alphabet. */
  method CheckLabel(domain: string) returns (ok: bool)
    ensures ok <==> IsVulnerable(domain)
  {
    var i := 0;
    while i < |domain|
      invariant 0 <= i <= |domain|
      invariant forall k :: 0 <= k < i ==> domain[k] in Alphabet
    {
      if domain[i] !in Alphabet {
        return false;
      }
      i := i + 1;
    }
    return true;
  }

  /** The alphabet has thirteen distinct characters. */
  lemma AlphabetSize()
    ensures |Alphabet| == 13
  {
  }

  /** The empty label is accepted, "apple" is, "google" is not ('g'). */
  lemma Examples()
    ensures IsVulnerable("")
    ensures IsVulnerable("apple")
    ensures !IsVulnerable("google")
  {
    assert "google"[0] == 'g';
  }
}
