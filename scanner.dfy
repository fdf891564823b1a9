/**
 * The read loop of main in top-vulnerable-domains/main.go: each line is a
 * record "[ <index>, '<hostname>' ]", the hostname is split, and it is kept
 * when its domain label is vulnerable.
 */
module Scanner {
  import opened Options
  import opened GoStrings
  import opened DomainSplit
  import opened Vulnerability

  /** A line with its "[ " prefix and " ]\n" suffix trimmed. */
  function RecordBody(line: string): string
  {
    TrimSuffix(TrimPrefix(line, "[ "), " ]\n")
  }

  /** The hostname of a record line: the second of exactly two ", "-separated
      fields, with every leading and trailing "'" removed; None for a line
      that does not have exactly two fields. */
  function ParseRecord(line: string): (r: Option<string>)
    ensures r.None? <==> |Split(RecordBody(line), ", ")| != 2
    ensures r.Some? ==> r.value == "" || (r.value[0] != '\'' && r.value[|r.value| - 1] != '\'')
    ensures r.Some? ==> Contains(Split(RecordBody(line), ", ")[1], r.value)
  {
    var records := Split(RecordBody(line), ", ");
    if |records| != 2 then None else Some(Trim(records[1], "'"))
  }

  /** The line as the scraped list writes it. */
  function FormatRecord(index: string, host: string): string
  {
    "[ " + index + ", '" + host + "' ]\n"
  }

  /** Parsing a well-formed record gives back its hostname. */
  lemma {:induction false} ParseFormatRecord(index: string, host: string)
    requires ',' !in index && ',' !in host && '\'' !in host
    ensures ParseRecord(FormatRecord(index, host)) == Some(host)
  {
    var quoted := "'" + host + "'";
    var body := index + ", " + quoted;
    var line := FormatRecord(index, host);
    assert line == "[ " + (body + " ]\n");
    assert TrimPrefix(line, "[ ") == body + " ]\n";
    assert TrimSuffix(body + " ]\n", " ]\n") == body;
    assert Join([index, quoted], ", ") == body;
    assert ',' !in quoted;
    SplitJoin([index, quoted], ", ");
    TrimAround("'", host, "'", "'");
  }

  /** What one line adds to the list: its hostname when the record parses and
      the domain label is vulnerable, nothing otherwise. */
  function Keep(psl: string -> string, line: string): (r: seq<string>)
    ensures |r| <= 1
    ensures r != [] <==> ParseRecord(line).Some?
                         && IsVulnerable(SplitDomain(psl, ParseRecord(line).value).domain)
    ensures r != [] ==> r == [ParseRecord(line).value]
  {
    match ParseRecord(line)
    case None => []
    case Some(host) =>
      if IsVulnerable(SplitDomain(psl, host).domain) then [host] else []
  }

  /** The contributions of the lines, in order. */
  function Collect(keep: string -> seq<string>, lines: seq<string>): seq<string>
  {
    if lines == [] then []
    else Collect(keep, lines[..|lines| - 1]) + keep(lines[|lines| - 1])
  }

  /** Keep for one lookup, as a value. */
  function KeepWith(psl: string -> string): string -> seq<string>
  {
    line => Keep(psl, line)
  }

  /** The list after scanning `lines` in order. */
  function Accepted(psl: string -> string, lines: seq<string>): seq<string>
  {
    Collect(KeepWith(psl), lines)
  }

  /** The read loop: lines in order, malformed ones skipped, a hostname
      appended when its domain passes the alphabet check. */
  method ScanLines(psl: string -> string, lines: seq<string>) returns (list: seq<string>)
    ensures list == Accepted(psl, lines)
  {
    list := [];
    var i := 0;
    while i < |lines|
      invariant 0 <= i <= |lines|
      invariant list == Accepted(psl, lines[..i])
    {
      var line := lines[i];
      i := i + 1;
      assert lines[..i][..i - 1] == lines[..i - 1];
      line := TrimPrefix(line, "[ ");
      line := TrimSuffix(line, " ]\n");
      var records := Split(line, ", ");
      if |records| != 2 {
        continue;
      }
      var host := Trim(records[1], "'");
      var parts := SplitDomain(psl, host);
      var ok := CheckLabel(parts.domain);
      if !ok {
        continue;
      }
      list := list + [host];
    }
    assert lines[..i] == lines;
  }

  /** Collecting two runs of lines one after the other concatenates their
      contributions. */
  lemma {:induction false} CollectAppend(keep: string -> seq<string>, a: seq<string>, b: seq<string>)
    ensures Collect(keep, a + b) == Collect(keep, a) + Collect(keep, b)
    decreases |b|
  {
    if b == [] {
      assert a + b == a;
    } else {
      var front := b[..|b| - 1];
      assert (a + b)[..|a + b| - 1] == a + front;
      assert (a + b)[|a + b| - 1] == b[|b| - 1];
      CollectAppend(keep, a, front);
    }
  }

  /** Scanning two runs of lines one after the other concatenates their
      lists: input order is kept and duplicates stay. */
  lemma AcceptedAppend(psl: string -> string, a: seq<string>, b: seq<string>)
    ensures Accepted(psl, a + b) == Accepted(psl, a) + Accepted(psl, b)
  {
    CollectAppend(KeepWith(psl), a, b);
  }

  /** A single line contributes exactly what Keep says. */
  lemma AcceptedSingle(psl: string -> string, line: string)
    ensures Accepted(psl, [line]) == Keep(psl, line)
  {
    assert [line][..0] == [];
    assert Accepted(psl, [line]) == Collect(KeepWith(psl), []) + KeepWith(psl)(line);
  }

  /** A line that does not split into exactly two fields adds nothing. */
  lemma MalformedLineSkipped(psl: string -> string, a: seq<string>, line: string, b: seq<string>)
    requires |Split(RecordBody(line), ", ")| != 2
    ensures Accepted(psl, a + [line] + b) == Accepted(psl, a + b)
  {
    AcceptedAppend(psl, a + [line], b);
    AcceptedAppend(psl, a, [line]);
    AcceptedAppend(psl, a, b);
    AcceptedSingle(psl, line);
  }

  /** An element is collected exactly when some line contributes it. */
  lemma {:induction false} CollectMember(keep: string -> seq<string>, lines: seq<string>, x: string)
    ensures x in Collect(keep, lines) <==> exists i :: 0 <= i < |lines| && x in keep(lines[i])
    decreases |lines|
  {
    if lines != [] {
      var last := |lines| - 1;
      var front := lines[..last];
      CollectMember(keep, front, x);
      assert forall i :: 0 <= i < last ==> front[i] == lines[i];
    }
  }

  /** A hostname is in the list exactly when some line parses to it and its
      domain label passes the alphabet check. */
  lemma AcceptedMember(psl: string -> string, lines: seq<string>, host: string)
    ensures host in Accepted(psl, lines) <==>
      exists i :: 0 <= i < |lines| && ParseRecord(lines[i]) == Some(host)
                  && IsVulnerable(SplitDomain(psl, host).domain)
  {
    CollectMember(KeepWith(psl), lines, host);
    forall i | 0 <= i < |lines|
      ensures host in Keep(psl, lines[i]) <==>
        ParseRecord(lines[i]) == Some(host) && IsVulnerable(SplitDomain(psl, host).domain)
    {
    }
  }

  /** Each line adds at most one hostname. */
  lemma {:induction false} AcceptedLength(psl: string -> string, lines: seq<string>)
    ensures |Accepted(psl, lines)| <= |lines|
    decreases |lines|
  {
    if lines != [] {
      AcceptedLength(psl, lines[..|lines| - 1]);
      assert |Keep(psl, lines[|lines| - 1])| <= 1;
    }
  }

  /** End to end: a well-formed record of a registered name directly under a
      strict public suffix is kept exactly when that name's own label is
      vulnerable. */
  lemma RecordUnderSuffix(psl: string -> string, index: string, domain: string, suffix: string)
    requires ',' !in index
    requires ',' !in domain && '\'' !in domain && '.' !in domain
    requires ',' !in suffix && '\'' !in suffix && suffix != ""
    requires psl(domain + "." + suffix) == suffix
    ensures Accepted(psl, [FormatRecord(index, domain + "." + suffix)])
         == if IsVulnerable(domain) then [domain + "." + suffix] else []
  {
    var host := domain + "." + suffix;
    ParseFormatRecord(index, host);
    StrictSuffixNoSubdomain(psl, domain, suffix);
    AcceptedSingle(psl, FormatRecord(index, host));
  }

  /** "[ 0, 'apple-pay.com' ]" under the suffix "com" is kept. The strings
      are parameters fixed by `requires` so that the verifier does not
      evaluate the parse of a literal line to its end. */
  lemma ApplePayKept(psl: string -> string, domain: string, suffix: string)
    requires domain == "apple-pay" && suffix == "com"
    requires psl(domain + "." + suffix) == suffix
    ensures Accepted(psl, [FormatRecord("0", domain + "." + suffix)]) == [domain + "." + suffix]
  {
    RecordUnderSuffix(psl, "0", domain, suffix);
  }

  /** "[ 0, 'google.com' ]" under the suffix "com" is dropped ('g'); the
      strings are fixed by `requires`, as in ApplePayKept. */
  lemma GoogleDropped(psl: string -> string, domain: string, suffix: string)
    requires domain == "google" && suffix == "com"
    requires psl(domain + "." + suffix) == suffix
    ensures Accepted(psl, [FormatRecord("0", domain + "." + suffix)]) == []
  {
    assert domain[0] == 'g' && 'g' !in Alphabet;
    RecordUnderSuffix(psl, "0", domain, suffix);
  }
}
