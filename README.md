# top-vulnerable-domains, modelled in Dafny

`top-vulnerable-domains` reads a scraped list of registered domain names. The
list has one record per line, in the form `[ <index>, '<hostname>' ]`. The
tool keeps the hostnames whose registrable label is spelled only with
characters from a fixed set of 13 easily exploitable characters, the names
a punycode homograph attack could imitate. This project models the tool's core
and proves properties of the model. The core has three parts:

- `splitDomain`, which splits a hostname into `(subdomain, domain, tld)`
  around its public suffix. It is the function `DomainSplit.SplitDomain`. The
  public-suffix lookup comes from a foreign library, so it is the parameter
  `psl: string -> string`.
- The alphabet of 13 exploitable characters and the check that every rune of
  the domain label is one of them. The alphabet is `Vulnerability.Alphabet`,
  the check is the predicate `Vulnerability.IsVulnerable`, and the rune loop
  is the method `Vulnerability.CheckLabel`, proved equal to the predicate.
- The body of the read loop: trim `"[ "` and `" ]\n"`, split on `", "`, skip
  lines without exactly two fields, strip `'` from the hostname, split it,
  and append it when its domain label passes. This is the method
  `Scanner.ScanLines`, proved equal to the function `Scanner.Accepted`.

The Go `strings` functions the code relies on are modelled on `seq<char>` in
module `GoStrings`: `Index`, `Split`, `Join`, `HasPrefix`, `HasSuffix`,
`TrimPrefix`, `TrimSuffix`, `TrimLeft`, `TrimRight` and `Trim`.

Files: `options.dfy` (Option), `go_strings.dfy`, `domain_split.dfy`,
`vulnerability.dfy`, `scanner.dfy`.

Under a strict suffix, tld keeps a leading dot (`main.go:60`):
`sub.example.co.uk` under `co.uk` gives `.co.uk`
(`DomainSplit.SubdomainUnderCoUk`). When the hostname is its own suffix
(lines 45-58), tld has no dot (`DomainSplit.CoUkIsOwnSuffix`).

## Model

| member | source | states |
|---|---|---|
| `GoStrings.Index` | top-vulnerable-domains/main.go:126 | the position found is an occurrence of the separator and no occurrence lies before it; None means there is no occurrence at all |
| `GoStrings.Split` | top-vulnerable-domains/main.go:46 | a split always has at least one piece, and no piece contains the separator |
| `GoStrings.Join` | top-vulnerable-domains/main.go:54 | strings.Join: the pieces with the separator between neighbours; JoinSplit, SplitJoin and JoinSnoc state what it gives back |
| `GoStrings.JoinSplit` | top-vulnerable-domains/main.go:62 | joining the pieces of a split with its separator gives back the original string |
| `GoStrings.SplitJoin` | top-vulnerable-domains/main.go:46-56 | splitting the join of pieces that lack the separator's first character gives back exactly those pieces |
| `GoStrings.TrimPrefix` | top-vulnerable-domains/main.go:123 | when the line starts with the prefix, prefix + result is the line; otherwise the line is unchanged |
| `GoStrings.TrimSuffix` | top-vulnerable-domains/main.go:124 | when the string ends with the suffix, result + suffix is the string; otherwise it is unchanged |
| `GoStrings.TrimLeft` | top-vulnerable-domains/main.go:131 | the result is a suffix of the input that does not start with a cutset character, and every character dropped is in the cutset |
| `GoStrings.TrimRight` | top-vulnerable-domains/main.go:131 | the result is a prefix of the input that does not end with a cutset character, and every character dropped is in the cutset |
| `GoStrings.Trim` | top-vulnerable-domains/main.go:131 | the result occurs inside the input, and neither of its ends is a cutset character |
| `GoStrings.TrimAround` | top-vulnerable-domains/main.go:131 | Trim removes exactly the runs of cutset characters around a core whose ends are not in the cutset, however long those runs are |
| `DomainSplit.SplitDomain` | top-vulnerable-domains/main.go:41-71 | in every case the domain part contains no "." |
| `DomainSplit.EmptyHost` | top-vulnerable-domains/main.go:42-44 | the empty hostname gives ("", "", "") whatever the suffix lookup returns |
| `DomainSplit.SelfSuffixOneLabel` | top-vulnerable-domains/main.go:45-49 | a dotless hostname that is its own suffix gives ("", host, "") |
| `DomainSplit.SelfSuffixTwoLabels` | top-vulnerable-domains/main.go:45-52 | a two-label hostname d.t that is its own suffix gives ("", d, t), and t has no leading dot |
| `DomainSplit.SelfSuffixManyLabels` | top-vulnerable-domains/main.go:45-58 | a hostname s.d.t that is its own suffix, with d and t dotless, gives (s, d, t): the last two labels, and everything before them as subdomain |
| `DomainSplit.StrictSuffixTld` | top-vulnerable-domains/main.go:59-60 | a non-empty suffix that is not the hostname itself comes back as tld "." + suffix |
| `DomainSplit.NoSuffix` | top-vulnerable-domains/main.go:59-69 | with an empty suffix, tld is "" and the hostname is exactly subdomain + "." + domain when it has a dot; a dotless hostname gives ("", host, "") |
| `DomainSplit.Remainder` | top-vulnerable-domains/main.go:62-69 | unless the hostname is its own suffix, if the hostname minus tld is s + "." + d with d dotless, then subdomain is s and domain is d |
| `DomainSplit.SplitLast` | top-vulnerable-domains/main.go:62-69 | a dotless name splits into itself alone; a dotted name has two or more pieces and is the front pieces joined, a dot, and the last piece |
| `DomainSplit.Reassembly` | top-vulnerable-domains/main.go:62-69 | unless the hostname is its own suffix, when it ends with tld it equals domain + tld with an empty subdomain when the rest has no dot, and subdomain + "." + domain + tld when the rest has one |
| `DomainSplit.StrictSuffixParts` | top-vulnerable-domains/main.go:59-69 | s.d.suffix under a strict suffix gives (s, d, "." + suffix) |
| `DomainSplit.StrictSuffixNoSubdomain` | top-vulnerable-domains/main.go:59-66 | d.suffix under a strict suffix gives ("", d, "." + suffix) |
| `DomainSplit.CoUkIsOwnSuffix` | top-vulnerable-domains/main.go:45-52 | "co.uk", when it is its own suffix, gives ("", "co", "uk") |
| `DomainSplit.SubdomainUnderCoUk` | top-vulnerable-domains/main.go:59-69 | "sub.example.co.uk" under "co.uk" gives ("sub", "example", ".co.uk") |
| `Vulnerability.IsVulnerable` | top-vulnerable-domains/main.go:134-138 | every character of the domain label is in the alphabet, so the empty label passes; CheckLabel is proved equal to it |
| `Vulnerability.CheckLabel` | top-vulnerable-domains/main.go:134-138 | the rune loop, stopping at the first character outside the alphabet, answers true exactly when every character is in the alphabet |
| `Vulnerability.Alphabet` | top-vulnerable-domains/main.go:25-39 | the fixed set a p l e c x s y j i h o - of exploitable characters |
| `Vulnerability.AlphabetSize` | top-vulnerable-domains/main.go:25-39 | the alphabet has 13 distinct characters |
| `Vulnerability.Examples` | top-vulnerable-domains/main.go:25-39 | "" and "apple" pass; "google" fails |
| `Scanner.RecordBody` | top-vulnerable-domains/main.go:123-124 | a line with "[ " trimmed from its front and " ]\n" from its end, each once if present |
| `Scanner.ParseRecord` | top-vulnerable-domains/main.go:123-131 | a line gives no hostname exactly when its trimmed body does not split on ", " into two fields; an extracted hostname lies inside the second field and neither starts nor ends with "'" |
| `Scanner.ParseFormatRecord` | top-vulnerable-domains/main.go:123-131 | parsing "[ i, 'h' ]\n" gives back h when i and h contain no ',' and h contains no "'" |
| `Scanner.Keep` | top-vulnerable-domains/main.go:131-140 | a line adds at most one hostname; it adds something exactly when it parses and the hostname's domain label is vulnerable, and what it adds is that hostname |
| `Scanner.Accepted` | top-vulnerable-domains/main.go:111-141 | the list the read loop builds: each line's Keep, in input order; AcceptedAppend, AcceptedMember, MalformedLineSkipped and AcceptedLength state its properties |
| `Scanner.ScanLines` | top-vulnerable-domains/main.go:111-141 | the read loop builds exactly Accepted of the lines; nothing else changes the list |
| `Scanner.CollectAppend` | top-vulnerable-domains/main.go:140 | collecting a + b gives the list for a followed by the list for b |
| `Scanner.AcceptedAppend` | top-vulnerable-domains/main.go:140 | scanning a + b gives the list for a followed by the list for b: input order is kept and duplicates stay |
| `Scanner.AcceptedSingle` | top-vulnerable-domains/main.go:126-140 | a one-line input gives exactly what Keep gives for that line |
| `Scanner.MalformedLineSkipped` | top-vulnerable-domains/main.go:126-129 | inserting a line that does not have exactly two fields anywhere in the input leaves the list unchanged |
| `Scanner.CollectMember` | top-vulnerable-domains/main.go:140 | a value is collected exactly when some line contributes it |
| `Scanner.AcceptedMember` | top-vulnerable-domains/main.go:132-140 | a hostname is in the list exactly when some line parses to it and its domain label is vulnerable |
| `Scanner.AcceptedLength` | top-vulnerable-domains/main.go:140 | the list is no longer than the input |
| `Scanner.RecordUnderSuffix` | top-vulnerable-domains/main.go:123-140 | the record of d.suffix, under a strict suffix, is kept exactly when d is vulnerable |
| `Scanner.ApplePayKept` | top-vulnerable-domains/main.go:123-140 | "[ 0, 'apple-pay.com' ]" under the suffix "com" gives ["apple-pay.com"] |
| `Scanner.GoogleDropped` | top-vulnerable-domains/main.go:123-140 | "[ 0, 'google.com' ]" under the suffix "com" gives [] |

## Left out

- The public-suffix algorithm (`golang.org/x/net/publicsuffix`, line 45) is a foreign library. It is the parameter `psl`, with no Public Suffix List rules, and its unused ICANN flag is dropped.
- Flag parsing, `usage`, opening the file, the `log.Fatal` exits and the final printing (lines 73-105 and 143-144) are I/O and are not modelled.
- `bufio.Reader.ReadString` and end-of-file handling (lines 115-121) are I/O. The input is the sequence of lines the reader returned without error, each with its "\n". The Go loop also drops a last line that has no newline; that is not modelled.
- The line counter `pos` and the `log.Printf` calls (lines 109, 113, 118) only affect logging and are left out.
- A Go string is a byte string that `range` decodes as UTF-8. Here a string is `seq<char>`, so the replacement of invalid bytes is not modelled.
- GoStrings.Split: requires a non-empty separator. Go's split of a string into single characters on "" is left out because the core only splits on "." and ", ".
- Scanner.ScanLines: calls `CheckLabel` for the rune loop of lines 134-138 instead of repeating it inline with a labelled `continue`. Both leave the list unchanged when a character is outside the alphabet.
