# Domain-hack finder: matcher model

A Dafny model of the domain-hack matcher of `domain-hack-finder`
(`backend/domainHack.ts`). Given a user query and a catalog of top-level
domains, the matcher suggests every split of the query into a non-empty left
label and a catalog TLD, such as `hel.lo` for the query `hello`, and marks
each suggestion available when public DNS reports no NS record for it.

The model has five modules, one per file:

- `Text` (`text.dfy`) holds the character classes, ASCII lower-casing and
  the code-point lexicographic order.
- `Catalog` (`catalog.dfy`) builds the TLD catalog from the raw list. It
  lower-cases every entry and sorts longest first, ties in ascending order.
  `Prepare` returns a well-ordered, lower-case permutation of the
  lower-cased list, and `PrepareUnique` shows that this permutation is the
  only one.
- `Query` (`query.dfy`) models `normalizeQuery`: trim, lower-case, delete
  all whitespace. The normalised query is exactly the lower-cased
  non-whitespace characters of the input. It has neither whitespace nor
  upper-case letters, and normalising twice gives the same result.
- `DomainHack` (`domain_hack.dfy`) models `findByTld` and `findDomainHacks`
  and the `DomainHackSuggestion` record. The result has exactly one
  suggestion per catalog entry that is a proper suffix of the normalised
  query. Results are in catalog order and describe their split. The DNS
  resolver is consulted only for the suggested domains, and not at all for
  a blank query.
- `Wrappers` (`wrappers.dfy`) holds the `Option` type that stands for `null`.

The DNS-over-HTTPS lookup is a parameter `ns: string -> nat`. It gives the
number of records in the Answer section of the resolver's response for a
domain name. A suggestion is available exactly when that number is zero. The
catalog is an explicit `seq<string>`.

Catalog entries carry no leading dot, because the code adds the `.` itself
when it builds the domain. A catalog entry written with a leading dot, such
as `.io`, would give the domain `hello..io` for the query `hello.io`.
Likewise, a query that already contains a dot before the TLD (`hello.io`
with the entry `io`) gives the left part `hello.` and the domain
`hello..io`. An empty string in the TLD list is a suffix of every query, so
it gives the domain `<query>.`. The model keeps all three behaviours.

## Model

| member | source | states |
|---|---|---|
| `Text.LexLe` | backend/domainHack.ts:7 | the tie-break order agrees with Dafny's prefix order: a prefix comes first, and a proper extension never comes first |
| `Text.LexLeTotal` | backend/domainHack.ts:7 | any two strings are ordered one way or the other by the tie-break |
| `Text.LexLeAntisymmetric` | backend/domainHack.ts:7 | two strings ordered both ways by the tie-break are equal |
| `Text.LexLeTransitive` | backend/domainHack.ts:7 | the tie-break order is transitive |
| `Text.LocaleCompare` | backend/domainHack.ts:7 | the string comparison is zero exactly for equal strings, non-positive exactly when the first string comes no later, and negative only when the second does not come first |
| `Catalog.Compare` | backend/domainHack.ts:7 | the comparator is zero exactly for equal strings, puts the longer string first, and for equal lengths is non-positive exactly when the first string comes no later in the tie-break order |
| `Catalog.PrecedesIsCompare` | backend/domainHack.ts:7 | "longer first, equal lengths ascending" holds exactly when the comparator is not positive |
| `Text.ToLower` | backend/domainHack.ts:6 | lower-casing keeps the length, leaves no upper-case letter, and changes nothing in a string without upper-case letters |
| `Catalog.PrecedesTotal` | backend/domainHack.ts:7 | the sort comparator orders every pair of TLDs one way or the other |
| `Catalog.PrecedesAntisymmetric` | backend/domainHack.ts:7 | two TLDs that each may precede the other are equal, so ties happen only between equal strings |
| `Catalog.PrecedesTransitive` | backend/domainHack.ts:7 | the comparator order is transitive |
| `Catalog.WellOrderedIsSorted` | backend/domainHack.ts:6-8 | when adjacent catalog entries are in comparator order, every pair of entries is |
| `Catalog.LowerAll` | backend/domainHack.ts:6 | the lower-cased list has the raw list's length and only lower-case entries |
| `Catalog.Insert` | backend/domainHack.ts:6-8 | inserting a TLD into a well-ordered list adds exactly that TLD and keeps the list well-ordered |
| `Catalog.Sort` | backend/domainHack.ts:6-8 | the sorted list is a permutation of its input and is well-ordered |
| `Catalog.Prepare` | backend/domainHack.ts:6-8 | the catalog is a permutation of the lower-cased raw list, is well-ordered (longest first, ties ascending) and has only lower-case entries |
| `Catalog.SortedHeadFirst` | backend/domainHack.ts:6-8 | the first entry of a sorted catalog precedes every entry |
| `Catalog.SortedUnique` | backend/domainHack.ts:6-8 | two sorted lists with the same entries are equal |
| `Catalog.PrepareUnique` | backend/domainHack.ts:6-8 | any well-ordered permutation of the lower-cased raw list is the catalog the code builds |
| `Query.TrimStart` | backend/domainHack.ts:19 | dropping leading whitespace leaves a suffix of the string, everything dropped is whitespace, and the result does not start with whitespace |
| `Query.TrimEnd` | backend/domainHack.ts:19 | dropping trailing whitespace leaves a prefix of the string, everything dropped is whitespace, and the result does not end with whitespace |
| `Query.Trim` | backend/domainHack.ts:19 | the trimmed string neither starts nor ends with whitespace |
| `Query.TrimSlice` | backend/domainHack.ts:19 | the trimmed string is a contiguous slice of the input with only whitespace before and after it |
| `Query.StripSpace` | backend/domainHack.ts:19 | deleting whitespace leaves no whitespace, keeps every other character as many times as it occurred, never lengthens, keeps a string without upper-case letters so, and changes nothing in a string without whitespace |
| `Query.Normalize` | backend/domainHack.ts:18-20 | the normalised query has no whitespace and no upper-case letter |
| `Query.NormalizeIsVisible` | backend/domainHack.ts:18-20 | the normalised query is exactly the lower-cased non-whitespace characters of the raw query, in order, so trimming first changes nothing |
| `Query.NormalizeEmptyIff` | backend/domainHack.ts:18-20 | the normalised query is empty exactly when the raw query is empty or all whitespace |
| `Query.NormalizeClean` | backend/domainHack.ts:18-20 | a query without whitespace or upper-case letters is already normal |
| `Query.NormalizeIdempotent` | backend/domainHack.ts:18-20 | normalising twice gives the same result as normalising once |
| `DomainHack.EndsWithSplit` | backend/domainHack.ts:23 | a string ends with a suffix exactly when some prefix followed by the suffix is the string |
| `DomainHack.FindByTld` | backend/domainHack.ts:22-48 | the result is non-null exactly when the TLD ends the query and leaves a non-empty left part; a result carries that TLD, `left + tld` is the query, the domain is `left.tld`, the host is the domain, and it is available exactly when the resolver reports zero answer records |
| `DomainHack.FindByTldSomeIff` | backend/domainHack.ts:23-30 | the result is non-null exactly when some non-empty `left` satisfies `left + tld == query` |
| `DomainHack.FindByTldSplit` | backend/domainHack.ts:27-46 | for any non-empty `left`, the query `left + tld` yields the suggestion `left.tld` with that left part and TLD |
| `DomainHack.FindByTldWholeQuery` | backend/domainHack.ts:27-30 | a query equal to the TLD yields no suggestion for it |
| `DomainHack.DescribesUnique` | backend/domainHack.ts:41-46 | a query and a TLD determine the suggestion completely |
| `DomainHack.Present` | backend/domainHack.ts:59 | dropping the nulls never lengthens the list and keeps only values that were present (`PresentKeeps` and `PresentAppend` give the converse, the counts and the order) |
| `DomainHack.Probe` | backend/domainHack.ts:57 | mapping `findByTld` over the catalog gives one entry per TLD |
| `DomainHack.ProbeAt` | backend/domainHack.ts:57 | the entry at each position is `findByTld` of the catalog TLD at that position |
| `DomainHack.PresentKeeps` | backend/domainHack.ts:59 | a value is kept exactly when it was present, and it is kept as many times as it was present |
| `DomainHack.PresentAppend` | backend/domainHack.ts:59 | filtering a concatenation is the concatenation of the filtered parts, so the filter keeps order |
| `DomainHack.ProbeMembers` | backend/domainHack.ts:57 | mapping `findByTld` over the catalog gives one entry per TLD, and every non-null entry carries a catalog TLD and describes its split |
| `DomainHack.FindDomainHacks` | backend/domainHack.ts:51-60 | there are at most as many suggestions as catalog entries; each has a catalog TLD, a non-empty left part with `left + tld` equal to the normalised query, domain `left.tld`, host equal to domain, and availability exactly when the resolver reports zero answer records |
| `DomainHack.Candidates` | backend/domainHack.ts:57-59 | the candidate TLDs are catalog entries that are proper suffixes of the query, and there are no more of them than catalog entries |
| `DomainHack.CandidatesCount` | backend/domainHack.ts:57-59 | each catalog entry that is a proper suffix appears among the candidates exactly as often as in the catalog, and no other string appears |
| `DomainHack.CandidatesSubsequence` | backend/domainHack.ts:57-59 | the candidates are the catalog with some entries deleted, so catalog order is kept |
| `DomainHack.CandidatesSorted` | backend/domainHack.ts:57-59 | the candidates of a sorted catalog are sorted |
| `DomainHack.PresentProbe` | backend/domainHack.ts:57-59 | mapping then filtering yields one suggestion per candidate TLD, in order, each describing its split |
| `DomainHack.FindDomainHacksSpec` | backend/domainHack.ts:51-60 | an empty normalised query gives no suggestions; otherwise the suggestions' TLDs are exactly the candidate TLDs in catalog order, and every suggestion describes its split of the normalised query |
| `DomainHack.FindDomainHacksOrdered` | backend/domainHack.ts:57-59 | over a well-ordered catalog the suggestions come longest TLD first, and their TLDs are a subsequence of the catalog |
| `DomainHack.FindDomainHacksComplete` | backend/domainHack.ts:57-59 | every catalog entry that is a proper suffix of the normalised query has a suggestion |
| `DomainHack.Lookups` | backend/domainHack.ts:32-41 | no lookup for an empty normalised query; otherwise one lookup per candidate TLD, in catalog order, each the domain `left.tld` of the candidate's split of the normalised query |
| `DomainHack.LookupsAreDomains` | backend/domainHack.ts:32-41 | the domains sent to the resolver are exactly the domains of the returned suggestions, in order |
| `DomainHack.DescribesAgree` | backend/domainHack.ts:41-47 | two resolvers that agree on a suggestion's domain yield the same suggestion |
| `DomainHack.FindDomainHacksOracleLocal` | backend/domainHack.ts:32-47 | the result depends on the resolver only at the looked-up domains |
| `DomainHack.BlankQueryNoLookups` | backend/domainHack.ts:52-55 | a blank or all-whitespace query gives no suggestions and no lookups |
| `DomainHack.ExampleHelLo` | backend/domainHack.ts:27-47 | the normalised query `hello` with the TLD `lo` yields exactly the suggestion with domain and host `hel.lo`, TLD `lo` and left part `hel` |

## Left out

- Reading and parsing `tld-list.json` (backend/domainHack.ts:1-4): file I/O. The raw list is a parameter of `Catalog.Prepare`.
- The `fetch` to the DNS-over-HTTPS endpoint and `res.json()` (backend/domainHack.ts:32-39): network I/O. The oracle `ns` replaces them; `(Answer ?? []).length` is its value.
- `encodeURIComponent` on the left part (backend/domainHack.ts:33): it affects only the request URL. The oracle takes the unencoded domain `left.tld`.
- Failed or malformed lookups: a rejected `fetch` rejects the whole `Promise.all` at runtime. The oracle is total, so the model has no failures.
- `Promise.all` concurrency (backend/domainHack.ts:57): only its order-preserving result is modelled, as a sequential map.
- Unicode case mapping: `Text.ToLower` changes only `A`..`Z`, whereas `toLowerCase` also maps non-ASCII letters.
- Locale-sensitive `localeCompare` (backend/domainHack.ts:7): modelled as code-point lexicographic order (`Text.LocaleCompare`). The two can disagree on entries with non-ASCII characters, where collation is not code-point order.
- `Text.LocaleCompare`: states zero only for equal strings. A locale where `localeCompare` returns zero for two distinct strings would make the stable sort keep their input order, and then `Catalog.PrepareUnique` no longer fixes the catalog.
- Strings are sequences of code points. JavaScript strings are UTF-16 code units, so lengths differ for characters outside the Basic Multilingual Plane.
- `backend/server.ts` as a whole: HTTP serving, port configuration, static files and JSON responses. Its own `trim` before the call is also left out.
