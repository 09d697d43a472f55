# Security reconciliation and symbol parsing, modelled in Dafny

The system keeps a table of listed securities. It periodically fetches the full
list of stocks from IEX and compares it with the stored list. An `iex.Stock`
record has ten fields, and two records are the same only when all ten are
equal. The comparison sorts the records into:

- **updates**: a stored record paired with the fetched record that has the same
  IEX identifier but differs in some other field;
- **ends** (deletes): stored differences (stored records equal to no fetched
  record) whose identifier no fetched difference carries;
- **additions**: fetched records with no stored counterpart.

There are two revisions of this engine, and both are modelled:

- `StockResolver.Differences` and `Reconcile` in `app/application.go` (module
  `App`).
- `Resolve` and its helpers in `iex/resolver.go` (module `Resolver`).

Both run the same two phases:

1. A full-value set difference in each direction.
2. A join on the IEX identifier over the two differences, through indexes from
   identifier to position. In these indexes a repeated identifier keeps its
   last position.

The second part of the model is the text processing that feeds the security
universe:

- `normalizeSymbol` and `parseSecurities` (module `Securities`). They normalise
  symbols, drop symbols of eight bytes or more, and keep the first occurrence of
  each symbol.
- The SEC symbol-to-CIK table: `parsecikcode`, `NewCikCodeMap`, the per-line
  store of `Build`, and `Find` (module `CikCodes`, a class whose `codes` map
  `Build` updates in place).

`fetchdata.go` holds the same functions as `securities/fetchdata.go` and
`db/cikcodes.go`. The modelled functions are identical apart from the name of the
URL constant (`urlString` instead of `cikURL`), which holds the same string.
`fetchdata.go` has no `init` and no package-level `ccm`, which are not modelled
anyway. The members below therefore model both copies, and rows cite whichever
copy they name.

Shared definitions:

- `Seqs`: order-preserving filtering, duplicate-freedom, images of maps.
- `Stocks`: the record, the identifier index, and the identity join stated as
  functions.
- `GoStrings`: `strings.Fields`, `strings.ReplaceAll`, ASCII `strings.ToUpper`,
  `strconv.Atoi`/`Itoa`, and the UTF-8 byte length behind Go's `len`.

Go iterates over a map in an unspecified order. A loop over a map is modelled
as picking any key not yet visited, and whatever depends on that order is
stated as set facts.

Where the expected behaviour (each stored and fetched record classified once)
and the code disagree, the model follows the code:

- The code keeps no count of duplicate identifiers.
- An earlier duplicate on the new side is reported as an addition
  (`App.DuplicateNewIdScenario`).
- An earlier duplicate on the old side lands in no category at all when a later
  stored record with its identifier is itself an old-side difference
  (`App.ShadowedOldDuplicate`). When that later record is unchanged, it does not
  shadow the earlier one, which becomes an end although its identifier is still
  listed (`App.UnchangedTwinScenario`).
- So the record-by-record accounting holds exactly, and the count identities
  hold only when identifiers are unique (`App.CountsWithUniqueIds`).

## Model

| member | source | states |
|---|---|---|
| Seqs.Minus | app/application.go:126-131 | the "append x when not found" loop keeps exactly the elements of the list that are not in the dropped set, and never grows the list |
| Seqs.MinusCount | app/application.go:127-131 | every kept element keeps its multiplicity; dropped elements occur zero times |
| Seqs.MinusAppend | app/application.go:127-131 | filtering keeps the input order: filtering a concatenation is the concatenation of the filtered parts |
| Stocks.Index | iex/resolver.go:42-52 | the identifier index has exactly the list's identifiers as keys, and each maps to a valid position holding a record with that identifier |
| Stocks.IndexIsLast | app/application.go:196-203 | no record after the indexed position carries the identifier: the index keeps the last occurrence |
| Stocks.LatestUnique | app/application.go:196-203 | when identifiers are unique every record survives indexing |
| Stocks.SurvivorsCard | app/application.go:196-203 | indexing keeps exactly one record per identifier |
| Stocks.LatestIsLast | app/application.go:196-203 | a record survives indexing if and only if it occurs at a position that no later record with its identifier follows |
| Stocks.LatestCard | app/application.go:196-203 | there are exactly as many surviving records as identifiers |
| Stocks.UpdatesSides | app/application.go:207-210 | the update keys are the old side's surviving records with shared identifiers, and the values are the new side's surviving records with those identifiers |
| App.SetDifference | app/application.go:121-133 | `setDifference(A, B)` is `B` filtered by value-membership in `A`, in `B`'s order |
| App.StockResolver.Differences | app/application.go:150-172 | returns the old records equal to no new record and the new records equal to no old record, each in its input's order; no record is in both results |
| App.IndexOf | app/application.go:196-203 | the `mapA`/`mapB` loops build the identifier index |
| App.Join | app/application.go:204-214 | the loop over `mapA`, in any key order, builds the updates of the identity join, a `tempB` holding exactly the update values, and ends with no repeats that are exactly the old survivors whose identifier the new side lacks |
| App.StockResolver.Reconcile | app/application.go:194-226 | the updates are the identity join; the ends are the unmatched old survivors, each once; the additions are the new-side differences that are no update's new half, in order |
| App.NoChangeIsNoOp | app/application.go:194-226 | comparing a list with itself gives empty differences, no updates, no ends and no additions |
| App.Bootstrap | app/application.go:215-224 | against an empty stored list every fetched record is an addition, in order |
| App.UpdatePairs | app/application.go:207-210 | every update pairs an old-side difference with a new-side difference that has the same identifier and is a different record |
| App.EndsUnmatched | app/application.go:211-213 | every end is an old-side difference whose identifier no new-side difference carries, and no addition shares its identifier |
| App.AddsCharacterized | app/application.go:215-224 | a new-side difference is an addition if and only if its identifier is new or it is not the record the index kept |
| App.ShadowedOldDuplicate | app/application.go:196-213 | an old-side difference shadowed by a later old-side difference with its identifier is neither updated nor ended |
| App.OldRecordClassified | app/application.go:194-214 | every stored record is exactly one of: unchanged, updated, ended, or shadowed |
| App.NewRecordClassified | app/application.go:194-224 | every fetched record is exactly one of: unchanged, the new half of an update, or an addition |
| App.CountsWithUniqueIds | app/application.go:196-224 | with unique identifiers on each side, the old-side differences number the updates plus the ends, and the new-side differences number the updates plus the additions |
| App.UpdatesCard | app/application.go:207-210 | there is one update per shared identifier, and their new halves are all different |
| App.EndsCard | app/application.go:211-213 | there is one end per identifier that only the old side has |
| App.RenameIsUpdate | app/application.go:207-210 | with unique identifiers, an old and a new record that share an identifier but differ elsewhere form an update, and neither is an end or an addition |
| App.RenameScenario | app/application.go:194-226 | old `[foo, bar]` against new `[foox, baz]`, where foo and foox share an identifier, gives the update foo to foox, the end bar and the addition baz |
| App.DuplicateNewIdScenario | app/application.go:200-224 | two fetched records with the stored record's identifier: the later one becomes the update, the earlier one is reported as an addition |
| App.UnchangedTwinScenario | app/application.go:121-226 | a stored record followed by a stored twin with its identifier, against a fetched list holding the twin unchanged: no update, the first record is an end although its identifier is still listed, no addition |
| Resolver.MakeStockSets | iex/resolver.go:5-15 | the two record lists as sets |
| Resolver.MakeIntSet | iex/resolver.go:17-23 | a list of positions as a set |
| Resolver.Diffs | iex/resolver.go:25-40 | the value differences in each direction, order-preserving: the same as `App`'s phase 1 |
| Resolver.IdMap | iex/resolver.go:42-52 | both loops build the identifier index of their list |
| Resolver.FindUpdates | iex/resolver.go:54-66 | in any visiting order, `m` maps the old positions of the shared identifiers to their new positions; `ixA` lists the old-only identifiers once each, in some order, with each entry the old position of its own identifier; `ixB` does the same for the shared identifiers and their new positions |
| Resolver.FindUpdatesCounts | iex/resolver.go:54-66 | for an injective `mA`, the sizes of `m` and `ixA` add up to the size of `mA`, and `ixB` is as long as `m` is large |
| Resolver.MapValues | iex/resolver.go:68-74 | the map's keys are visited once each, in some order, and the result holds the value of each visited key at its position, so a value shared by two keys occurs twice; no value is repeated when the map is injective |
| Resolver.Subset | iex/resolver.go:76-85 | the positions of `b` that are not in `bp`, in `b`'s order |
| Resolver.Changes | iex/resolver.go:87-89 | the map's values, one per key in some key order, filtered by `bp` in that order; as a set, the values not in `bp`, each once for an injective map |
| Resolver.ExtractGroup | iex/resolver.go:91-97 | as written: the first `len(xi)` records of `A`, whatever positions `xi` holds |
| Resolver.ExtractGroupAt | iex/resolver.go:91-97 | intended: the record at each position `xi` holds, in `xi`'s order |
| Resolver.ExtractFromMap | iex/resolver.go:99-105 | the translator's keys are the records at `t`'s keys; every pair comes from an entry of `t`; when those records are distinct each is sent to the record at its paired position |
| Resolver.AddIndices | iex/resolver.go:111-112 | the positions `changes` leaves are those of the new-side survivors with new identifiers, one per identifier |
| Resolver.TranslatorUpdates | iex/resolver.go:111-113 | translating the position pairs of `findUpdates` gives exactly the identity join |
| Resolver.AsWritten | iex/resolver.go:114-115 | the deletes and additions are no longer than the difference lists they are cut from, so `extractGroup` stays in range |
| Resolver.Resolve | iex/resolver.go:108-117 | the updates are the identity join of the differences; the deletes and additions are prefixes of the differences whose lengths are the numbers of old-only and new-only identifiers |
| Resolver.AsWrittenExactWhen | iex/resolver.go:91-97 | with unique identifiers, the deletes are exactly the ends if and only if the first N old-side differences all carry identifiers the new side lacks, N being the number of deletes; likewise the additions are exactly the newly introduced survivors if and only if the first M new-side differences carry identifiers the old side lacks |
| Resolver.ResolveCounts | iex/resolver.go:111-115 | there are as many deletes as old-only identifiers, as many updates as shared identifiers, and as many additions as new-side identifiers minus updates |
| Resolver.ResolveUpdatePairs | iex/resolver.go:99-105 | every update of `Resolve` pairs an old-side difference with a different new-side difference that has the same identifier |
| Resolver.ResolveNoChange | iex/resolver.go:108-117 | resolving a list against itself gives nothing |
| Resolver.ResolveBootstrap | iex/resolver.go:108-117 | against an empty stored list with unique fetched identifiers, the additions are the whole fetched list and there are no updates or deletes |
| Resolver.PrefixBugWitness | iex/resolver.go:93-95 | on the rename scenario, `Resolve` updates foo, deletes foo and adds foox, while the identity join ends bar and introduces baz |
| Resolver.ResolveFixed | iex/resolver.go:108-117 | with the intended `extractGroup`, the updates are the identity join, the deletes are exactly the ends, each once, and the additions are exactly the new-side survivors with new identifiers, each once |
| Resolver.FixedAgreesWithApp | iex/resolver.go:114-115 | with unique fetched identifiers, the corrected additions are exactly the working revision's additions |
| GoStrings.FieldsAppend | db/cikcodes.go:62 | `strings.Fields` of two strings joined by white space is the fields of each, concatenated |
| GoStrings.Utf8Len | securities/fetchdata.go:41-44 | Go's `len` counts UTF-8 bytes, between one and four per character |
| GoStrings.Utf8LenAscii | securities/fetchdata.go:42 | for an ASCII symbol, the byte length that the expiry check compares with 8 is its number of characters |
| GoStrings.AtoiItoa | db/cikcodes.go:64-67 | `strconv.Atoi` reads back every 64-bit value `strconv.Itoa` writes |
| Securities.NormalizeSymbol | securities/fetchdata.go:32-34 | the normalised symbol is a non-empty word with no white space and no `/`, as long as the first field |
| Securities.NormalizeFirstField | securities/fetchdata.go:33 | only the first field counts: a word followed by white space and anything else normalises to the word with `/` rewritten to `.` |
| Securities.NormalizeIdempotent | fetchdata.go:90-92 | normalising a normalised symbol changes nothing |
| Securities.ParseSecurities | securities/fetchdata.go:36-52 | the loop with its `exists` set returns the symbol list defined line by line: a line adds its normalised symbol unless it is expired or already listed |
| Securities.ParsedDistinct | securities/fetchdata.go:45-49 | no symbol is listed twice |
| Securities.ParsedShort | securities/fetchdata.go:41-44 | every listed symbol is shorter than eight bytes, has no white space and no `/` |
| Securities.ParsedMembers | fetchdata.go:97-108 | a symbol is listed if and only if some line normalises to it and it is shorter than eight bytes |
| Securities.ParsedOrder | fetchdata.go:103-107 | symbols are listed in the order of their first line; later repeats are skipped |
| CikCodes.ParseCikCode | db/cikcodes.go:61-69 | a line with two fields and a numeric second field gives an upper-case non-empty word and a 64-bit value |
| CikCodes.CikRoundTrip | fetchdata.go:80-88 | a symbol, white space and a number written out parse back to the upper-cased symbol and the same number |
| CikCodes.CikExtraFields | db/cikcodes.go:62-68 | fields after the second are ignored |
| CikCodes.CikCodeMap.constructor | db/cikcodes.go:27-32 | a new table points at the SEC ticker endpoint and holds no codes |
| CikCodes.CikCodeMap.Store | db/cikcodes.go:50-51 | one line stores its symbol's code, overwriting any earlier code, and keeps the table the fold of the lines read |
| CikCodes.CikCodeMap.Build | db/cikcodes.go:43-52 | the read loop stores every line in order; the endpoint is unchanged and the table stays the fold of every line read |
| CikCodes.FillKeys | db/cikcodes.go:50-51 | the table holds exactly the symbols it held before and the symbols of the lines read: one entry per distinct symbol |
| CikCodes.FillLastWins | fetchdata.go:69-70 | the last line for a symbol decides its code |
| CikCodes.FillUnlisted | db/cikcodes.go:43-52 | a symbol that no line names keeps what it had |
| CikCodes.FillLookup | fetchdata.go:76-78 | a lookup in the filled table gives the code of the symbol's last line, or the previous value if no line names it |
| CikCodes.CikCodeMap.Find | db/cikcodes.go:57-59 | `Find` returns the code of the last line read for the symbol, or 0 when no line named it |

## Left out

- Printing: `DifferencesFormatted` (app/application.go) and `FormatOutput` (iex/resolver.go) only print.
- Orchestration in app/application.go: `Start`, `End`, `Seed`, `Complete*` and `RefreshStocks` sequence database and HTTP calls.
- I/O in `NewSecuritySlice` and `Build`:
  - Neither the file and CSV reading in `NewSecuritySlice` nor the HTTP request and line reader in `Build` is modelled, and neither are their error returns.
  - `ParseSecurities` is given the parsed CSV records.
  - `Build` is given the lines it would read.
- The package-level `init` in db/cikcodes.go builds a global table over the network. It is left out.
- Go panics are preconditions:
  - a record with no columns or a symbol with no field (`normalizeSymbol`, `parseSecurities`);
  - a CIK line with fewer than two fields, or a second field `strconv.Atoi` rejects (`parsecikcode`);
  - `extractGroup` on a position list longer than its record list;
  - `extractFromMap` on positions outside its lists.
- Strings are sequences of Unicode code points. `string(bs)` on bytes that are not valid UTF-8 is not modelled, and neither is a CIK line that holds such bytes.
- GoStrings.ToUpper: upper-cases only the ASCII letters `a` to `z`. Go's `strings.ToUpper` maps every Unicode lower-case letter, and SEC tickers are ASCII.
- GoStrings.Atoi: reads an optional sign and decimal digits within the 64-bit `int` range, as `strconv.Atoi` does on 64-bit platforms. The error value is not modelled beyond the precondition.
- App.StockResolver.Reconcile: the order of the ends is not stated. It comes from Go's map iteration, so only their set and the absence of repeats are stated.
- Resolver.Changes: does not fix the order of the result, which follows Go's map order. The result is stated for the order in which the keys were visited, which the model leaves open.
- Resolver.MapValues: does not fix the order of the values, for the same reason. The key order is a ghost result.
- Resolver.FindUpdates: the pairing `m[mA[k]] == mB[k]` is stated only for an injective `mA`. Otherwise a later identifier may overwrite an earlier one's entry. `Resolve` always passes an identifier index, which is injective.
- There is no duplicate-identifier count: the code computes none.
- Resolver.ResolveFixed: the order of the corrected deletes and additions is not stated, since it follows Go's map order.

## Findings

| source | as written | input that shows it | evidently intended | confidence | as-written member | corrected member |
|---|---|---|---|---|---|---|
| iex/resolver.go:93-95 | `extractGroup` appends `A[i]` for each position `i` of `xi`, so deletes and additions are the first `len(xi)` records of each difference | stored `[foo, bar]`, fetched `[foox, baz]`, with foo and foox sharing an identifier and the three identifiers different: deletes `[foo]`, additions `[foox]`, so foo is both updated and deleted | append `A[xi[i]]`: deletes `[bar]`, additions `[baz]` | not executed | Resolver.PrefixBugWitness | Resolver.ResolveFixed |
