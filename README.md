# aws-pricelist-tool in Dafny

A model of the selection-and-join core of `aws-pricelist-tool`. The tool
reads the AWS EC2 on-demand price list for a set of regions, keeps the
compute-instance products that pass a fixed chain of attribute filters, and
lists one (region, instance type, price) row per wanted instance type.

The model has these parts:

- `Common` (common.dfy) holds optional values and results. A `Result` carries the
  Python exception a step would raise: `KeyError`, `StopIteration`, or a failed fetch.
- `Dicts` (dicts.dfy) models Python dicts with string keys as association lists in
  insertion order. These are the order `items()` and `values()` iterate in. On them it
  defines `d[k]`, `d[k] = v`, and `next(iter(d.values()))` (`get_first_dict_value`).
- `Glob` (glob.dfy) is `fnmatch.fnmatch` on POSIX. A pattern is read into tokens
  the way `fnmatch.translate` (Python 3.9 and later) reads it: `*`, `?`, `[seq]`, `[!seq]`,
  ranges, and an unclosed `[` taken literally. Inside a class, reversed ranges such as `z-a`
  are deleted. When a class without its own `!` then starts with `!`, that `!` negates the rest. A recursive matcher then anchors the tokens to the whole
  name, and is proved equal to a reference semantics.
- `Wildcard` (wildcard.dfy) is `wildcard_match` and `wildcard_filter`. The filter is modelled
  twice: as utils.py:70 runs it (`WildcardFilter`) and as intended
  (`IntendedWildcardFilter`): the values matching any of the patterns. See "## Findings".
- `Regions` (regions.dfy) is the `REGIONS` table and `get_region_names`. It also resolves
  `--region` patterns into a set of regions, both as the driver does it (`ResolveRegions`)
  and as intended (`IntendedResolveRegions`).
- `PriceList` (price_list.dfy) covers the URL and the cache file name of
  `get_price_list`. It also covers the cache decision of `download_or_read_cached_json`,
  with the file's state, the clock and the HTTP outcome as parameters.
- `Ec2Price` (ec2_price.dfy) holds two things:
  - `get_instance_on_demand_prices`, as a method whose loop over the products mirrors the
    source's `continue` filters and its early exceptions;
  - the row-building loops of `main`, as methods that append to a sequence of rows.
    `RowsForRegions` takes the region set as a parameter. `Regions.ResolveRegions` gives the
    set the source computes, and `Regions.IntendedResolveRegions` gives the one its options describe.

  The decoded catalog of a region is an input: `catalogOf(region)` stands for
  fetching (or reading from the cache) and decoding it. Dict members whose absence the
  source does not check are `Option`s, and reading an absent one is a `KeyError`.

The `REGIONS` display name of `sa-east-1` is kept as the source file spells it:
`South America (SÃ£o Paulo)`, a doubly encoded `São`. The modelled code
never reads the display names.

## Model

| member | source | states |
|---|---|---|
| Common.Required | ec2_price.py:19 | a member read with `obj[key]` gives its value when present and `KeyError(key)` when absent |
| Dicts.Lookup | ec2_price.py:20 | `d[k]` is defined exactly when `k` is a key; the value is the entry's, the only one when the keys are distinct |
| Dicts.Get | ec2_price.py:20-28 | `d[k]` succeeds exactly for keys of `d` and otherwise raises `KeyError(k)` |
| Dicts.Assign | ec2_price.py:36 | `prices[instance_type] = price`: its contract is stated by `AssignKeys`, `AssignKeepsDistinct` and `LookupAssign` |
| Dicts.AssignKeys | ec2_price.py:36 | `d[k] = v` keeps every existing key in its place and appends a key that was absent |
| Dicts.AssignKeepsDistinct | ec2_price.py:36 | `d[k] = v` never makes a key appear twice |
| Dicts.LookupAssign | ec2_price.py:36 | after `d[k] = v`, `k` reads `v` and every other key reads as before |
| Dicts.KeySet | utils.py:54-55 | `set(d.keys())` holds exactly the keys, one member per entry |
| Dicts.FirstValue | utils.py:65-66 | `get_first_dict_value` raises StopIteration exactly on an empty dict, and otherwise gives the first key's value |
| Dicts.FirstValueOfAssign | utils.py:65-66 | an assignment changes the first value only on an empty dict or when it overwrites the first key |
| Dicts.FirstKeyIsFirstInserted | utils.py:65-66 | in a dict built by assignments, the first key is the first key ever inserted, and the first value is the value that key reads as |
| Dicts.BuildLastWins | ec2_price.py:36 | in a dict built by assignments, a key reads as the value of the last assignment to it |
| Dicts.FirstValueIsLastAssigned | utils.py:65-66 | the first value of a dict built by assignments is the last value assigned to the first key ever inserted |
| Dicts.BuildDistinct | ec2_price.py:36 | a dict built by assignments never holds a key twice |
| Glob.ClassItems | utils.py:74 | splits a class body into members the way `fnmatch.translate` splits it into chunks: `x-y` is a range, and a `-` that is first, last or right after a range is a plain member. `ClassItemsWithoutDash` and `RangeClassMatches` state what the members accept |
| Glob.CloseSearchStart | utils.py:74 | the search for the closing `]` starts after an optional leading `!` and after a `]` right behind it; it never starts past the text, and always after a leading `!` |
| Glob.AfterReversed | utils.py:74 | the members left once the leading reversed ranges are deleted, the "remove empty ranges" step; what is left never starts with a reversed range, and `AfterReversedKeepsMembers` shows it accepts the same characters |
| Glob.RangeClassMatches | utils.py:74 | `[lo-hi]` with `lo <= hi` matches exactly the one-character names whose character lies between `lo` and `hi`, both included |
| Glob.ScanClass | utils.py:74 | the text after a `[` reads as no class exactly when no `]` follows the optional `!` and a leading `]` member; otherwise the class ends at the first such `]`. After a `!` it is the negated class of the members read up to that `]`; without one it is what `PlainClass` makes of them |
| Glob.AfterReversedKeepsMembers | utils.py:74 | deleting the leading reversed ranges of a class leaves it accepting the same characters |
| Glob.PlainClass | utils.py:74 | a class without its own `!` loses its reversed ranges; when it then starts with `!` or a range from `!`, that `!` negates the rest. `ReversedRangeThenBang` states the effect |
| Glob.ClassOf | utils.py:74 | the class token of a body, negated after `!` and otherwise through `PlainClass`; stated by `ScanOneClass` and the class lemmas |
| Glob.ReversedRangeThenBang | utils.py:74 | `[z-a!seq]` (a reversed range, then `!`) matches exactly the one-character names not in `seq`, and `[z-a!]` matches every one-character name |
| Glob.ClassItemsWithoutDash | utils.py:74 | a class body without `-` holds exactly its own characters |
| Glob.ScanOneClass | utils.py:74 | the text after a `[` that holds no `]` before its last character is read whole as one class, negated exactly when it starts with `!` |
| Glob.ParseOneClass | utils.py:74 | a pattern that is a single bracket expression reads as one class token with that body |
| Glob.ClassPatternMatches | utils.py:74 | `[seq]` matches exactly the one-character names whose character is in `seq` |
| Glob.NegatedClassPatternMatches | utils.py:74 | `[!seq]` matches exactly the one-character names whose character is not in `seq` |
| Glob.OneTokenMatches | utils.py:74 | a pattern of one token other than `*` matches exactly the one-character names that token accepts |
| Glob.Parse | utils.py:74 | reads a pattern into tokens, one per `*`, `?`, class or other character; what it reads is stated by `ScanClass`, `ParseOneClass`, `ReversedRangeThenBang` and the `Glob` lemmas |
| Glob.Matches | utils.py:74 | anchors the tokens to the whole name; `MatchesIffDenotes` proves it equal to the reference semantics `Denotes` |
| Glob.FnMatch | utils.py:74 | `fnmatch.fnmatch(name, pattern)`; the `Glob` lemmas state what patterns match |
| Glob.MatchesIffDenotes | utils.py:74 | the matcher accepts exactly the strings the pattern's tokens denote, with `*` standing for any split |
| Glob.StarMatchesAll | utils.py:74 | `*` matches every string, the empty one included |
| Glob.QuestionMatchesOneChar | utils.py:74 | `?` matches exactly the one-character strings |
| Glob.PlainPatternMatchesItself | utils.py:74 | a pattern without metacharacters matches the name equal to it and no other |
| Glob.LiteralPrefix | utils.py:74 | literal characters followed by more tokens match exactly the names that start with those characters and continue with a match of the rest |
| Glob.PrefixStarMatches | utils.py:74 | `prefix*` with a plain prefix matches exactly the names that start with the prefix |
| Wildcard.WildcardMatch | utils.py:73-74 | true exactly when some pattern matches the whole value, so false for no patterns |
| Wildcard.OnePattern | utils.py:73-74 | with a single pattern, `wildcard_match` is that pattern's `fnmatch` |
| Wildcard.MatchingValues | utils.py:70 | an inner generator, run with the pattern it reads, yields the matching values in input order, each as often as it occurs |
| Wildcard.WildcardFilter | utils.py:69-70 | as written: every inner generator reads the last pattern, so the output holds exactly the input values that match the last pattern, and is empty for no patterns |
| Wildcard.FilterMultiplicity | utils.py:69-70 | as written: a value matching the last pattern appears (its occurrences) × (number of patterns) times, any other value not at all |
| Wildcard.FilterLength | utils.py:70 | as written: the output length is the last pattern's match count times the number of patterns |
| Wildcard.FilterAsSet | utils.py:70 | as written: collecting the output into a set gives the input values that match the last pattern |
| Wildcard.FilterLateBinding | utils.py:70 | for two different plain names `a`, `b`, values `[a, b]` with patterns `[a, b]` give `[b, b]` as written and `[a, b]` as intended |
| Wildcard.FilterWithinIntended | utils.py:70 | every value the filter as written keeps, the intended filter keeps too |
| Wildcard.IntendedWildcardFilter | utils.py:69-70 | as intended: every output value is an input value that matches some pattern and vice versa; no patterns give no output |
| Wildcard.MatchCount | utils.py:69-74 | the number of patterns matching a value is zero exactly when `wildcard_match` is false |
| Wildcard.IntendedFilterMultiplicity | utils.py:69-70 | as intended: a value appears as many times as it occurs in the input times the number of patterns it matches |
| Wildcard.IntendedFilterLength | utils.py:70 | as intended: the output length is the sum, over the patterns in order, of each pattern's matches |
| Wildcard.IntendedFilterAsSet | utils.py:70 | as intended: collecting the output into a set gives the input values that match some pattern |
| Regions.RegionTable | utils.py:13-35 | the `REGIONS` dict: its 21 region codes with their display names, in source order; `RegionTableIsDict` and `RegionNames` state its keys |
| Regions.RegionTableIsDict | utils.py:13-35 | the table lists each region code once |
| Regions.RegionNames | utils.py:54-55 | `get_region_names()` is the set of the table's 21 region codes |
| Regions.ResolveRegions | ec2_price.py:62-63 | as the driver runs it: the resolved regions are exactly the known codes that the last `--region` pattern matches, and none for no patterns |
| Regions.IntendedResolveRegions | ec2_price.py:62-63 | as intended: the known codes that some `--region` pattern matches |
| Regions.UsEastMatches | utils.py:73-74 | the pattern `us-east-*` matches exactly the names that start with `us-east-` |
| PriceList.PriceListUrl | utils.py:60 | the price-list URL template; `UrlRoundTrip` and `ParsePriceListUrl` state that it determines region and offer |
| PriceList.CacheFileName | utils.py:61 | the cache file name template; `CacheFileNameRoundTrip` and `CacheFileNamesCanCollide` state when it determines region and offer |
| PriceList.IsFresh | utils.py:39 | the file exists and its age is strictly below the maximum age; `DownloadOrReadCached` states that exactly then nothing is requested |
| PriceList.ParsePriceListUrl | utils.py:60 | a URL parsed back into a region and offer is the template filled with them |
| PriceList.ParseCacheFileName | utils.py:61 | a file name parsed back into a region and offer is the template filled with them |
| PriceList.UrlRoundTrip | utils.py:60 | for an offer code without `/` the URL determines region and offer, so distinct pairs never share a URL |
| PriceList.CacheFileNameRoundTrip | utils.py:61 | for an offer code without `-` the cache file name determines region and offer |
| PriceList.CacheFileNamesCanCollide | utils.py:61 | without that condition two different pairs can share a cache file |
| PriceList.DownloadOrReadCached | utils.py:38-51 | the file is used exactly when it exists and is strictly younger than the maximum age; otherwise the response is returned, and written to the file only when the request succeeded, with the time of the write as its modification time |
| PriceList.CacheRoundTrip | utils.py:38-51 | a fetched body is served from the cache by later calls that start less than the maximum age after it was written, and requested again from then on |
| PriceList.FailedFetchKeepsFile | utils.py:45-46 | a failed request leaves the cache file as it was |
| PriceList.GetPriceList | utils.py:58-62 | a fresh cached copy under the default 86400 seconds is returned unchanged; otherwise the result is the fetch of the pair's URL, a successful fetch is stored under the pair's file name with the write time, a failed one changes no file; no other cache file changes |
| PriceList.CacheFileNamesApart | utils.py:61 | for one offer code, different regions get different cache file names |
| PriceList.RegionsCachedApart | utils.py:58-62 | fetching one region's price list leaves another region's cache file for the same offer alone |
| Ec2Price.Attr | ec2_price.py:19-34 | `product['attributes'][key]`: `KeyError('attributes')` when the record has none, `KeyError(key)` when the attribute is absent; `ScreenKeepsQualifying` and `PricedReadsOnlyInstanceType` state its use |
| Ec2Price.OnDemandTerms | ec2_price.py:31 | `data['terms']['OnDemand'][product_id]`, raising a KeyError for the first missing member; `MissingOnDemandEntryFails` and `PricedReadsOwnTerms` state its use |
| Ec2Price.Apply | ec2_price.py:36 | one iteration's effect on the result dict: an error ends the loop, a skipped product leaves the dict, a kept one does `prices[instance_type] = price`; `RunKeys` and `RunLastWins` state the result |
| Ec2Price.Screen | ec2_price.py:17-29 | the filter chain of one iteration; `ScreenKeepsQualifying` and `ScreenReadsOnlyFilters` state what it keeps and reads |
| Ec2Price.FirstDimension | ec2_price.py:31-33 | the first price dimension of the first on-demand term of a product id; `PricedIsFirstUsdPrice` states it |
| Ec2Price.Contribution | ec2_price.py:16-36 | one iteration of the loop; `ContributionOfProduct` and `AssignsOnlyQualifying` state what it does |
| Ec2Price.RunSteps | ec2_price.py:14-37 | the loop as a fold over its iterations; `RunSucceeds`, `RunRaisesFirstError`, `RunKeys`, `RunLastWins` and `RunDistinct` state it |
| Ec2Price.Priced | ec2_price.py:31-35 | the instance type and price read for a kept product; `PricedIsFirstUsdPrice` states which entry it is |
| Ec2Price.Extract | ec2_price.py:13-37 | the result of `get_instance_on_demand_prices`; the `Extract...` lemmas and `LastQualifyingProductWins` state it |
| Ec2Price.GetInstanceOnDemandPrices | ec2_price.py:13-37 | the loop with its `continue` filters and early exceptions computes the extraction function `Extract` |
| Ec2Price.ErrorIsFinal | ec2_price.py:16-36 | once an iteration raises, the whole extraction raises that error |
| Ec2Price.RunSucceeds | ec2_price.py:16-36 | the loop completes exactly when no iteration raises |
| Ec2Price.RunRaisesFirstError | ec2_price.py:16-36 | a loop that raises raises the error of the first iteration that does |
| Ec2Price.RunKeys | ec2_price.py:36 | the keys of a completed loop are the instance types some iteration assigned |
| Ec2Price.RunLastWins | ec2_price.py:36 | an instance type reads as the price of the last iteration that assigned it |
| Ec2Price.RunDistinct | ec2_price.py:36 | the result never holds a key twice |
| Ec2Price.ScreenKeepsQualifying | ec2_price.py:17-29 | the filter chain keeps exactly the qualifying products, skips other families (a missing `productFamily` included), and raises only KeyErrors |
| Ec2Price.PricedIsFirstUsdPrice | ec2_price.py:31-36 | a product's price is the `USD` entry of the first price dimension of its first on-demand term, stored under its `instanceType` |
| Ec2Price.ContributionOfProduct | ec2_price.py:16-36 | a qualifying product is kept with its price or raises what reading the price raises; another product is skipped or raises a KeyError, whatever the catalog's terms hold |
| Ec2Price.AssignsOnlyQualifying | ec2_price.py:17-36 | an iteration assigns instance type `k` exactly when its product qualifies, its price can be read and its `instanceType` is `k` |
| Ec2Price.ExtractSucceeds | ec2_price.py:13-37 | the extraction returns prices exactly when no product's iteration raises |
| Ec2Price.ExtractRaisesFirstError | ec2_price.py:16-36 | a failed extraction raises `KeyError('products')` or the error of the first product, in catalog order, whose iteration raises |
| Ec2Price.MissingOnDemandEntryFails | ec2_price.py:31 | a qualifying product without an on-demand entry makes the extraction fail instead of being skipped |
| Ec2Price.ExtractedKeysQualify | ec2_price.py:17-34 | the result's instance types are exactly those of the qualifying products (family, tenancy, OS, software, capacity, and generation when asked) |
| Ec2Price.LastQualifyingProductWins | ec2_price.py:31-36 | the price of an instance type comes from the last qualifying product with that type in catalog order |
| Ec2Price.ExtractedKeysDistinct | ec2_price.py:36 | the result never holds an instance type twice |
| Ec2Price.CurrentOnlyNarrows | ec2_price.py:28-29 | asking for current-generation types only never adds an instance type |
| Ec2Price.GenerationIgnoredWhenNotCurrentOnly | ec2_price.py:16-36 | without `current_only`, two product records that differ only in `currentGeneration`, with the same terms, contribute the same to the loop |
| Ec2Price.GenerationIgnoredByExtract | ec2_price.py:13-37 | without `current_only`, no product's `currentGeneration` affects the extraction's result: catalogs with the same terms whose products differ only there give the same prices or the same error |
| Ec2Price.ScreenReadsOnlyFilters | ec2_price.py:17-27 | without `current_only`, the filters look at nothing but the family and four attributes |
| Ec2Price.PricedReadsOnlyInstanceType | ec2_price.py:31-36 | of the product record, reading the price looks only at `instanceType` |
| Ec2Price.PricedReadsOwnTerms | ec2_price.py:31 | reading a product's price looks only at that product's on-demand terms |
| Ec2Price.TermsOfRejectedProductsUnread | ec2_price.py:17-31 | the terms of products the filters reject never affect the result |
| Ec2Price.RegionPrices | ec2_price.py:67 | `get_instance_on_demand_prices(region, current_only=...)`: the region's catalog (or the error fetching it) followed by `Extract`; `RowsForRegions` states its use |
| Ec2Price.Wanted | ec2_price.py:68 | an instance type is wanted when no `--type` pattern is given or some pattern matches it |
| Ec2Price.RegionRows | ec2_price.py:67-70 | the rows of one region; `RegionRowsMembers` and `RegionRowsDistinct` state them, `AppendRows` computes them |
| Ec2Price.RegionRowsMembers | ec2_price.py:67-70 | a region's rows are exactly its price entries whose instance type is wanted, each carrying the region |
| Ec2Price.RegionRowsDistinct | ec2_price.py:67-70 | a region's rows have distinct instance types |
| Ec2Price.AppendRegionRows | ec2_price.py:66-70 | appending the rows of a region not seen before keeps every (region, instance) cell unique |
| Ec2Price.RowsOfOneMoreRegion | ec2_price.py:66-70 | the rows of the done regions plus a new region's rows are the selected rows of all of them |
| Ec2Price.AppendRows | ec2_price.py:67-70 | the inner loop appends exactly the region's wanted entries, in dict order |
| Ec2Price.RowsForRegions | ec2_price.py:63-70 | over the resolved region set, the loop succeeds exactly when every region's prices can be read, and otherwise raises some region's error; its rows are exactly the selected ones: without `--type` every extracted price gives a row, otherwise only matching types do; no cell repeats |

## Left out

- HTTP requests, `raise_for_status`, `resp.json()`, file reads and writes, and `os.makedirs`. The fetch outcome, the cache file's state and the clock are parameters: the clock when a call starts and the clock when a fetched body has been written. A decoded catalog stands for the JSON. `time.time()` and `st_mtime` are plain reals.
- JSON decoding, `json.dump`, and values of the wrong JSON type. The catalog is typed; only absent members are modelled, as KeyErrors.
- `Decimal(...)` at ec2_price.py:35 and `float(price)` at ec2_price.py:70. The price is the catalog's exact `USD` string, so the `InvalidOperation` a malformed price string would raise is not modelled.
- `format_data` (pandas pivot, seaborn), click option parsing and logging. These are rendering and command-line plumbing. `NoRepeatedCell` states the uniqueness the pivot relies on.
- Ec2Price.RowsForRegions: the order of regions is that of Python set iteration, which is unspecified. The method takes the regions in an arbitrary order, and its contract is order-independent. When several regions fail, it does not say which one's error is raised.
- Regions.ResolveRegions: iterates the table's keys in table order where the source iterates a set. The result is a set either way.
- Regions: no lemma resolves concrete patterns against the 21-entry table (for example `-r us-east-1 -r eu-west-1` giving only `eu-west-1`). Proofs over the table literal are too costly; `ResolveRegions` states the general rule.
- Glob: `os.path.normcase` on Windows (case folding) is not modelled; matching is POSIX and case-sensitive. The class reading follows `fnmatch.translate` from Python 3.9 on, which deletes reversed ranges such as `z-a`. Earlier versions raise on them instead.
- Dicts: keys are strings. Those are the only keys the modelled dicts have.
- Dicts.Get: the model accepts a catalog dict (`products`, `OnDemand`, a term's dimensions) that lists one key twice, which decoded JSON never produces; `Get` then reads the first entry where Python would keep the last value. No lemma depends on such input.

## Findings

| source | as written | input that shows it | evidently intended | confidence | as-written member | corrected member |
|---|---|---|---|---|---|---|
| utils.py:70 | the inner generators read the loop variable `pattern` only when `chain` runs them, after `*` has drained the outer generator, so all of them filter by the last pattern | `wildcard_filter(["a", "b"], ["a", "b"])` yields `b`, `b`; at ec2_price.py:63, `-r us-east-1 -r eu-west-1` resolves to `eu-west-1` alone | each pattern's matches, one pattern after another, so the set is the values matching any pattern | high, not executed | Wildcard.FilterLateBinding | Wildcard.IntendedWildcardFilter |
