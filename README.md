# symfony-1.4-bootstrap core, modelled in Dafny

This project models five library classes of the symfony-1.4-bootstrap
repository and proves properties of the model:

- **`DateParser`**: the international date normaliser. `transliterate`
  replaces accented and foreign letters using a fixed character table.
  `parse` first tries `strtotime` on the transliterated date. When that
  fails it lower-cases the text and splits it on word boundaries. Each
  token is trimmed and looked up in the month/filler table `$_tokenMap`,
  where it is removed, replaced by a two-digit month code, or kept as it
  is. The survivors are joined with `-` and `strtotime` is tried again.
- **`Redis_Stat`**: time-bucketed statistic counters. It builds keys of the
  form `s:<stat>:<duration>:<periodStart>`, increments one counter per
  rollup period, lists the buckets between two times, and zero-fills a
  time series.
- **`REST`**: the curl-based REST client. It covers the handle cache keyed
  by the connection-relevant parameters, which a payload bypasses. It
  accumulates the raw response headers and parses them into a name/value
  table. It attaches the payload for POST and PUT, and rejects any status
  outside 200-299.
- **`sfRestfulActions`**: the base action of a RESTful Symfony module. It
  validates a request against the action's API table, in a fixed order of
  checks (not found, method not allowed, unauthorized, bad request), and
  then renders the results as JSON or answers 204.
- **`Javascript`**: module loading with dependencies, the registry that
  maps factory methods to selectors, and the generator of the jQuery
  `document.ready` binding code.

The Dafny modules are `Wrappers` (Option/Result), `Text` (`implode`,
`explode("\r\n")`, decimal rendering of integers), `PhpArray` (PHP's
ordered string-keyed arrays as sequences of pairs), `DateParser`, `Stat`,
`Rest`, `RestfulActions` and `Javascript`.

How the source's code maps onto the model:

- Code that changes state step by step is imperative Dafny:
  - the loops of `parse`, `_analyticsKeys`, `_timeseriesKeys`,
    `_zeroFillTimeseries` and `increment`;
  - the static state of `REST` and `Javascript`;
  - the response that `sfRestfulActions` writes to.
- Each such method is proved against a specification function, and the
  lemmas are stated about those functions.
- Foreign behaviour is either a parameter or abstract:
  - `strtotime`, `mb_strtolower`, the `/\b/u` split and `time()` are
    parameters;
  - the Redis server is a map of counters;
  - curl is a list of header chunks, a status code and a body;
  - `md5(json_encode(...))` is the sequence of values it hashes.

## Model

| member | source | states |
|---|---|---|
| DateParser.ReplacementShape | lib/DateParser.php:131-147 | Every key of the transliteration table is a non-ASCII character, and every replacement is non-empty ASCII text. |
| DateParser.ReplacementsAreNotKeys | lib/DateParser.php:131-147 | No character of any replacement is itself a key of the table. |
| DateParser.Transliterate | lib/DateParser.php:157-159 | Definition of `strtr` with the character table, one character at a time. Its properties are proved by the Transliterate* lemmas. |
| DateParser.TransliterateAppend | lib/DateParser.php:157-159 | Transliteration works character by character: transliterating a concatenation gives the concatenation of the transliterated parts. |
| DateParser.TransliterateOne | lib/DateParser.php:157-159 | A single character that is a key becomes its replacement. Any other character stays as it is. |
| DateParser.TransliterateUnlisted | lib/DateParser.php:157-159 | A string with no key character is returned unchanged. |
| DateParser.TransliterateAscii | lib/DateParser.php:131-159 | Plain-ASCII input is returned unchanged. |
| DateParser.TransliterateLeavesNoKey | lib/DateParser.php:131-159 | No character of the output is a key of the table, because `strtr` does not rescan replaced text. |
| DateParser.TransliterateIdempotent | lib/DateParser.php:131-159 | Transliterating twice gives the same as transliterating once. |
| DateParser.MonthCodeListed | lib/DateParser.php:9-128 | Every month code the token table can produce is one of "01"…"12", and month m gets the m-th of them. |
| DateParser.MonthCodeInjective | lib/DateParser.php:9-128 | Different months have different codes. |
| DateParser.TokenEntry | lib/DateParser.php:9-128 | Definition of `$_tokenMap[t]` as the blocks of the literal merged with later-wins. Its properties are proved by TokenEntryAgreesWithEveryBlock and TokenEntryListed. |
| DateParser.Override | lib/DateParser.php:9-128 | Definition of later-wins for one key of an array literal. The property the table relies on, that overwriting never changes a value, is proved by TokenEntryAgreesWithEveryBlock. |
| DateParser.FillersAgree | lib/DateParser.php:10-15 | The filler block never disagrees with a language block on a shared key. |
| DateParser.FrenchAgreesWithItalianGermanSpanish | lib/DateParser.php:17-71 | French shares keys with Italian, German and Spanish (`mai`, `novembre`) and agrees with each of them on every shared key. |
| DateParser.FrenchAgreesWithPortugueseRomanianChinese | lib/DateParser.php:17-127 | French agrees with Portuguese, Romanian and Chinese on every shared key. |
| DateParser.ItalianAgreesWithGermanSpanishPortuguese | lib/DateParser.php:31-86 | Italian agrees with German, Spanish and Portuguese on every shared key (`marzo`, `agosto`). |
| DateParser.ItalianAgreesWithRomanianChinese | lib/DateParser.php:31-127 | Italian agrees with Romanian and Chinese on every shared key. |
| DateParser.GermanAgreesWithSpanishPortuguese | lib/DateParser.php:45-86 | German agrees with Spanish and Portuguese on every shared key. |
| DateParser.GermanAgreesWithRomanianChinese | lib/DateParser.php:45-127 | German agrees with Romanian and Chinese on every shared key (`mai`, `august`). |
| DateParser.SpanishAgreesWithPortugueseRomanian | lib/DateParser.php:59-113 | Spanish agrees with Portuguese and Romanian on every shared key (`abril`, `agosto`). |
| DateParser.SpanishPortugueseAgreeWithChinese | lib/DateParser.php:59-127 | Spanish and Portuguese agree with Chinese on every shared key. |
| DateParser.PortugueseAgreesWithRomanian | lib/DateParser.php:73-113 | Portuguese agrees with Romanian on every shared key. |
| DateParser.RomanianAgreesWithChinese | lib/DateParser.php:88-127 | Romanian agrees with Chinese on every shared key. |
| DateParser.TokenEntryAgreesWithEveryBlock | lib/DateParser.php:9-128 | Because the blocks agree, the merged table gives every key the value of every block that lists it. Later-wins overwriting changes nothing. |
| DateParser.TokenEntryListed | lib/DateParser.php:9-128 | A token is a key of the merged table exactly when some block lists it. |
| DateParser.FillersAreDropped | lib/DateParser.php:10-15 | `.`, `de`, `月`, `年` and `日` are all mapped to `false` (removed). |
| DateParser.RepeatedKeys | lib/DateParser.php:9-128 | The repeated keys `mai`, `novembre`, `marzo`, `agosto`, `abril` and `august` carry 05, 11, 03, 08, 04 and 08. |
| DateParser.RepeatedKeysRomance | lib/DateParser.php:17-71 | The keys `mai`, `novembre`, `marzo` and `agosto`, each listed by two blocks, carry 05, 11, 03 and 08 in the merged table. |
| DateParser.TrimLeftSpec | lib/DateParser.php:181 | Left trimming removes exactly the longest prefix of `trim`'s whitespace characters. |
| DateParser.TrimRightSpec | lib/DateParser.php:181 | Right trimming removes exactly the longest suffix of whitespace characters. |
| DateParser.TrimShape | lib/DateParser.php:181 | `trim` gives a factor of its input with no whitespace at either end. |
| DateParser.TrimBlank | lib/DateParser.php:181-182 | A token made only of whitespace trims to empty, so it is skipped. |
| DateParser.Trim | lib/DateParser.php:181 | Definition of `trim` with its default whitespace characters. Its properties are proved by TrimLeftSpec, TrimRightSpec and TrimShape. |
| DateParser.ResolveToken | lib/DateParser.php:181-189 | Definition of what one token contributes. Its cases are proved by ResolveOne and ResolveTokenShape. |
| DateParser.ResolveTokens | lib/DateParser.php:180-190 | Definition of `$translatedTokens` for a token list. Its properties are proved by ResolveTokensAppend, ResolveTokensShape and DroppedTokenIsNeutral. |
| DateParser.ResolveTokensAppend | lib/DateParser.php:180-190 | Token resolution preserves order: resolving a concatenation gives the concatenation of the two results. |
| DateParser.ResolveOne | lib/DateParser.php:181-189 | A token that is empty after `trim` contributes nothing, and so does one the table maps to `false`. A token mapped to a month contributes its code. An unmapped token contributes its trimmed self. |
| DateParser.ResolveTokenShape | lib/DateParser.php:181-189 | Whatever a token contributes is non-empty: either a month code, or a trimmed token the table does not list. |
| DateParser.ResolveTokensShape | lib/DateParser.php:180-191 | Every survivor is non-empty and is a month code or an unlisted trimmed token, so the joined candidate has no empty segment. |
| DateParser.DroppedTokenIsNeutral | lib/DateParser.php:182-184 | Inserting a blank or removed token anywhere leaves the resolution unchanged. |
| DateParser.TranslateTokens | lib/DateParser.php:179-190 | The `foreach` loop builds exactly the resolution of the token list against `$_tokenMap`. |
| DateParser.Parse | lib/DateParser.php:169-193 | If `strtotime` succeeds on the transliterated date, that result is returned and no token translation happens. Otherwise the result is `strtotime` of the dash-joined survivors. It fails (`false`) exactly when both attempts fail. |
| DateParser.Candidate | lib/DateParser.php:178-191 | Definition of the dash-joined fallback text handed to `strtotime`. It is used by Parse and the examples. |
| DateParser.BlankInputGivesEmptyCandidate | lib/DateParser.php:178-191 | When the split covers the whole lower-cased input and that input is only whitespace, the fallback candidate is the empty string. |
| DateParser.BlankPiecesResolveToNothing | lib/DateParser.php:180-182 | Tokens whose concatenation is all whitespace resolve to nothing. |
| DateParser.EmptyEnds | lib/DateParser.php:180-182 | The empty pieces that the split leaves at both ends of a seven-piece list are skipped, so they change nothing. |
| DateParser.FrenchTokens | lib/DateParser.php:180-190 | The `/\b/` pieces of "15 novembre 2023", with the empty pieces at both ends, resolve to 15, 11, 2023. |
| DateParser.GermanTokens | lib/DateParser.php:180-190 | The `/\b/` pieces of "15. november 2023", with the empty pieces at both ends, resolve to 15, 11, 2023, with "." removed. |
| DateParser.FrenchExample | lib/DateParser.php:178-191 | For that French date the fallback hands "15-11-2023" to `strtotime`. |
| DateParser.GermanExample | lib/DateParser.php:178-191 | For that German date the fallback hands "15-11-2023" to `strtotime`. |
| Stat.TruncDiv | lib/Redis/Stat.class.php:107-108 | `intval($t / $d)` truncates toward zero. For t ≥ 0 the quotient q has q·d ≤ t < q·d + d; the mirrored bounds hold for negative t. |
| Stat.PeriodStartBounds | lib/Redis/Stat.class.php:89 | A period start is a multiple of the duration. For t ≥ 0 it satisfies 0 ≤ start ≤ t < start + d. |
| Stat.AnalyticsKey | lib/Redis/Stat.class.php:72-74 | Definition of the key text. Its properties are proved by AnalyticsKeyText, ParseAnalyticsKey and AnalyticsKeyInjective. |
| Stat.AnalyticsKeyText | lib/Redis/Stat.class.php:72-74 | The key is "s", the stat, the duration and the period start, joined by ":". |
| Stat.ParseAnalyticsKey | lib/Redis/Stat.class.php:72-74 | Splitting a key at its last two colons returns the stat, the duration and the start, so the key can be decoded. |
| Stat.AnalyticsKeyInjective | lib/Redis/Stat.class.php:72-74 | Different (stat, duration, start) triples give different keys. |
| Stat.AnalyticsKeys | lib/Redis/Stat.class.php:84-93 | The `foreach` builds exactly one key per period, in period order. |
| Stat.AnalyticsKeysAt | lib/Redis/Stat.class.php:84-93 | Definition of the keys of `_analyticsKeys` at time `now`. Their properties are proved by AnalyticsKeysCoverNow and AnalyticsKeysDistinct. |
| Stat.AnalyticsKeysCoverNow | lib/Redis/Stat.class.php:84-93 | For now ≥ 0, the i-th key decodes to the stat, the i-th duration d and a multiple of d with start ≤ now < start + d. |
| Stat.AnalyticsKeysDistinct | lib/Redis/Stat.class.php:84-93 | Periods with different durations get different keys. |
| Stat.BucketStartsSteps | lib/Redis/Stat.class.php:107-113 | The bucket starts run from the start's period start to the end's, each step exactly d, strictly increasing. |
| Stat.BucketStartsLength | lib/Redis/Stat.class.php:107-114 | Write q(t) for t divided by d, truncated toward zero as `intval` does. There are no buckets when q(start) > q(end). Otherwise there are q(end) − q(start) + 1. |
| Stat.BucketStartsComplete | lib/Redis/Stat.class.php:107-113 | x is a bucket start exactly when it is a multiple of d between the two period starts. |
| Stat.BucketStarts | lib/Redis/Stat.class.php:107-113 | Definition of the bucket starts of the `while` loop. Their properties are proved by BucketStartsSteps, BucketStartsLength and BucketStartsComplete. |
| Stat.TimeseriesKeysOf | lib/Redis/Stat.class.php:105-115 | Definition of the keys of `_timeseriesKeys`, one per bucket start. That they are distinct is proved by TimeseriesKeysDistinct. |
| Stat.TimeseriesKeysDistinct | lib/Redis/Stat.class.php:105-115 | The time-series keys contain no duplicates. |
| Stat.TimeseriesKeys | lib/Redis/Stat.class.php:105-115 | The `while` loop emits the key of every bucket start, in order. |
| Stat.FillValue | lib/Redis/Stat.class.php:132 | Definition of `isset($data[$key]) ? $data[$key] : 0`. What the series then holds is proved by ZeroFilledEntries. |
| Stat.ZeroFillTimeseries | lib/Redis/Stat.class.php:128-135 | The `foreach` builds the zero-filled series over exactly the time-series keys. |
| Stat.ZeroFilledEntries | lib/Redis/Stat.class.php:128-135 | The filled array has exactly the time-series keys, in order. Each value is `data[key]` when that is set and non-null, else 0. Entries of `data` outside the range are dropped. |
| Stat.ZeroFilled | lib/Redis/Stat.class.php:128-135 | Definition of the zero-filled array. Its contents are proved by ZeroFilledEntries. |
| Stat.Stored | lib/Redis/Stat.class.php:154 | A GET answers `false` exactly for a missing counter. |
| Stat.Store.IncrBy | lib/Redis/Stat.class.php:54 | INCRBY adds the amount to one counter (starting from 0) and changes no other counter. |
| Stat.Count | lib/Redis/Stat.class.php:54 | Definition of the counter INCRBY starts from: the stored value, or 0 when there is none. |
| Stat.Store.GetMultiple | lib/Redis/Stat.class.php:154 | `getMultiple` answers with one reply per key, by position. |
| Stat.Replies | lib/Redis/Stat.class.php:154 | Definition of the reply list of `getMultiple`: one GET reply per key, by position. |
| Stat.IncrementAllCount | lib/Redis/Stat.class.php:52-55 | After the increments, each counter has grown by the amount times the number of times its key occurs, and every other counter is unchanged. |
| Stat.IncrementAllKeys | lib/Redis/Stat.class.php:52-55 | The increments create exactly the keys that are listed and were missing. |
| Stat.IncrementAll | lib/Redis/Stat.class.php:52-55 | Definition of the counters after one INCRBY per key. Its effect is proved by IncrementAllCount and IncrementAllKeys. |
| Stat.Increment | lib/Redis/Stat.class.php:48-61 | The default periods are used when `periods` is null. There is one INCRBY per analytics key, in order, up to the first store failure. The result is true exactly when the store never throws. |
| Stat.IncrementEach | lib/Redis/Stat.class.php:52-60 | The loop of `increment` issues the INCRBY calls until the store throws. It returns true exactly when every call succeeded. |
| Stat.DefaultKeysDistinct | lib/Redis/Stat.class.php:84-93 | The three default periods give three different keys. |
| Stat.IncrementDistinctKeys | lib/Redis/Stat.class.php:52-55 | With no key listed twice, each listed counter grows by exactly the value. |
| Stat.DefaultIncrementEffect | lib/Redis/Stat.class.php:48-55 | With the default periods, each of the three counters grows by exactly the value. |
| Stat.PositionalData | lib/Redis/Stat.class.php:154 | The reply list of `getMultiple` is indexed by position, never by key. |
| Stat.GetTimeseriesAsWritten | lib/Redis/Stat.class.php:148-163 | As written, `end` defaults to now and a store failure gives null. Without zero fill the positional replies are returned; with it, the positional replies are zero-filled by key. |
| Stat.AsWrittenSeriesIsAllZero | lib/Redis/Stat.class.php:154-156 | As written, every zero-filled point is 0 whatever the store holds. |
| Stat.AsWrittenSeriesLosesCount | lib/Redis/Stat.class.php:154-156 | A counter of 5 in the only bucket reads back as 0. |
| Stat.AsWrittenSeries | lib/Redis/Stat.class.php:154-156 | Definition of the series as written. That it is all 0 is proved by AsWrittenSeriesIsAllZero. |
| Stat.KeyedData | lib/Redis/Stat.class.php:154 | Pairing each reply with its key keeps every stored value and drops the `false` of a missing key. |
| Stat.CorrectedSeriesCounts | lib/Redis/Stat.class.php:137-157 | Corrected, each point carries the counter stored under its key, or 0 when there is none. |
| Stat.CorrectedSeries | lib/Redis/Stat.class.php:154-156 | Definition of the corrected series. Its contents are proved by CorrectedSeriesCounts. |
| Stat.GetTimeseries | lib/Redis/Stat.class.php:148-163 | The corrected `getTimeseries`: the same defaults and failure as written, with the replies keyed before the zero fill. |
| Text.SplitCrlfJoin | lib/REST.class.php:157 | `explode("\r\n")` loses nothing: joining the pieces with CRLF gives back the buffer. |
| Text.SplitCrlfPieces | lib/REST.class.php:157 | No piece contains a CRLF. |
| Text.SplitCrlf | lib/REST.class.php:157 | Definition of `explode("\r\n")`. Its properties are proved by SplitCrlfJoin and SplitCrlfPieces. |
| Text.IntToStringRoundTrip | lib/REST.class.php:187 | The decimal rendering of an integer (used in keys and messages) reads back as that integer. |
| Text.IntToString | lib/Redis/Stat.class.php:73 | Definition of PHP's decimal rendering of an integer. It is proved to read back by IntToStringRoundTrip. |
| Text.Join | lib/Redis/Stat.class.php:73 | Definition of `implode`. Joining is proved exact by SplitCrlfJoin (for CRLF) and by ParseAnalyticsKey (for the key's colons). |
| PhpArray.Lookup | lib/REST.class.php:106 | An `isset`-style lookup finds a value exactly when the key is present, and the value found is an entry of the array. |
| PhpArray.AssignLookup | lib/REST.class.php:160 | After `$a[$k] = $v`, `$k` reads `$v` and every other key reads as before. |
| PhpArray.AssignKeys | lib/REST.class.php:160 | An assignment adds exactly its own key to the set of keys, and never creates a duplicate key. |
| PhpArray.Assign | lib/REST.class.php:160 | Definition of `$a[$k] = $v`: overwrite in place when the key is present, else append. Its effect is proved by AssignLookup and AssignKeys. |
| Rest.BelowTransitive | lib/REST.class.php:56 | The byte order `ksort` uses is transitive. |
| Rest.BelowTotal | lib/REST.class.php:56 | That order is total on distinct keys. |
| Rest.KSort | lib/REST.class.php:56 | Definition of `ksort` as insertion sort by key. Its properties are proved by KSortPermutes, KSortSorted and SortedUnique. |
| Rest.KSortPermutes | lib/REST.class.php:56 | `ksort` reorders the parameters without adding or losing any. |
| Rest.KSortSorted | lib/REST.class.php:56 | Given distinct keys, the result of `ksort` is strictly increasing in key. |
| Rest.SortedUnique | lib/REST.class.php:56 | Two strictly sorted arrays with the same entries are equal, so `ksort` has a unique answer. |
| Rest.KeyEntriesMembers | lib/REST.class.php:57-64 | The entries that feed the cache key are exactly the parameters whose key is in `$_keyParams`. |
| Rest.KeyEntriesSorted | lib/REST.class.php:56-64 | Those entries keep the sorted key order. |
| Rest.KeyEntries | lib/REST.class.php:57-64 | Definition of the key-parameter entries in order. Their properties are proved by KeyEntriesMembers and KeyEntriesSorted. |
| Rest.CacheKey | lib/REST.class.php:54-65 | Definition of `$keyData`, the value list the connection key hashes. Its properties are proved by CacheKeyOrder, CacheKeyDependsOnlyOnKeyParams and CacheKeyIgnoresNames. |
| Rest.CacheKeyOrder | lib/REST.class.php:55-65 | The cache key is the sequence of key-parameter values in sorted key order, taken from exactly the key parameters. |
| Rest.CacheKeyDependsOnlyOnKeyParams | lib/REST.class.php:55-65 | Parameter arrays that agree on every key parameter have the same cache key, however they differ elsewhere and in whatever order they came. |
| Rest.CacheKeyIgnoresNames | lib/REST.class.php:57-65 | The key holds the values without their names: a single key parameter set to v shares its key, and so its cached handle, with any other key parameter set to v. |
| Rest.NocachePermuted | lib/REST.class.php:56-60 | Whether a no-cache parameter is present does not depend on the order of the parameters. |
| Rest.HasNocacheParam | lib/REST.class.php:57-59 | Definition of "some parameter is in `$_nocacheParams`". It is what ScanParams decides. |
| Rest.ScanParams | lib/REST.class.php:57-64 | The `foreach` stops at a no-cache parameter exactly when one is present. Otherwise it collects the key-parameter values in order. |
| Rest.CacheDecision | lib/REST.class.php:54-70 | Definition of the handle `_getCurl` returns and the cache it leaves. Its effect is proved by CacheDecisionEffect and SameKeySameHandle. |
| Rest.CacheDecisionEffect | lib/REST.class.php:54-70 | The cache only grows. A no-cache parameter gives a fresh handle that is not in the cache and leaves the cache unchanged. Without one, the key's handle is returned, and a new handle is stored only when the key was missing. |
| Rest.SameKeySameHandle | lib/REST.class.php:55-69 | Two calls with the same key-parameter values return the same handle, and the second adds no entry. |
| Rest.Client.GetCurl | lib/REST.class.php:54-70 | `_getCurl` returns the handle and new cache of the cache decision, and keeps every handle below the next one to be created. |
| Rest.Client.InitCurl | lib/REST.class.php:117-145 | `_initCurl` creates a handle never handed out before. |
| Rest.FirstColonSpec | lib/REST.class.php:159 | The name group `[^:]+` ends at the first colon of the line. |
| Rest.LeadingSpacesSpec | lib/REST.class.php:159 | The greedy `\s*` takes the longest whitespace prefix. |
| Rest.HeaderValue | lib/REST.class.php:159 | Definition of the `\s*(.+)$` part of the pattern. It is proved sound and complete by HeaderValueSound and HeaderValueComplete. |
| Rest.HeaderValueSound | lib/REST.class.php:159 | A value the model extracts is `\s*` whitespace followed by non-empty text with no line break, optionally followed by one final newline. |
| Rest.HeaderValueComplete | lib/REST.class.php:159 | Every way the rest of a line can match `\s*(.+)$` is found, with the greedy choice of whitespace. |
| Rest.MatchHeaderSound | lib/REST.class.php:159 | A match splits the line into a non-empty colon-free name, a colon, whitespace, a non-empty value and an optional final newline. |
| Rest.MatchHeaderComplete | lib/REST.class.php:159 | Every line of that shape matches, with the same name and the value of the greedy whitespace split. |
| Rest.MatchHeader | lib/REST.class.php:159 | Definition of `preg_match` with `/^([^:]+):\s*(.+)$/`. It is proved sound and complete by MatchHeaderSound and MatchHeaderComplete. |
| Rest.NoColonNoMatch | lib/REST.class.php:159 | A line without a colon, such as the status line or a blank line, is ignored. |
| Rest.LastValueSpec | lib/REST.class.php:158-160 | The last value for a name is the value of the last matching line with that name. There is none exactly when no line names it. |
| Rest.AssignmentsLastWins | lib/REST.class.php:158-160 | Filling the table line by line leaves each name with the value of its last matching line. |
| Rest.AssignmentsDistinct | lib/REST.class.php:158-160 | The header table never holds a name twice. |
| Rest.HeaderTableLastWins | lib/REST.class.php:156-162 | The parsed table starts empty. A name has value v exactly when v is the value of its last matching CRLF-separated line, and a name is absent exactly when no line matches it. |
| Rest.HeaderTable | lib/REST.class.php:156-162 | Definition of `$_httpResponseHeaders` after the `foreach`. Its contents are proved by HeaderTableLastWins. |
| Rest.Client.ProcessResponseHeader | lib/REST.class.php:81-84 | `_processResponseHeader` appends the chunk to the buffer and returns its length. |
| Rest.Client.LastResponseHeaders | lib/REST.class.php:105-107 | With a key, it returns the stored value, or null when the key is missing. With null, it returns the whole table. |
| Rest.Client.ParseResponse | lib/REST.class.php:154-163 | `_parseResponse` records the status code and rebuilds the table from the CRLF-split buffer, one `preg_match` per line. |
| Rest.AttachedPayload | lib/REST.class.php:179-181 | Definition of the payload guard. That only POST and PUT requests carry it is proved by Client.DoRequest. |
| Rest.Client.DoRequest | lib/REST.class.php:175-190 | `_doRequest` applies the cache decision and attaches the payload only for POST/PUT. It clears the buffer and accumulates the transfer's header chunks, then parses them. It throws "Request returned <code> HTTP response code: <url>" for a code outside 200-299 and returns the body otherwise. |
| RestfulActions.RequiredList | lib/sfRestfulActions.class.php:60-61 | Definition of reading a scalar `required` as a one-element list. How a missing parameter is then found is proved by BadRequestExactly. |
| RestfulActions.FirstMissing | lib/sfRestfulActions.class.php:62-66 | The position found is the first required parameter that is null. None means every required parameter is present. |
| RestfulActions.UnknownActionNotFound | lib/sfRestfulActions.class.php:53-54 | The verdict is NOT_FOUND exactly when the action is not in the API table, whatever else holds. |
| RestfulActions.UnlistedMethodNotAllowed | lib/sfRestfulActions.class.php:55-56 | The verdict is METHOD_NOT_ALLOWED exactly for a known action whose method is not listed. |
| RestfulActions.UnauthorizedExactly | lib/sfRestfulActions.class.php:57-58 | The verdict is UNAUTHORIZED exactly when the action and method are listed, `auth` is set and true, the key is non-null, and the GET parameter differs from it. |
| RestfulActions.NullKeyNeverUnauthorized | lib/sfRestfulActions.class.php:57 | A null key never gives UNAUTHORIZED. With a null key, every `auth` entry is irrelevant. |
| RestfulActions.NoAuth | lib/sfRestfulActions.class.php:57 | Removing `auth` keeps every action and method of the table. |
| RestfulActions.BadRequestExactly | lib/sfRestfulActions.class.php:59-66 | The verdict is BAD_REQUEST exactly when no earlier check fires, `required` is set, and some required parameter is null. |
| RestfulActions.PassesExactly | lib/sfRestfulActions.class.php:50-68 | The request passes, with no status set, exactly when no branch fires. |
| RestfulActions.Verdict | lib/sfRestfulActions.class.php:50-68 | Definition of the status `checkIsValidApiRequest` responds with, if any. Each branch is characterised by the *Exactly lemmas above. |
| RestfulActions.Actions.RespondWith | lib/sfRestfulActions.class.php:22-28 | `respondWith` sets the status. A final response also sends the headers and stops the request. |
| RestfulActions.Actions.CheckIsValidApiRequest | lib/sfRestfulActions.class.php:50-68 | The request stops exactly when the verdict is a status. In that case the response carries that status and the headers are sent, the first missing required parameter having stopped the search. Otherwise the response is untouched. |
| RestfulActions.ExecuteOutcome | lib/sfRestfulActions.class.php:31-41 | Definition of the three outcomes of `execute`. The response each one leaves is proved by Actions.Execute. |
| RestfulActions.Actions.Execute | lib/sfRestfulActions.class.php:31-41 | `execute` halts with the verdict's status, or renders the action's results as `application/json`, or answers NO_CONTENT when no results are set. |
| Javascript.LoadEachContains | lib/Javascript.class.php:43-48 | Loading a list of dependencies loads everything each one of them loads. |
| Javascript.DependenciesFirst | lib/Javascript.class.php:43-49 | `load(m)` adds everything each dependency of m loads (recursively) before m itself, and m comes last. |
| Javascript.NoDependenciesLoadAlone | lib/Javascript.class.php:43-49 | A module with no dependency entry is added alone. |
| Javascript.LoadOrder | lib/Javascript.class.php:41-50 | Definition of the modules `load(m)` adds, in order. Their properties are proved by LoadEachContains, DependenciesFirst and NoDependenciesLoadAlone. |
| Javascript.JqueryModules | lib/Javascript.class.php:60-67 | With the empty dependency table that the class declares, `loadJquery(false)` adds exactly `jquery-1.6.2`, and `loadJquery(true)` adds it followed by `jquery-ui-1.8.16.custom`. |
| Javascript.Scripts.Load | lib/Javascript.class.php:41-50 | `load` appends the module's load order to the log and leaves the registry alone. |
| Javascript.Scripts.LoadJquery | lib/Javascript.class.php:60-67 | `loadJquery` loads jQuery, then jQuery UI only when asked. |
| Javascript.SelectorKey | lib/Javascript.class.php:84 | Definition of PHP turning a null array key into "". Where the selector is then stored is proved by Scripts.Bind. |
| Javascript.BindEntryEffect | lib/Javascript.class.php:80-84 | After a bind, a (method, selector) pair is registered exactly when it was before or is the one bound. A method is registered exactly when it was before or is the one bound. |
| Javascript.BindEntryIdempotent | lib/Javascript.class.php:84 | Binding the same pair twice leaves the registry as after the first bind. |
| Javascript.BindEntryHas | lib/Javascript.class.php:84 | After a bind, the selector is a member of its method's set. |
| Javascript.BindEntry | lib/Javascript.class.php:80-84 | Definition of the registry after a bind. Its effect is proved by BindEntryEffect, BindEntryIdempotent and BindEntryHas. |
| Javascript.Scripts.Bind | lib/Javascript.class.php:78-85 | `bind` always loads jQuery first. It loads the factory module only when the method is bound for the first time. It records the selector in the method's set. |
| Javascript.MethodPairs | lib/Javascript.class.php:96-97 | Definition of the inner loop's (method, selector) pairs. That the code follows them in insertion order is proved by MethodsCodePairs. |
| Javascript.PairsCodeAppend | lib/Javascript.class.php:96-103 | The generated statements of consecutive pairs concatenate. |
| Javascript.Statement | lib/Javascript.class.php:98-102 | Definition of the statement for one pair: the `.each` call for a non-empty selector, the plain call otherwise. |
| Javascript.Pairs | lib/Javascript.class.php:96-97 | Definition of every (method, selector) pair in loop order. The code follows it by MethodsCodePairs. |
| Javascript.MethodsCodePairs | lib/Javascript.class.php:96-104 | The nested loops emit one statement per (method, selector) pair, in insertion order. |
| Javascript.BindCodeShape | lib/Javascript.class.php:94-108 | The code is '' exactly when nothing is bound. Otherwise it is `$(document).ready(function() {`, then the statements of every pair in insertion order (`$('sel').each(function() { m(this); });` for a non-empty selector, `m();` otherwise), then `});`. |
| Javascript.BindCode | lib/Javascript.class.php:94-108 | Definition of `getBindCode`'s result. Its shape is proved by BindCodeShape. |
| Javascript.Scripts.GetBindCode | lib/Javascript.class.php:93-110 | The nested `.=` loops build exactly that code. |
| Javascript.SingleBindCode | lib/Javascript.class.php:93-110 | A registry with one bind yields the ready wrapper around that bind's single statement. |

## Left out

- I/O and foreign calls are parameters or abstract:
  - `strtotime`, `mb_strtolower` and the `/\b/u` split are fields of a `Platform` value. The tokeniser is only assumed to cover its input, where a lemma needs that.
  - `time()` is the parameter `now`.
  - Curl is a `Transfer` value. The `curl_setopt` options of `_initCurl` (timeouts, user agent, basic auth, redirects, extra headers, the streaming callback) are not modelled. The model records only the method, the URL and the attached payload.
  - `md5(json_encode($keyData))` is replaced by `$keyData` itself. This treats the hash as injective.
  - `json_encode($this->results)` is the results value itself.
- Parts of the classes that are not modelled:
  - `REST::get/post/put/delete` are one-line wrappers around `_doRequest`.
  - `REST::getLastResponseCode` only reads a field that the model shows as `responseCode`.
  - `Redis_Stat::getInstance` and `Javascript::_getContextResponse` are singleton plumbing.
  - `Redis_Client`, `Mongo_Client`, `Redis_Id`, `TemplateHelper` and `web/index.php` are not part of this model.
  - Symfony's response is a status, a headers-sent flag, a content type and a body. `addJavascript` is an append to a log of module names; Symfony's own de-duplication of that list is framework code.
- `sfStopException` ends the request. `respondWith(..., true)` returns `true` to its caller, which then returns at once.
- Stat.TruncDiv: `intval($t / $d)` is float division followed by truncation. It is modelled as exact truncating division, so float rounding for timestamps beyond 2^53 is not captured.
- Stat.Increment: durations must be positive. `_analyticsKeys` divides by a zero duration. The `while` loop in `_timeseriesKeys` does not end for d = 0, or for d < 0 when the start's bucket is at or below the end's bucket. So the time-series members require d > 0 as well.
- Stat.Increment: a store failure is modelled as "the n-th store call throws" (`fault`). The connection set-up that can also throw is part of that same fault.
- PHP's default arguments are required parameters in the model: `$value = 1` of `increment` (Stat.Increment), `$zeroFill = true` of `getTimeseries` (Stat.GetTimeseriesAsWritten, Stat.GetTimeseries), `$withUi = false` of `loadJquery` (Javascript.Scripts.LoadJquery) and `$final = false` of `respondWith` (RestfulActions.Actions.RespondWith). Each caller passes the value it means.
- Stat.Value: phpredis returns counter replies as strings (`"5"`). The model gives them as the integer `Int(n)`. The zero fill only asks whether a reply is set, so this does not change the series.
- PHP's 64-bit integer overflow (to float) in counters, keys and timestamps is not modelled; integers are unbounded.
- Rest.KSort: `ksort` is modelled as ordering by character code. PHP compares numeric-string keys as numbers; the parameter names the class uses are all non-numeric.
- PHP turns numeric-string array keys such as `"12"` into integers. The model keeps every key as a string, and the header names and selectors are treated the same way.
- The header buffer is modelled as a string of characters, one per byte.
- Rest.Client.DoRequest: the buffer's initial `null` is taken to be `""`, which is what `.=` makes of it.
- Javascript.Scripts.Load: `$_dependencies` is always empty in the class. The model takes the table as a parameter, so that dependency order can be stated at all. It requires the table to be acyclic, through a rank function: the source has no cycle detection and would recurse forever on a cycle.
- The `auth` entry's PHP truthiness is modelled as a boolean. A null entry in `_api` is treated as missing, which is what `isset` does.
- DateParser.Transliterate: `strtr` works on bytes. The model works on characters, which gives the same result on valid UTF-8 because every key of the table is one complete two-byte character. The duplicated `ý` key occurs once in the model.
- DateParser.TokenEntry: the key `março` can never match, because transliteration has already turned `ç` into `c` before lookup. The model keeps the key as written.

## Findings

| source | as written | input that shows it | evidently intended | confidence | as-written member | corrected member |
|---|---|---|---|---|---|---|
| lib/Redis/Stat.class.php:154-156 | The zero fill looks up the time-series keys as string keys in the reply of `getMultiple`. That reply is a positional list indexed 0, 1, 2, …, so every point is zero-filled to 0. | The counter `s:hits:600:0` holds 5, the series covers (600, 0, 0) and `zeroFill` is true. The single point reads 0. | Each point carries its stored counter, or 0 when the key is missing. | not executed | Stat.AsWrittenSeriesLosesCount | Stat.CorrectedSeriesCounts |
