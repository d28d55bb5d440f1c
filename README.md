# Product-page pipeline: extract, clean, validate

A Dafny model of the per-product core of a marketplace scraper. For every product page it:

1. pulls the fields out of the parsed page (src/extractors.py) and assembles the raw record (src/parser.py);
2. normalizes text and decodes obfuscated image URLs (utils/helpers.py);
3. cleans every field (cleaners/data_cleaner.py);
4. validates the cleaned record (utils/validators.py), which decides whether main.py saves it.

Python `str` is modelled as a sequence of code points (`Text.PyStr`), so lone surrogates exist and `len` and slicing count code points. `Text.IsSpace` is Python's `str.isspace`, which is also what regex `\s` and `str.strip()` use. A Python `dict` is the list of its items in insertion order (`Dicts.Dict`). Assigning to a present key replaces the value in place, and a new key is appended.

A product record is `Products.Product`, with one `Option` per key. The page is taken as already parsed (`Extractors.Document`). It holds, in document order:

- the JSON-LD blocks, each reduced to the integer price it yields or to `Unusable`;
- the page text;
- the `h1` texts;
- the direct `div` column texts of every `div.grid.grid-cols-2` row;
- the `h2`/`div` flow;
- the `src` attribute of every `img`.

Layout, one module per file:

- `wrappers.dfy`: `Option` and `Result`.
- `text.dfy`: the `str` primitives.
- `dicts.dfy`: dicts built by a loop.
- `utf8.dfy`: UTF-8 as in RFC 3629.
- `base64.dfy`: Base64 as in section 4 of RFC 4648.
- `helpers.dfy`: utils/helpers.py.
- `products.dfy`: the product record.
- `clean_text.dfy`: `clean_text`.
- `cleaner.dfy`: the other cleaners.
- `validators.dfy`: utils/validators.py.
- `extractors.dfy`: src/extractors.py.
- `pipeline.dfy`: the record assembly of src/parser.py and the parse, clean and validate step of main.py.

Where the source loops, the model has a method with a loop, proved equal to a specification function. The properties are proved about that function:

| loop | method | specification function |
|---|---|---|
| `clean_characteristics` | `Cleaner.CleanCharacteristics` | `Build` |
| `validate_characteristics` | `Validators.ValidateCharacteristics` | `CharacteristicsValid` |
| `validate_product` | `Validators.ValidateProduct` | `FailedChecks`/`Messages` |
| `extract_price` | `Extractors.ExtractPrice` | `ExtractedPrice` |
| `extract_characteristics` | `Extractors.ExtractCharacteristics` | `ExtractedCharacteristics` |
| `extract_description` | `Extractors.ExtractDescription` | `ExtractedDescription` |

`clean_text` rebinds its text through five rewrites. It is `TextCleaning.CleanTextRewrites`, which computes the same value as the function `TextCleaning.CleanText` that the other cleaners call.

### Behaviour the proofs bring out

- `clean_text` is proved idempotent on text without invisible code points (U+200B..U+200F, U+202A..U+202E, U+2060..U+206F). With them it need not be. The removal of those code points runs after the collapse and the strip, so a zero-width space, a space and another zero-width space clean to `" "`, and `" "` cleans to `None` (`TextCleaning.CleanTextNotIdempotent`).
- On text without invisible code points, `clean_text` is `' '.join(text.split())` of the normalized text, or `None` when there is no word (`TextCleaning.CleanTextJoinsWords`). That is the docstring's promise: repeated spaces, line breaks and tabs become single spaces.
- For the same reason, a characteristics key made of that text survives `clean_characteristics` as the empty key, and the cleaned record then fails `validate_characteristics` (`Pipeline.CleanedCharacteristicsCanFail`).
- `validate_image_url` rejects an empty `src` (`""`), although an absent one is accepted.
- In the text fallback of `extract_price` the group may hold any whitespace, but only `' '` and U+202F are removed before `int()`. `int()` is called outside the `try`. So a number written with another space inside it, such as the no-break space U+00A0 in `"1\u00a0234 ₽"`, makes `extract_price` raise. main.py then skips the product (`Extractors.TextPriceNoBreakSpaceRaises`, `Pipeline.ProcessProduct`). A group of more than 4300 digits raises too, through the interpreter's limit on integer string conversion (`Extractors.PyInt`). So does a group that holds an information separator (U+001C..U+001F): `\s` matches it, but `int()` does not strip it, so `"12\x1c₽"` raises (`Extractors.TextPriceInfoSeparatorRaises`).

## Model

| member | source | states |
|---|---|---|
| Text.WithoutSurrogates | utils/helpers.py:21 | the result keeps exactly the non-surrogate code points, is well-formed, and equals the input when that is well-formed |
| Text.Strip | utils/validators.py:30 | `str.strip()`: no whitespace at either end, and empty exactly when the input is all whitespace |
| Text.StripSlice | cleaners/data_cleaner.py:31 | the strip is the slice between a whitespace prefix and a whitespace suffix |
| Text.StripUnchanged | utils/validators.py:30 | a string without whitespace at its ends is its own strip |
| Text.FindFrom | utils/helpers.py:26 | `str.find`: the first occurrence at or after `from`, or none at all |
| Text.BeforeFirst | utils/helpers.py:29 | `split(p)[0]`: the longest prefix holding no occurrence of `p`, followed by `p` when there is one |
| Text.LastSegment | utils/helpers.py:29 | `split("/")[-1]`: a slash-free suffix, preceded by a slash unless it is the whole string |
| Text.LastSegmentAfterSlash | utils/helpers.py:29 | after a slash and a slash-free tail, the last segment is that tail |
| Text.UpperChar | cleaners/data_cleaner.py:103 | `upper()` of one character by the model's table: one or two characters, whitespace and invisible code points unchanged |
| Text.NonSpaceAppend | cleaners/data_cleaner.py:25-31 | the non-whitespace text of a concatenation is the concatenation of the non-whitespace texts |
| Utf8.Decode | utils/helpers.py:30 | strict `bytes.decode("utf-8")`: a result is always well-formed |
| Utf8.EncodeDecode | utils/helpers.py:30 | whatever the strict decoder accepts is the UTF-8 of its result, so overlong forms, encoded surrogates and values above U+10FFFF are refused |
| Utf8.DecodeEncode | utils/helpers.py:21 | round trip: decoding the UTF-8 of any well-formed string gives it back |
| Utf8.EncodeIgnoreSkipsSurrogates | utils/helpers.py:21 | `errors="ignore"` encodes a string exactly as it encodes the string without its surrogates |
| Utf8.EncodeIgnoreAppend | utils/helpers.py:21 | encoding distributes over concatenation |
| Base64.Encode | utils/helpers.py:30 | every 3 octets become 4 symbols, so the length is `ceil(n/3)*4` |
| Base64.DecodeEncode | utils/helpers.py:30 | round trip: `b64decode` inverts the encoding of any octets |
| Base64.DecodeRejectsPartialQuantum | utils/helpers.py:30-32 | under the model's strict decoding, text whose length is not a multiple of 4 never decodes, so the model takes the fallback; CPython's lenient decoder can differ (see Left out) |
| Base64.EncodeAppend | utils/helpers.py:30 | octets in whole groups of three encode independently of what follows |
| Base64.EncodeHasNoDot | utils/helpers.py:29-30 | an encoding never contains `.`, so `.jpg` cannot cut into it |
| Helpers.NormalizeText | utils/helpers.py:17-21 | `None` maps to `None`; otherwise the UTF-8 round trip drops exactly the lone surrogates, which is the identity on well-formed text |
| Helpers.Normalized | utils/helpers.py:21 | `normalize_text` of a present string is present, loses exactly its lone surrogates and is well-formed |
| Helpers.NormalizeImageUrl | utils/helpers.py:24-32 | a missing, empty or marker-less URL comes back unchanged; a URL with the marker whose segment decodes as Base64 and then UTF-8 becomes the decoded address; the URL itself when a decoding fails; never `None` for a present URL |
| Helpers.ImageUrlRoundTrip | utils/helpers.py:29-30 | an `https:` address encoded as UTF-8 and Base64 and placed as the last segment before `.jpg` is recovered exactly |
| Helpers.EncodingStartsWithMarker | utils/helpers.py:26 | the Base64 of any `https:` address starts with `aHR0cHM6`, the marker without its slash |
| TextCleaning.DropRun | cleaners/data_cleaner.py:25-28 | dropping a leading run of class characters keeps the non-whitespace text |
| TextCleaning.CollapseRuns | cleaners/data_cleaner.py:25-28 | `re.sub(class+, ' ')`: the only class character left is a space, never two in a row, and the result is empty exactly when the input is |
| TextCleaning.Segments | cleaners/data_cleaner.py:25-28 | `re.split(class+, s)`: at least one piece, and no piece holds a class character |
| TextCleaning.CollapseRunsJoinsSegments | cleaners/data_cleaner.py:25-28 | `re.sub(class+, ' ', s)` is `' '.join(re.split(class+, s))`: every run becomes exactly one space |
| TextCleaning.CollapseRunsKeeps | cleaners/data_cleaner.py:25-28 | collapsing keeps the non-whitespace text and brings in no character but a space |
| TextCleaning.CollapseRunsUnchanged | cleaners/data_cleaner.py:25-28 | collapsing changes nothing where every class character is a lone space |
| TextCleaning.Words | cleaners/data_cleaner.py:11-16 | `str.split()`: non-empty words without whitespace |
| TextCleaning.WordsCollapseRuns | cleaners/data_cleaner.py:25-28 | collapsing runs of either class keeps the words |
| TextCleaning.WordsStrip | cleaners/data_cleaner.py:31 | stripping keeps the words |
| TextCleaning.RemoveInvisible | cleaners/data_cleaner.py:34 | keeps exactly the code points outside the three invisible ranges, and is the identity on text without them |
| TextCleaning.CleanText | cleaners/data_cleaner.py:9-36 | `None` for missing or empty text, never `""`; no line break, tab, invisible code point or surrogate, and only plain spaces; the non-whitespace text is preserved; `None` only when the input is whitespace, invisible code points and surrogates, and exactly when on text without invisible code points; tidy ends and no double spaces on text without invisible code points |
| TextCleaning.CleanTextJoinsWords | cleaners/data_cleaner.py:9-36 | on text without invisible code points the result is `' '.join(t.split())` of the normalized text `t`, `None` when it has no word |
| TextCleaning.CleanTextRewrites | cleaners/data_cleaner.py:18-36 | the five rewrites in sequence compute `CleanText` |
| TextCleaning.CleanTextSteps | cleaners/data_cleaner.py:22-34 | the facts each rewrite carries to the next, from which the contract of `CleanText` follows |
| TextCleaning.CleanTextTidySteps | cleaners/data_cleaner.py:28-31 | without invisible code points the result has no whitespace at the ends and none doubled |
| TextCleaning.StripKeepsNoAdjacentSpaces | cleaners/data_cleaner.py:28-31 | stripping text with no doubled whitespace leaves it tidy |
| TextCleaning.NonSpaceCommutes | cleaners/data_cleaner.py:34 | removing invisible code points and removing whitespace commute |
| TextCleaning.CleanTextFixedPoint | cleaners/data_cleaner.py:9-36 | text already in clean form and tidy is returned unchanged |
| TextCleaning.CleanTextIdempotent | cleaners/data_cleaner.py:9-36 | on text without invisible code points, cleaning twice is cleaning once |
| TextCleaning.CleanTextNotIdempotent | cleaners/data_cleaner.py:31-34 | with invisible code points it is not: zero-width space, space, zero-width space gives `" "`, which gives `None` |
| Cleaner.CleanPrice | cleaners/data_cleaner.py:39-48 | `None` for a missing or negative price; every other price, 0 included, unchanged |
| Cleaner.Shorten | cleaners/data_cleaner.py:62-63 | at most `limit` characters; shorter text unchanged; longer text is its first `limit-3` characters and `...` |
| Cleaner.CleanTitle | cleaners/data_cleaner.py:51-65 | `None` exactly when `clean_text` gives `None`; otherwise at most 500 characters, the cleaned text itself or its first 497 characters and `...` |
| Cleaner.CleanDescription | cleaners/data_cleaner.py:68-82 | as `clean_title` with 10000 and 9997 |
| Cleaner.CleanTitleIdempotent | cleaners/data_cleaner.py:51-65 | cleaning a cleaned title again changes nothing, for text without invisible code points |
| Cleaner.CleanDescriptionIdempotent | cleaners/data_cleaner.py:68-82 | the same for descriptions |
| Cleaner.CapitalizeFirst | cleaners/data_cleaner.py:103 | both branches of the conditional upper-case the first character and keep the rest |
| Cleaner.CapitalizeFirstTidy | cleaners/data_cleaner.py:103 | capitalizing keeps a tidy key tidy, and capitalizing twice is capitalizing once |
| Cleaner.NormalizeKey | cleaners/data_cleaner.py:101-103 | the key is stripped; an empty result stays empty, otherwise its first character is upper-cased and the rest kept; the result is its own strip and keeps the clean form |
| Cleaner.NormalizeKeyIdempotent | cleaners/data_cleaner.py:101-103 | normalizing a normalized key changes nothing |
| Cleaner.CleanItem | cleaners/data_cleaner.py:93-105 | an item is kept exactly when both key and value clean to something; the value is the cleaned value and the key is the normalized cleaned key, so stripped |
| Cleaner.CleanedCharacteristics | cleaners/data_cleaner.py:85-107 | `{}` for a non-dict; distinct keys, every value in clean form, every key stripped |
| Cleaner.CleanCharacteristics | cleaners/data_cleaner.py:85-107 | the loop builds exactly the dict `Build` describes, `{}` for a non-dict |
| Cleaner.CleanedCharacteristicsLastWins | cleaners/data_cleaner.py:90-105 | a key is present exactly when some item cleans to it, and its value is the cleaned value of the last such item |
| Cleaner.CleanProduct | cleaners/data_cleaner.py:110-125 | URL and image URL copied; title, price and description are their cleaners' results, so at most 500 characters, non-negative and at most 10000 characters; characteristics are the cleaned dict, `{}` when the entry is missing, with distinct keys |
| Cleaner.CleanedCharacteristicsIdempotent | cleaners/data_cleaner.py:85-107 | cleaning cleaned characteristics again changes nothing, for text without invisible code points |
| Cleaner.CleanProductIdempotent | cleaners/data_cleaner.py:110-125 | `clean_product` is idempotent on records without invisible code points |
| Dicts.Assign | cleaners/data_cleaner.py:105 | `d[k] = v`: `k` maps to `v`, every other key keeps its value, the length grows only for a new key |
| Dicts.Build | src/extractors.py:33-40 | the dict a filling loop builds has distinct keys and no more entries than elements that give one |
| Dicts.BuildStep | cleaners/data_cleaner.py:90-105 | one more iteration of the loop is one more assignment |
| Dicts.BuildLastWins | cleaners/data_cleaner.py:105 | last write wins: a key is present exactly when some element gives it, with the value of the last such element |
| Dicts.BuildItemsFromEntries | src/extractors.py:37-39 | every item of the built dict was given by some element |
| Dicts.BuildOfFixedItems | cleaners/data_cleaner.py:90-105 | a dict whose every item maps to itself is rebuilt unchanged |
| Validators.ValidateUrl | utils/validators.py:12-16 | true exactly when present and starting with `http://` or `https://` |
| Validators.ValidatePrice | utils/validators.py:19-23 | true exactly when present and 0 < price < 10 000 000 |
| Validators.ValidateTitle | utils/validators.py:26-31 | true exactly when present and 3 to 500 characters once stripped |
| Validators.ValidateDescription | utils/validators.py:34-39 | passes exactly when `None` or at most 10000 characters once stripped; so any text of at most 10000 characters passes |
| Validators.ValidateImageUrl | utils/validators.py:42-46 | `None` passes; a present URL passes exactly when `validate_url` accepts it, so `""` fails |
| Validators.ValidateCharacteristics | utils/validators.py:49-59 | the loop with early return is true exactly when it is given a dict none of whose keys or values is blank |
| Validators.FailedChecksMembers | utils/validators.py:69-87 | the failed checks listed are exactly those that fail, at most six |
| Validators.FailedChecksInOrder | utils/validators.py:69-87 | they are listed in the order url, title, price, description, image_url, characteristics, each once |
| Validators.FailedMessages | utils/validators.py:69-87 | the messages are the verdicts of the six validators, in order |
| Validators.AllPass | utils/validators.py:89 | no message is reported exactly when every check passes |
| Validators.ValidateProduct | utils/validators.py:62-89 | the appended errors are the messages of the failed checks in order, and the product is valid exactly when there are none, which is exactly when every check passes |
| Validators.ValidateProductStrict | utils/validators.py:92-101 | raises `ValidationError` exactly when a check fails, with the messages joined by `, ` after the prefix |
| Extractors.FindFirst | src/extractors.py:15 | the first position at or after `from` that satisfies the predicate, or none |
| Extractors.FirstOfferPrice | src/extractors.py:15-21 | the price of the first usable JSON-LD block; `None` exactly when no block is usable |
| Extractors.RunEnd | src/extractors.py:25 | the greedy end of a run of digits and whitespace |
| Extractors.PriceMatchIsPattern | src/extractors.py:25 | the regex matches at a position exactly when some group end and ruble sign fit, and the greedy group ends at the ruble sign |
| Extractors.FindPriceMatch | src/extractors.py:25 | `re.search`: the leftmost position where the pattern matches |
| Extractors.Group | src/extractors.py:27 | the captured group: the slice from the match position up to the ruble sign, a digit followed by at least one digit or whitespace character |
| Extractors.DropSeparatorsKeeps | src/extractors.py:27 | removing `' '` and U+202F leaves none of them, and keeps every property all characters share |
| Extractors.PyInt | src/extractors.py:27 | `int()` succeeds exactly when the stripped text is non-empty digits, at most 4300 of them, and no information separator (U+001C..U+001F), which `int()` does not strip, is present; it then reads the digits; it fails with the offending literal, with the digit-limit error exactly when the literal is well formed but too long |
| Extractors.IntOfDigitsAndSpaces | src/extractors.py:27 | `int()` of digits and whitespace starting with a digit succeeds exactly when no whitespace precedes a digit, no information separator is present and there are at most 4300 digits, and then reads the digits |
| Extractors.TextPrice | src/extractors.py:24-28 | no match gives `None`; a match gives a price of at least 0 read from the group's digits, or raises exactly when whitespace other than the removed separators precedes a digit, the group holds an information separator, or it has more than 4300 digits |
| Extractors.TextPriceWithSeparators | src/extractors.py:27 | a group of digits, spaces and U+202F only raises exactly when it has more than 4300 digits, and otherwise reads as its digits |
| Extractors.TextPriceNoBreakSpaceRaises | src/extractors.py:27 | `"1\u00a0234 ₽"` raises |
| Extractors.TextPriceInfoSeparatorRaises | src/extractors.py:25-27 | `"12\x1c₽"` raises: U+001C is in the group but `int()` does not strip it |
| Extractors.ExtractedPrice | src/extractors.py:12-28 | a usable JSON-LD block decides; only without one does the text fallback run; `None` exactly when neither yields a price |
| Extractors.ExtractPrice | src/extractors.py:12-28 | the loop over the JSON-LD blocks with early return, then the fallback, computes `ExtractedPrice` |
| Extractors.PriceIgnoresTextWhenOffered | src/extractors.py:15-21 | with a usable block the page text plays no part and the call returns a price |
| Extractors.ExtractedCharacteristics | src/extractors.py:31-40 | the dict has distinct keys |
| Extractors.ExtractCharacteristics | src/extractors.py:31-40 | the loop fills exactly `ExtractedCharacteristics` |
| Extractors.CharacteristicsFromRows | src/extractors.py:33-40 | at most one entry per two-column row; a key is present exactly when such a row gives it, with the value of the last one; keys and values well-formed |
| Extractors.ExtractedDescription | src/extractors.py:43-52 | `None` without an "О товаре" heading; a result is well-formed |
| Extractors.ExtractDescription | src/extractors.py:43-52 | the loop over the elements after the heading with early return computes `ExtractedDescription` |
| Extractors.DescriptionAfterHeading | src/extractors.py:45-52 | after the first such heading, the result is the normalized text of the first long division, or `None` when none follows |
| Extractors.DescriptionIsLong | src/extractors.py:50-51 | on well-formed page text a description is longer than 120 characters |
| Extractors.ExtractImageUrl | src/extractors.py:55-58 | the raw `src` of the first image that has one; `None` exactly when none has |
| Pipeline.PageTitle | src/parser.py:35-39 | `None` exactly when the page has no `h1`, else the normalized text of the first |
| Pipeline.ParseProductPage | src/parser.py:34-44 | raises exactly when no JSON-LD block is usable and the text fallback raises; otherwise each field is its extractor's result, and the image URL is present exactly when some image has a `src` |
| Pipeline.ProcessProduct | main.py:31-43 | a raising parse fails the step; otherwise the cleaned record is saved exactly when every check passes, and is skipped, with the non-empty list of messages of the failed checks, exactly when one fails |
| Pipeline.SavedRecordFields | main.py:34-43 | a saved record has the page's http(s) URL, a title of 3 to 500 characters and the extracted price, between 1 and 9 999 999 |
| Pipeline.CleanedDescriptionValid | main.py:34-37 | a cleaned description always passes `validate_description` |
| Pipeline.CleanedPriceValid | main.py:34-37 | cleaning the price never changes the price verdict |
| Pipeline.CleanedTitleValid | main.py:34-37 | a cleaned title without invisible code points is valid exactly when it has at least 3 characters |
| Pipeline.CleanedCharacteristicsValid | main.py:34-37 | cleaned characteristics without invisible code points always pass `validate_characteristics` |
| Pipeline.CleanedCharacteristicsCanFail | main.py:34-37 | with invisible code points they can fail: the key zero-width space, space, zero-width space becomes the empty key |

## Left out

- Loading the page, and the selectors behind it: Selenium, the waits and BeautifulSoup's CSS selectors are not modelled. The page is a given `Extractors.Document`, and what `select`, `find`, `find_all_next` and `get_text` return is taken as given.
- JSON-LD parsing and `int(float(offers["price"]))` are not modelled. Each block is reduced to the integer it yields or to `Unusable`, which covers every path that raises inside the `try`.
- The database upsert, the image download and upload, `sleep_rand`, `download_temp_image`, console output and the outer loop of main.py are I/O. Only one iteration, up to the decision to save, is modelled.
- An exception raised by `save_product` or later steps is not modelled. `Pipeline.Outcome.Failed` covers only the `ValueError` from `extract_price`.
- pars.py (a legacy copy of the same functions), quality/, analytics/, preprocessing/, visualization/, reports/, config/ and reset_storage.py are not part of this model.
- Base64.Decode is strict RFC 4648 decoding. CPython's default `b64decode` is lenient: it discards characters outside the alphabet, skips a `=` at the start of a quantum (`"YWJj="` gives `b"abc"`) and stops at the first completed padded quantum (`"YQ==YQ=="` gives `b"a"`). For such segments Python returns a decoded address where the model takes the fallback.
- Text.UpperChar covers ASCII, Latin-1 and basic Cyrillic, with `ß` becoming `SS`. Other scripts are left unchanged, where Python's full Unicode table would upper-case them.
- `\d` in the price pattern is modelled as the ASCII digits. Python also matches other Unicode decimal digits.
- Extractors.PyInt models `int()` only on strings of ASCII digits and whitespace, the only strings the price group can produce. Signs, underscores and other digits are not modelled. The limit of 4300 digits is `sys.int_info.default_max_str_digits` of CPython 3.11 and later; an interpreter without it, or with the limit changed, would read longer groups. For a malformed literal of more than 4300 digits the model gives the invalid-literal error, as CPython 3.12 and later do; 3.11 raises the limit's error instead. Both are `ValueError`, so only the message differs.
- Extractors.DescriptionIsLong holds only for page text without lone surrogates, because `normalize_text` drops them and can shorten the text to 120 characters or fewer.
- Products.Product models characteristics values as strings. A dict with non-string keys or values, which `clean_text` would reject with an exception, is not modelled.
- Cleaner.CleanTitleIdempotent, Cleaner.CleanDescriptionIdempotent, Cleaner.CleanProductIdempotent and TextCleaning.CleanTextIdempotent require text without invisible code points, because without that premise idempotence is false (see TextCleaning.CleanTextNotIdempotent).
