# docs_rs_cli search-index extraction, modelled in Dafny

docs_rs_cli downloads the search index that docs.rs publishes for a crate. The
logic lives in `src/search_index.rs` and has four parts, all modelled here:

- `IndexInitializer::new` builds the base URL `https://docs.rs/{name}/{version}/{name}/`.
- `extract_search_index_filename` scans the crate's landing page for the search-index
  script. It first tries the `data-search-index-js` attribute of the first `div` that
  carries one. Failing that, it takes the `src` of the first `script` whose `src`
  contains `search-index`. Failing both, it reports that no index was found.
- `parse_search_index_js` takes the text strictly between the first and the last
  single quote of the downloaded script.
- `format_json` drops every backslash that is not immediately followed by a double
  quote and keeps every other character. The check looks at the next character
  without consuming it, so a backslash that precedes another backslash is judged
  on its own.

Files:

- `wrappers.dfy`: the `Option` type.
- `text.dfy` (module `Text`): the Rust string operations the code calls
  (`find`, `rfind`, `contains`), each specified by what it returns. Also `Split`
  and `Join` on a separator, used to say what the base URL is made of.
- `search_index.dfy` (module `SearchIndex`): the data model (`IndexInitializer`,
  `Element`, `Error`, `Result`), the four operations, and the lemmas about them.

`format_json` and `extract_search_index_filename` are loops in the source.
They are modelled as methods with loops and invariants. `FormatJson` is proved
equal to the function `Unescaped`. All properties of the unescape are proved
about that function. `parse_search_index_js` and `new` are pure and are
modelled as functions.

Three behaviours of the code are easy to misread, and the model follows the code:

- The unescape is idempotent. Every backslash it keeps is followed by a double
  quote, so a second pass keeps it again (`UnescapedIdempotent`).
- A `div` whose `data-search-index-js` value is empty still wins. The code does
  not check the value.
- The comment above `format_json` (src/search_index.rs:53-58) says that a
  backslash and the character after it become that character, which would turn
  `\\n` into `\n`. The code instead drops both backslashes of `\\n` and gives
  `n`: any run of backslashes not followed by a double quote vanishes
  (`BackslashRunVanishes`, `DoubledBackslashReadings`). The model follows the
  code. Read as a rewrite of pairs, the comment agrees with the code on every
  text without two backslashes in a row (`ReadingsAgreeWithoutDoubledBackslash`).
  That reading would not pass the source's own unit test, though. It turns the
  test's `\\\"` into `\\"` where the test expects `\"`
  (`UnitTestCoreReadings`). A plain one-layer unescape, in which a backslash
  and any character after it become that character, does pass the test. It
  disagrees with the first comment bullet (`\"` stays `\"`) and, like the
  pair reading, turns `\\n` into `\n`. No reading fits both comment bullets and
  the test, so the code's rule is modelled as written. As a consequence the JSON
  escapes `\n`, `\\`, `\t` and `\uXXXX` in the payload lose their backslashes.

With exactly one single quote in the script, `parse_search_index_js` computes a
slice whose start is past its end. In Rust that slice panics instead of returning
the format error. The model returns a separate error value, `SliceIndexPanic`,
so this case stays distinct from the "no quote" error `InvalidFormat`.

## Model

| member | source | states |
|---|---|---|
| `SearchIndex.New` | src/search_index.rs:13-26 | keeps the crate name and version; the base URL is the segments `https:`, an empty one, `docs.rs`, name, version, name and a final empty one, joined with `/` |
| `SearchIndex.BaseUrlSplits` | src/search_index.rs:15-19 | for '/'-free name and version, splitting the base URL on '/' gives back exactly those segments |
| `SearchIndex.BaseUrlIdentifiesCrate` | src/search_index.rs:15-19 | two '/'-free crate/version pairs with the same base URL are the same pair |
| `SearchIndex.FormatJson` | src/search_index.rs:53-68 | the single pass with one character of lookahead produces exactly `Unescaped(index)` |
| `SearchIndex.Unescaped` | src/search_index.rs:59-66 | the output is never longer than the input |
| `SearchIndex.UnescapedIsSubsequence` | src/search_index.rs:59-66 | the output is a subsequence of the input: characters are only deleted |
| `SearchIndex.UnescapedKeepsOtherCharacters` | src/search_index.rs:59-66 | with backslashes removed, output and input are equal: every other character is kept, in order, and nothing is added |
| `SearchIndex.UnescapedAppend` | src/search_index.rs:61-66 | unescaping distributes over concatenation unless a backslash ends the first part and a double quote starts the second |
| `SearchIndex.EscapedQuoteKept` | src/search_index.rs:57-65 | a backslash followed by a double quote is kept, and so is the quote |
| `SearchIndex.BackslashDropped` | src/search_index.rs:58-63 | a backslash followed by anything but a double quote, or at the end of the input, is dropped and does not change how the rest is read |
| `SearchIndex.PlainPrefix` | src/search_index.rs:61-66 | backslash-free text in front passes through unchanged |
| `SearchIndex.TripleEscapedQuote` | src/search_index.rs:62-65 | three backslashes and a double quote become one backslash and the quote |
| `SearchIndex.BackslashRunVanishes` | src/search_index.rs:62-63 | a run of backslashes not followed by a double quote vanishes entirely, whatever its length |
| `SearchIndex.PairRewritten` | src/search_index.rs:53-58 | the comment's rule, read as a rewrite of pairs, never lengthens the text |
| `SearchIndex.ReadingsAgreeWithoutDoubledBackslash` | src/search_index.rs:53-66 | on texts without two backslashes in a row, the code and the comment's pair reading give the same result |
| `SearchIndex.DoubledBackslashReadings` | src/search_index.rs:56-63 | on `\\n` the comment's pair reading keeps one backslash (`\n`) and the code keeps none (`n`) |
| `SearchIndex.UnitTestCoreReadings` | src/search_index.rs:56-65 | on the unit test's `\\\"`, the pair reading gives `\\"` and the code gives the `\"` the test expects |
| `SearchIndex.NoBackslashUnchanged` | src/search_index.rs:61-66 | input without a backslash is returned unchanged |
| `SearchIndex.UnescapedOnlyQuoteEscapes` | src/search_index.rs:62-65 | every backslash left in the output is immediately followed by a double quote |
| `SearchIndex.UnescapedFixedPoints` | src/search_index.rs:61-66 | a text is left unchanged if and only if each of its backslashes is followed by a double quote |
| `SearchIndex.UnescapedIdempotent` | src/search_index.rs:61-66 | unescaping twice gives the same result as unescaping once |
| `SearchIndex.UnitTestShape` | src/search_index.rs:122-125 | the shape of the unit-test input (plain text, `\\\"` twice, then `\'`) unescapes to the plain text with `\"` twice and `'` |
| `SearchIndex.UnitTestExample` | src/search_index.rs:120-127 | the unit test's input string unescapes to its expected string |
| `SearchIndex.ParseSearchIndexJs` | src/search_index.rs:40-51 | no single quote gives `InvalidFormat`; exactly one gives the slice panic; at least two gives a result that is a subsequence of the script; the panic's slice starts one past its end, which is the script's only quote |
| `SearchIndex.ParseQuotedLiteral` | src/search_index.rs:41-50 | for quote-free text around a single-quoted literal, whatever the literal contains, the result is the unescaped body of the literal |
| `SearchIndex.ParseValue` | src/search_index.rs:41-50 | for every script with at least two single quotes, the first quote comes before the last and the result is `Ok` of the unescaped text strictly between them |
| `SearchIndex.ExtractSearchIndexFilename` | src/search_index.rs:89-113 | returns the first index `div`'s attribute value whatever scripts are present; if there is no such `div`, the `src` of the first `script` whose `src` contains `search-index`; fails with `NotFound(name, version)` exactly when neither exists |
| `Text.Find` | src/search_index.rs:42-44 | `find` gives nothing exactly when the character is absent, otherwise the position of its first occurrence |
| `Text.RFind` | src/search_index.rs:46-48 | `rfind` gives nothing exactly when the character is absent, otherwise the position of its last occurrence |
| `Text.Contains` | src/search_index.rs:102 | `contains` holds exactly when the pattern occurs at some position |

## Left out

- The HTTP side is not modelled: `fetch_search_index`, `fetch_top_page`, the download in `fetch_search_index_url`, the `Client` field, and async/await. These are network I/O.
- HTML parsing by the `scraper` crate is not modelled. A document is given as its elements in document order, each with a tag name and a map of attributes; `Attr` stands for `attr` and is a plain map lookup. How the parser handles malformed markup or repeated attributes is not modelled.
- `Url::parse` and `Url::join` in `fetch_search_index_url` (src/search_index.rs:74-75) are not modelled. They belong to a foreign URL library, so resolving the file name against the base URL is not covered.
- The wording of the error messages is not modelled. `NotFound` keeps the crate name and version that its message mentions.
- `src/bin/main.rs` is not modelled. It is an entry point that awaits a download and prints the result.
- Rust slices strings by byte offset and the model by character position. Every character the code searches for (`'`, `\`, `"`) is one byte in UTF-8, so both pick out the same text.
- ParseSearchIndexJs: in the one-quote case the model returns the error value `SliceIndexPanic` where the code panics, because a Dafny function cannot panic.
