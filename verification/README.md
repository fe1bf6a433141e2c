# keyword-genie: the suggestion harvester, in Dafny

This project models `get_google_suggestions` from `app.py` of keyword-genie,
a small tool that collects Google autocomplete suggestions for a seed
keyword. It also models the one pure piece of the page code: the keyword
block of the generated prompt.

The harvester does the following, and each step is a module here:

- **Query expansion** (`Expansion`). The seed keyword comes first. Then comes
  `seed + " " + c` for each letter `c` of a fixed suffix string. That string
  holds the 26 Latin letters and the 46 kana `あ`..`ん`, 72 letters in all.
- **Envelope stripping** (`Envelope`). The reply body
  `window.google.ac.h([...])` is cut after the first `(` and before the last
  `)`. Only the JSON payload is left.
- **Aggregation and error policy** (`Suggestions`). A set is seeded with the
  base keyword. From each decoded reply, element 0 of every entry in element 1
  is added. A request error ends the loop (`break`) but keeps what was
  already collected. A JSON decode error skips only that query (`continue`).
  `Classify` turns one query's outcome into the step the loop body takes:
  `Stop`, `Skip` or `Add(keywords)`. `StepsOf` walks the query list and
  takes one step per query; `Steps` applies it to the expanded queries of the
  seed. `Gather` runs those steps in query order.
- **Output** (`StringOrder`, `Suggestions.GetGoogleSuggestions`). The set is
  returned as a list sorted the way Python sorts `str` values: by code point,
  with a proper prefix first. Strings with lone surrogates are outside the
  model (see "Left out").
- **Prompt block** (`Prompt`). The keywords are joined into one `- kw` line
  per keyword, separated by newlines (`JoinLines`). `SplitLines`, the
  inverse of that join, serves to state what the block contains line by
  line.

The network and the JSON parser are parameters:

- `respond: string -> Fetch` gives the outcome of requesting one query:
  `RequestErr` or `Fetched(text)`. Every query string is sent at most once
  (`Expansion.QueriesDistinct`), so a function of the query string loses
  nothing.
- `decode: string -> Decoded` stands for `json.loads`. It gives `DecodeErr`
  or `Parsed(reply)`.

`StringOrder.SortedList`, and with it `Suggestions.GetGoogleSuggestions`,
is a ghost function. Listing a set in order picks a least element with `:|`;
`IsLeast` is a ghost predicate and no proof that the least element is unique
is given, so the choice stays in ghost code.

`Text` holds the string search helpers that the stripping and the line
splitting share.

The queries are sent one after another, in list order. A request error ends
the loop. The reply text is always stripped before it is decoded.

## Model

| member | source | states |
|---|---|---|
| Expansion.SuggestLettersShape | app.py:15 | the suffix string has 72 letters, the 26 Latin letters first, each letter strictly above the previous one in code point |
| Expansion.Expand | app.py:25 | one query per suffix letter, in letter order: query `i` is the seed, a space, then letter `i` |
| Expansion.Queries | app.py:25 | the query list has `1 + 72` entries: entry 0 is the seed, and entry `i+1` is the seed, a space and suffix letter `i` |
| Expansion.IncreasingDistinct | app.py:15 | a suffix string in increasing code-point order has no repeated letter |
| Expansion.QueriesDistinct | app.py:15-25 | no query string occurs twice in the list, so each is requested at most once |
| Envelope.AfterFirst | app.py:38 | `split('(', 1)[-1]`: the input unchanged when there is no `(`; otherwise the suffix that directly follows a `(` with no `(` before it |
| Envelope.BeforeLast | app.py:38 | `rsplit(')', 1)[0]`: the input unchanged when there is no `)`; otherwise the prefix that is directly followed by a `)` with no `)` after it |
| Envelope.AfterFirstAt | app.py:38 | cutting at a `(` that has no `(` before it keeps exactly the text after it |
| Envelope.BeforeLastAt | app.py:38 | cutting at a `)` that has no `)` after it keeps exactly the text before it |
| Envelope.Strip | app.py:38 | a text with neither `(` nor `)` is passed to the decoder unchanged, and the result is never longer than the input |
| Envelope.StripSubstring | app.py:38 | whatever the reply, the text handed to the decoder is a contiguous substring of it |
| Envelope.StripEnvelope | app.py:38 | for `p(b)s` where `p` has no `(` and `s` has no `)`, the decoder receives exactly `b` |
| StringOrder.LessIsLexicographic | app.py:54 | the comparison `sorted` uses on strings holds exactly when the first is a proper prefix of the second, or the two agree up to a position where the first has the smaller code point |
| StringOrder.LessIrreflexive | app.py:54 | no string sorts before itself |
| StringOrder.LessTransitive | app.py:54 | the order `sorted` uses on strings is transitive |
| StringOrder.LessTotal | app.py:54 | any two different strings are ordered one way or the other |
| StringOrder.LessAsymmetric | app.py:54 | two strings are never each before the other |
| StringOrder.AscendingDistinct | app.py:54 | a strictly ascending list has no duplicates |
| StringOrder.SortedList | app.py:54 | `sorted(list(s))` is strictly ascending, has exactly the members of `s`, and has length `|s|` |
| StringOrder.AscendingUnique | app.py:54 | two strictly ascending lists with the same members are equal |
| StringOrder.SortedListUnique | app.py:17-54 | every strictly ascending listing of the set equals the returned list, so the output depends only on the set and not on the order keywords arrived in |
| Suggestions.EntryKeywords | app.py:42-43 | a keyword is added for a reply exactly when some entry of its element 1 has that keyword as element 0 |
| Suggestions.Classify | app.py:28-52 | the loop body for one query stops exactly on a request error, skips exactly on a decode error of the stripped reply, and otherwise adds exactly element 0 of each entry of element 1 of the decoded reply |
| Suggestions.Cutoff | app.py:27-49 | the loop handles the queries up to the first request error: none before it stops, and the one at the cut does |
| Suggestions.StepsOf | app.py:27-39 | walking the query list from the front gives one step per query, and step `k` is the loop body's outcome for query `k` |
| Suggestions.Gather | app.py:27-52 | a keyword is collected by the loop exactly when some query before the first request error adds it |
| Suggestions.StopEndsLoop | app.py:47-49 | after a request error nothing more is added, and what was collected before it is kept |
| Suggestions.StopAt | app.py:47-49 | when query `k` fails, the loop collects exactly what the queries before `k` collect |
| Suggestions.SkipIsDropped | app.py:50-52 | an undecodable reply adds nothing and the loop goes on: the result is that of the remaining queries with that one removed |
| Suggestions.GatherOrderIndependent | app.py:42-43 | without request errors, any rearrangement of the replies collects the same set |
| Suggestions.GetGoogleSuggestions | app.py:9-54 | the returned list holds the base keyword, is strictly ascending and free of duplicates, and holds exactly the base keyword and the keywords of replies processed before the first request error |
| Suggestions.FirstRequestErrorKeepsSeed | app.py:17-54 | when the very first request fails, the result is exactly `[seed]` |
| Suggestions.RequestErrorOnQuery | app.py:47-54 | a request error on query `k` makes the result the sorted base keyword plus what queries before `k` collected, the same for any outcomes of the later queries |
| Suggestions.DecodeErrorOnQuery | app.py:50-54 | a decode error on query `k` gives the result obtained by dropping query `k` |
| Prompt.FormatKeywords | app.py:112 | the block is empty exactly when there are no keywords |
| Prompt.FormatOneLinePerKeyword | app.py:112 | for a non-empty list of newline-free keywords the block has exactly one line per keyword, line `i` being `- ` and keyword `i`, with no trailing newline |

## Left out

- The HTTP request, `raise_for_status`, the URL template and the
  `quote_plus` encoding (app.py:21, app.py:30-34) are network I/O. They are
  replaced by the `respond` oracle. Any `RequestException` is its
  `RequestErr`.
- `json.loads` (app.py:39) is a foreign parser. It is replaced by the
  `decode` oracle.
- Decoded replies of any shape other than an array whose element 1 is an
  array of entries, each an array with a string at index 0 (app.py:39-43).
  The `Reply` type admits only that shape. In the source, the other shapes
  behave in several ways:
  - A missing element 1, an empty entry or an empty key string raises
    `IndexError`. An object where an array is indexed raises `KeyError`. A
    number, `null` or boolean where an array is indexed or walked raises
    `TypeError`. So does an array or object at index 0 of an entry, which
    cannot go into the set.
  - Some shapes are walked without an error. If element 1 is a string, each
    of its characters is added. If element 1 is an object, the first
    character of each key is added. An entry that is a non-empty string adds
    its first character. A whole reply that is a string of length 2 or more
    adds its second character.
  - A number, `null` or boolean at index 0 of an entry is added to the set.
    The `TypeError` comes only later, from `sorted` (app.py:54).
- Lone surrogate code points (U+D800 to U+DFFF) in keywords. A Python `str`
  can hold them, for instance from a `\ud800` escape that `json.loads`
  (app.py:39) decodes, and `sorted` (app.py:54) orders them by code point
  like any other. A Dafny `char` is a Unicode scalar value and cannot hold
  them, so the model's keywords and its string order cover every Python
  `str` without a lone surrogate, and no other.
- The error message shown on a request error (app.py:48) and
  `time.sleep(0.1)` (app.py:45) are UI output and timing.
- The Streamlit page (app.py:56-135) is presentation and I/O. This covers the
  input and empty-result checks, the table, the CSV export with its BOM, the
  download button and the fixed prompt text around the keyword block. Only
  the keyword block (app.py:112) is modelled.
