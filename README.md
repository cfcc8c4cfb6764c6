# inovespa, modelled in Dafny

`src/function.py` of inovespa is a Lambda function that posts a mock headline
to Twitter. It reads the day's Ibovespa change from InfoMoney and a news
title from Jornal da Cidade Online, then joins them into a sentence from
fixed Portuguese phrase tables and posts it as a status, signed with OAuth
1.0a. This project models the deterministic core of that file and proves
what it does:

- **The two scrapers, over already-tokenised input** (`infomoney.dfy`, `jco.dfy`).
  - `InfoMoneyHTMLParser` is a class whose `HandleData` method updates the
    captured value and the three-valued `__grab` flag. It is specified by a
    fold `Run` of a one-node step function, and the fold is proved to
    compute a declarative `DailyChange`.
  - `JornalDaCidadeOnlineHTMLParser` is a class whose `HandleStartTag`
    appends to `titles`. It is specified by a function `Titles` of the
    start tags. The caller's `titles[1:]` is modelled too.
- **`sanitize_title`** (`sanitize.dfy`). The two regular expressions are
  written out by hand:
  - `^[A-Z]* *[:-]` is a greedy scan, proved equal to the regex's
    (backtracking) meaning;
  - `\(.*\)` is a left-to-right scan that stops at newlines. For a
    one-line title it is proved to cut exactly from the first `(` to the
    last `)`.
- **Headline assembly** (`headline.dfy`). The sign of the change chooses the
  table of movement verbs. Each `random.choice` is an index the caller
  supplies. Every Python failure after the pages are decoded and tokenised
  becomes an error value, in the order the interpreter reaches it.
- **`encode`** (`percent.dfy`, `utf8.dfy`). This is `quote(s, safe="")`:
  percent-encoding of the UTF-8 bytes, keeping only the unreserved
  characters of section 2.3 of RFC 3986. It is proved to be undone by
  percent-decoding.
- **OAuth string building** (`oauth.dfy`, with `Ordering` for `sorted` and
  `Text` for `join`/`split`/`strip`). This covers:
  - the parameter string, the signature base string and the signing key of
    `oauth_sign`;
  - the `Authorization` header and the form body of `tweet`.

  HMAC-SHA1 with base64 is a function parameter.

The label test compares the untrimmed node text (line 26), so
`"  Variação (Dia) "` does not arm the parser. Only the percentage test
strips (line 23).

## Model

| member | source | states |
|---|---|---|
| InfoMoney.Parser.constructor | src/function.py:17-19 | a new parser has no value and an unset flag (the state `Initial`) |
| InfoMoney.Parser.HandleData | src/function.py:22-27 | one call moves the state by `Step`: a percentage node is captured, stripped, only while armed, and this is tested before the exact label arms an unset flag |
| InfoMoney.Parser.Feed | src/function.py:38 | feeding a sequence of text nodes moves the state by the fold `Run` of `Step` over them, in order |
| InfoMoney.IbovespaChange | src/function.py:37-39 | a fresh parser fed the nodes returns `DailyChange(nodes)`: the stripped text of the first `%`-suffixed node after the first node exactly equal to the label, or None |
| InfoMoney.RunFromInitial | src/function.py:18-27 | the state machine and the declarative `DailyChange` agree on every node sequence |
| InfoMoney.CapturedIsFinal | src/function.py:23-27 | once disarmed, no later node (label or percentage) changes the flag or the value |
| InfoMoney.RunArmed | src/function.py:23-25 | an armed parser captures the first percentage node, stripped, and nothing else |
| InfoMoney.RunConsistent | src/function.py:18-27 | the parser holds a value exactly when its flag is disarmed, in every reachable state |
| InfoMoney.RunAppend | src/function.py:22-27 | feeding the nodes in two parts is the same as feeding them at once |
| InfoMoney.FirstLabel | src/function.py:26 | the position of the first node equal to the label, with no earlier one, or None when there is none |
| InfoMoney.FirstPercent | src/function.py:23 | the position of the first node whose stripped text ends with `%`, or None when there is none |
| Jco.Parser.constructor | src/function.py:43-44 | a new parser has collected no titles |
| Jco.Parser.HandleStartTag | src/function.py:47-50 | a start tag appends its title value when it has exactly one `title` attribute, and otherwise nothing |
| Jco.Parser.Feed | src/function.py:66 | feeding start tags appends `Titles(tags)` in document order |
| Jco.NewsCandidates | src/function.py:65-67 | a fresh parser fed the tags returns every collected value except the first, in order, and nothing when none was collected |
| Jco.SingleTitle | src/function.py:48-49 | given a `title` attribute at position k, there is exactly one title value iff no other attribute is named `title`, and that value is the one at k |
| Jco.NoTitleValues | src/function.py:48-49 | a tag with no `title` attribute contributes no value |
| Jco.TitleValuesNonEmpty | src/function.py:48 | any `title` attribute contributes a value |
| Jco.TitlesAppend | src/function.py:47-50 | the titles of concatenated tag sequences are the concatenated titles |
| Jco.TitlesMembership | src/function.py:47-50 | a value is collected iff some tag carries it as its only `title` value |
| Text.StripSpec | src/function.py:24 | `strip` leaves a result with no whitespace at either end, and it sits in the input with only whitespace around it |
| Text.StripAt | src/function.py:24 | conversely, a piece with non-whitespace ends and only whitespace around it is what `strip` returns |
| Text.StripIdempotent | src/function.py:72 | stripping a stripped string changes nothing, so the title `sanitize_title` returns is stable under `strip` |
| Text.SplitJoin | src/function.py:170-182 | splitting a join on its separator gives back the parts, when the separator's first character is in no part |
| Text.Find | src/function.py:170-182 | the search that `Split` uses to read the joins back: the first occurrence of a separator, with none before it, or None when it does not occur |
| Sanitize.UpperRun | src/function.py:71 | the result n is at most the length, the first n characters are ASCII capitals, and the character at n, if any, is not one |
| Sanitize.BlankRun | src/function.py:71 | the result n is at most the length, the first n characters are spaces, and the character at n, if any, is not one |
| Sanitize.PrefixLengthCorrect | src/function.py:71 | the greedy scan finds a prefix of length n iff `^[A-Z]* *[:-]` matches exactly the first n characters |
| Sanitize.DropPrefixSpec | src/function.py:71 | one matching prefix is removed when there is one, otherwise the title is unchanged, and the result is always a suffix |
| Sanitize.LineEnd | src/function.py:72 | the first newline, or the end: where `.` stops matching |
| Sanitize.RemoveParensSingleLine | src/function.py:72 | on one line, with the first `(` before the last `)`, the substitution removes exactly the text from that `(` to that `)` |
| Sanitize.RemoveParensNone | src/function.py:72 | a line where no `(` precedes a `)` is unchanged |
| Sanitize.RemoveParensNoClose | src/function.py:72 | text without `)` is unchanged, across lines too |
| Sanitize.RemoveParensLeading | src/function.py:72 | a line that opens with `(` loses everything up to its last `)` |
| Sanitize.RemoveParensComplete | src/function.py:72 | on one line, no `(` precedes a `)` after the substitution |
| Sanitize.SanitizeTitleStripped | src/function.py:70-72 | the sanitised title has no whitespace at either end, and stripping it again changes nothing |
| Sanitize.SanitizeTitleNoParenthetical | src/function.py:70-72 | a one-line sanitised title has no parenthesised part left |
| Sanitize.SanitizeSectionNote | src/function.py:70-72 | `SECTION: body (note)` becomes `body`, so `"STF: Fulano é investigado (ver nota)"` becomes `"Fulano é investigado"` |
| Sanitize.SectionDropped | src/function.py:71 | a capitals-and-colon prefix is removed |
| Sanitize.NoteRemoved | src/function.py:72 | a trailing parenthesised note is removed and the spaces before it stay |
| Sanitize.ExampleHyphenPrefix | src/function.py:70-72 | `"  - menor prefixo (x) final"` becomes `"menor prefixo  final"`: a bare hyphen is a prefix, and the spaces around a removed note stay inside |
| Headline.MovementsDisjoint | src/function.py:91-107 | no verb is in both the up and the down table |
| Headline.MovementDirection | src/function.py:127-130 | a verb is chosen iff the change starts with `+` or `-`; `+` gives an up verb, `-` a down verb, and the verb's table tells the sign |
| Headline.GenerateHeadlineErrors | src/function.py:124-134 | each failure happens exactly when the interpreter meets it first: a missing change, then no candidates, then a value-less title, then an unassigned movement |
| Headline.GenerateHeadlineMessage | src/function.py:126-135 | a message is produced iff none of those holds, and it is `alias movement (change) link title` with table phrases, a verb of the sign's direction and the sanitised title |
| Headline.MessageLayout | src/function.py:134 | in the message, the alias, the verb, the change between ` (` and `) `, and the title sit at fixed offsets |
| Headline.GenerateHeadlineFrom | src/function.py:123-135 | fed the two pages' nodes and tags, the scrapers and the assembly give the headline of the change and candidates they specify |
| Utf8.EncodeChar | src/function.py:179 | one to four bytes per character, one byte exactly for ASCII |
| Utf8.DecodeEncode | src/function.py:179 | strict UTF-8 decoding gives back the encoded string |
| Percent.QuoteByte | src/function.py:138-139 | an unreserved ASCII byte is written as itself, any other byte as `%` and two upper-case hex digits of its value |
| Percent.EncodeAlphabet | src/function.py:138-139 | `encode` writes only unreserved characters and `%`, so never `&`, `=`, `,`, `"` or a space |
| Percent.EncodeUnreserved | src/function.py:138-139 | a string of unreserved characters encodes to itself |
| Percent.EncodeCharEscapes | src/function.py:138-139 | any other character becomes three characters per UTF-8 byte, starting with `%` |
| Percent.EncodeAppend | src/function.py:138-139 | encoding distributes over concatenation |
| Percent.DecodeEncode | src/function.py:138-139 | percent-decoding the output of `encode` gives back the input |
| Ordering.Sort | src/function.py:173 | `sorted` returns the list in code-point order with the same elements |
| Ordering.SortedUnique | src/function.py:173 | two sorted lists with the same elements are equal, so the sorted order is unique |
| Ordering.LessTotal | src/function.py:173 | any two distinct strings are ordered one way or the other |
| Ordering.LessTransitive | src/function.py:173 | the string order is transitive |
| OAuth.NewClient | src/function.py:143-158 | a client holds the given credentials, timestamp and nonce, the update URL, `HMAC-SHA1` and `1.0` |
| OAuth.SortSignatureNames | src/function.py:161-173 | sorting the signature parameter names gives the `oauth_` names in order, then `status` |
| OAuth.SignatureOrderSorted | src/function.py:173 | that order is code-point order |
| OAuth.SortAuthorizationNames | src/function.py:189-201 | the authorization parameter names are already sorted, `oauth_signature` before `oauth_signature_method` |
| OAuth.SortedPairsEntries | src/function.py:170-175 | looking up each sorted key writes the entries in sorted order with their values |
| OAuth.ParamStringLayout | src/function.py:161-175 | the parameter string is the seven `name=encode(value)` entries, sorted by name, joined with `&` |
| OAuth.ParamStringSplits | src/function.py:170-175 | the parameter string splits on `&` back into those seven entries |
| OAuth.PairRoundTrip | src/function.py:172 | an entry splits at `=` into the name and a value that decodes back |
| OAuth.QuotedPairRoundTrip | src/function.py:200 | a header entry splits at `="` into the name and a quoted value that decodes back |
| OAuth.EntriesSplit | src/function.py:198-203 | entries joined with `&` or `, ` split back into the entries |
| OAuth.SignatureBaseStringSplits | src/function.py:177-179 | the signature base string splits on `&` into exactly `POST`, the encoded URL and the encoded parameter string |
| OAuth.SigningKeyOneSeparator | src/function.py:180-182 | the signing key holds exactly one `&`, right after the encoded consumer secret, and splits there into the two encoded secrets |
| OAuth.AuthorizationHeaderLayout | src/function.py:189-203 | the header is `OAuth ` and the seven `name="encode(value)"` entries sorted by name and joined with `, `; the third carries the encoded signature |
| OAuth.AuthorizationHeaderSplits | src/function.py:198-210 | after `OAuth `, the header splits on `, ` back into its seven entries |
| OAuth.RequestBodyRoundTrip | src/function.py:208 | the body is the single field `status`, whose value decodes back to the message |
| OAuth.EntriesParse | src/function.py:198-203 | every quoted entry splits at `="` into the name at its position and a quoted value that decodes to the value at its position |
| OAuth.TweetHeaderParses | src/function.py:189-210 | the `Authorization` header `tweet` sends parses back: after `OAuth ` it splits on `, ` into seven `name="value"` entries whose names are the authorization names in code-point order and whose quoted values decode to the consumer key, nonce, signature of the message, signature method, timestamp, token and version |
| OAuth.TweetSignature | src/function.py:189-210 | the request's `Authorization` header carries `oauth_signature="encode(oauth_sign(message))"` as its third entry |
| OAuth.TweetBody | src/function.py:208 | the request's body decodes back to the message |
| InfoMoney.Step | src/function.py:22-27 | one `handle_data` call on a state, with no contract of its own; `InfoMoney.RunArmed`, `InfoMoney.CapturedIsFinal` and `InfoMoney.RunConsistent` characterise it |
| InfoMoney.Run | src/function.py:22-27 | `handle_data` over the nodes in order, with no contract of its own; `InfoMoney.RunAppend` and `InfoMoney.RunFromInitial` characterise it |
| InfoMoney.DailyChange | src/function.py:33-39 | the value `get_ibovespa_change` returns for the page's text nodes, with no contract of its own; it is built from `InfoMoney.FirstLabel` and `InfoMoney.FirstPercent`, and `InfoMoney.RunFromInitial` ties it to the parser |
| Jco.TitleValues | src/function.py:48 | the comprehension of `title` attribute values, with no contract of its own; `Jco.NoTitleValues`, `Jco.TitleValuesNonEmpty` and `Jco.SingleTitle` characterise it |
| Jco.TitleOf | src/function.py:48-50 | what one start tag appends, with no contract of its own; `Jco.SingleTitle` characterises it |
| Jco.Titles | src/function.py:47-50 | the titles collected from the start tags, with no contract of its own; `Jco.TitlesAppend` and `Jco.TitlesMembership` characterise it |
| Jco.Candidates | src/function.py:67 | `titles[1:]`, with no contract of its own; `Jco.NewsCandidates` ties the parser to it |
| Text.Strip | src/function.py:24 | `str.strip`, with no contract of its own; `Text.StripSpec`, `Text.StripAt` and `Text.StripIdempotent` characterise it |
| Text.Join | src/function.py:170-182 | `str.join`, with no contract of its own; `Text.SplitJoin` characterises it |
| Ordering.Less | src/function.py:173 | the code-point order `sorted` uses, with no contract of its own; `Ordering.LessTotal` and `Ordering.LessTransitive` characterise it |
| Sanitize.PrefixLength | src/function.py:71 | where `^[A-Z]* *[:-]` ends, with no contract of its own; `Sanitize.PrefixLengthCorrect` characterises it |
| Sanitize.DropPrefix | src/function.py:71 | the first substitution, with no contract of its own; `Sanitize.DropPrefixSpec` characterises it |
| Sanitize.RemoveParens | src/function.py:72 | the second substitution, with no contract of its own; `Sanitize.RemoveParensSingleLine`, `Sanitize.RemoveParensNone`, `Sanitize.RemoveParensNoClose` and `Sanitize.RemoveParensComplete` characterise it |
| Sanitize.SanitizeTitle | src/function.py:70-72 | `sanitize_title`, with no contract of its own; `Sanitize.SanitizeTitleStripped`, `Sanitize.SanitizeTitleNoParenthetical` and `Sanitize.SanitizeSectionNote` characterise it |
| Headline.Movement | src/function.py:127-130 | the verb the two `if`s bind, with no contract of its own; `Headline.MovementDirection` characterises it |
| Headline.Message | src/function.py:134 | the f-string, with no contract of its own; `Headline.MessageLayout` characterises it |
| Headline.GenerateHeadline | src/function.py:123-135 | `generate_headline` given the change, the candidates and the picks, with no contract of its own; `Headline.GenerateHeadlineErrors` and `Headline.GenerateHeadlineMessage` characterise it |
| Percent.QuoteBytes | src/function.py:139 | `quote` over the UTF-8 bytes, with no contract of its own; `Percent.QuoteByte` and `Percent.EncodeAlphabet` characterise it |
| Percent.Encode | src/function.py:138-139 | `encode`, with no contract of its own; `Percent.DecodeEncode`, `Percent.EncodeAlphabet`, `Percent.EncodeUnreserved`, `Percent.EncodeCharEscapes` and `Percent.EncodeAppend` characterise it |
| OAuth.SignatureParameters | src/function.py:161-169 | `signature_parameters` as a map, with no contract of its own; `OAuth.ParamStringLayout` reads it in sorted order |
| OAuth.ParamString | src/function.py:170-175 | `param_string`, with no contract of its own; `OAuth.ParamStringLayout` and `OAuth.ParamStringSplits` characterise it |
| OAuth.SignatureBaseString | src/function.py:177-179 | `signature_base_string` before its UTF-8 encoding, with no contract of its own; `OAuth.SignatureBaseStringSplits` characterises it |
| OAuth.SigningKey | src/function.py:180-182 | `signing_key` before its UTF-8 encoding, with no contract of its own; `OAuth.SigningKeyOneSeparator` characterises it |
| OAuth.OAuthSign | src/function.py:160-186 | `oauth_sign`, the signer applied to the UTF-8 key and base string, with no contract of its own; `OAuth.TweetSignature` places its result in the header |
| OAuth.AuthorizationParameters | src/function.py:189-197 | `authorization_params` as a map, with no contract of its own; `OAuth.AuthorizationHeaderLayout` reads it in sorted order |
| OAuth.AuthorizationHeader | src/function.py:198-210 | the `Authorization` value, with no contract of its own; `OAuth.AuthorizationHeaderLayout` and `OAuth.AuthorizationHeaderSplits` characterise it |
| OAuth.RequestBody | src/function.py:208 | the form body, with no contract of its own; `OAuth.RequestBodyRoundTrip` characterises it |
| OAuth.Tweet | src/function.py:188-213 | the request `tweet` sends, with no contract of its own; `OAuth.TweetHeaderParses`, `OAuth.TweetSignature` and `OAuth.TweetBody` characterise it |

## Left out

- Network I/O is not modelled: the two `urlopen` downloads, the `HTTPSConnection` POST, reading the response and `print`. The scrapers take the page's text nodes or start tags, and `Tweet` returns the request it would send.
- `payload.decode("UTF8")` is not modelled: the scrapers start from text, so the `UnicodeDecodeError` a page that is not valid UTF-8 raises is not one of the error values.
- The `handler` entry point and its environment variables are not modelled.
- `HTMLParser` tokenising is not modelled: how it splits text into nodes, entity handling, and the `error` hooks. A value-less attribute is represented by a None value.
- HMAC-SHA1, `hashlib` and base64 are not modelled. `oauth_sign` takes them as one function parameter `sign` of the key bytes and the message bytes.
- The class-level `time.time()` timestamp and `secrets.token_hex(32)` nonce are opaque fields of the client.
- `random.choice` is replaced by indices the caller supplies, each within its table.
- Only the `\(.*\)` substitution's closed form (first `(` to last `)`) is proved for one-line titles. The scan itself handles newlines.
- `Text.IsSpace` is Python's `str.isspace` set written out, without the Unicode database behind it.
- Lone surrogates are not modelled: Dafny's `char` is a Unicode scalar value.
- `Percent.Decode` decodes UTF-8 strictly and fails on malformed bytes. It serves as the inverse of `encode`. Python's `unquote`, which the source never calls, would substitute replacement characters.
- `Tweet` does not model the transport's own headers.
