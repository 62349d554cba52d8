# save-sent duplicate-marking protocol, modelled in Dafny

This project models the core of the Haraka plugin `save-sent`. The plugin sends
every queued outbound mail back to its sender as a duplicate. The duplicate
carries a flag header ("already a duplicate, do not duplicate again") and a
security token header. The protocol protects that flag from forgery:

- **Issue** (`duplicate_to_sender`): computes the *shape* of the mail. The shape
  is a canonical string of its From, To, Cc, Subject and Date headers. Issue
  then stores `prefix:token -> shape` in Redis for 60 seconds and builds the
  duplicate's text: the original header lines, then the flag line and the
  token line, joined by CRLF, then a blank line, then the original body.
- **Inspect** (`security_inspection`): looks up the presented token and
  compares the stored shape with the arriving mail's shape. On a match it
  deletes the record, so a token is used once. It always strips the token
  header. A flag without a verified token is denied. A verified flag that
  occurs more than once is an internal error.

The model is functional. Headers are a sequence of `(name, value)` fields. The
Redis store is a map from key to `(value, expiry)`. The clock, Redis
availability and the random token are parameters. Each hook returns its verdict
together with the store and headers it leaves behind.

Modules, one per file:

| file | module | what it holds |
|---|---|---|
| optional.dfy | `Optional` | `Option` for `undefined` / `null` |
| strings.dfy | `Strings` | `Array.prototype.join` and ECMAScript string `<`, with order lemmas |
| headers.dfy | `Headers` | `get_all`, `get`, `lines`, `remove_header` over a field list |
| json.dfy | `Json` | `JSON.stringify` of two-string arrays; quoting follows QuoteJSONString |
| shape.dfy | `Shape` | `extract_stable_headers`, `canonical_string` with the JS default sort, `calculate_shape` |
| store.dfy | `KeyValueStore` | GET / SET EX / DEL with expiry |
| message_text.dfy | `MessageText` | finding the body after the first blank line; composing a text |
| save_sent.dfy | `SaveSent` | the config, `Inspect`, `Duplicate` |
| properties.dfy | `SaveSentProperties` | the protocol's security claims as lemmas |

The code sorts the `[key, value]` pairs with JavaScript's default comparator.
That comparator compares the strings `key,value`, not the keys alone. The model
sorts the same way. `Shape.CanonicalOrder` proves the result is always Cc, Date,
From, Subject, To, because the five names start with different letters.

Header names are compared exactly. The lemmas take as a precondition
(`SaveSent.WellFormedConfig`) that the flag name, the token name and the five
stable names are pairwise distinct. The hooks themselves do not require it.

## Model

| member | source | states |
|---|---|---|
| `Headers.GetAll` | index.js:30 | Empty exactly when no field has the name. A value appears in it exactly when some field of that name carries it. |
| `Headers.GetAllCounts` | index.js:30 | Every field with the name contributes: each value occurs in `get_all` exactly as often as its field occurs in the header list. So the count `length` that the flag policy tests is the number of such fields. |
| `Headers.GetAllAppend` | index.js:30 | `get_all` keeps field order: on a concatenation of two header lists it returns the first list's values followed by the second's. |
| `Headers.Get` | index.js:128 | `undefined` exactly when the name is absent. A single field yields its own value. |
| `Headers.RemoveAll` | index.js:48 | Leaves no field of the removed name. Every other name keeps its values in order. The surviving fields are exactly the original ones with other names. Removing an absent name changes nothing. |
| `Shape.StableValue` | index.js:124-132 | An absent stable field reads as `""`. A field present once reads as its value. |
| `Shape.ExtractStable` | index.js:124-132 | The entries of the stable-header object: five pairs, in the order From, To, Cc, Subject, Date, each carrying that field's stable value. |
| `Shape.CanonicalStringIgnoresOrder` | index.js:135-142 | When no two pairs compare equal, the canonical string of a pair list does not depend on the order the pairs are listed in. |
| `Shape.CalculateShape` | index.js:146-148 | The shape of any header list is the serialisation of the stable pairs in the fixed order Cc, Date, From, Subject, To, whatever the sort does on the way. |
| `Shape.SortPairs` | index.js:140 | `l.sort()` returns a permutation of its input (same multiset) that is sorted by the `key,value` string. |
| `Shape.SortedPermutationUnique` | index.js:140 | A strictly sorted list and a sorted list with the same elements are equal. So the sort's result does not depend on how it sorts. |
| `Shape.CanonicalOrder` | index.js:135-142 | For every header list, the sorted stable pairs are exactly Cc, Date, From, Subject, To, with their values. |
| `Shape.ShapeDependsOnlyOnStableValues` | index.js:146-148 | Two header lists that agree on the five stable values have the same shape. |
| `Shape.CanonicalPairsDetermineStableValues` | index.js:124-142 | The canonical pair lists of two header lists are equal if and only if the five stable values agree. |
| `Shape.MissingFieldIsEmpty` | index.js:128-129 | A missing stable field appears in the canonical pairs with the value `""`. |
| `Shape.ShapeIgnoresOtherHeaders` | index.js:124-132 | Inserting fields with non-stable names anywhere leaves the shape unchanged. |
| `Shape.ShapeIgnoresOrderOfDistinctNames` | index.js:124-132 | Swapping two neighbouring fields with different names leaves the shape unchanged. |
| `Json.Quote` | index.js:141 | A quoted string is wrapped in double quotes, at least two characters longer than the input, and free of raw control characters. |
| `Json.QuoteRoundTrip` | index.js:141 | Reading a quoted string back yields the original string, so quoting loses nothing. |
| `Json.Stringify` | index.js:141 | The serialised pair list is a JSON array text, opening with `[` and closing with `]`. |
| `KeyValueStore.Lookup` | index.js:35 | GET yields a value exactly when the key holds a live record, and then that record's value. |
| `KeyValueStore.SetEx` | index.js:98 | After SET EX, GET on the key returns the value before the expiry and nothing afterwards. Every other key reads as before. |
| `KeyValueStore.Del` | index.js:40 | After DEL, the key never reads a value again. Every other key reads as before. |
| `MessageText.FindSeparator` | index.js:93 | Returns the leftmost position at which `\r?\n\r?\n` matches, with the match length. When it finds none, no position matches. |
| `MessageText.BodyText` | index.js:93-94 | The body as the code computes it. It is always a suffix of the text, and it is the whole text when the text has no blank line. |
| `MessageText.BodyTextSplits` | index.js:93-94 | The computed body is the text after the first blank line. It is the whole text when there is no blank line. |
| `MessageText.HeaderOnlyTextBecomesBody` | index.js:93-94 | As written, a non-empty text with no blank line (e.g. `Subject: hi`) becomes its own body, where the intended body is empty. |
| `MessageText.MessageBody` | index.js:93-94 | Corrected body: empty when there is no blank line, otherwise the same as the source's body. It is always a suffix of the text. |
| `MessageText.ComposeThenBody` | index.js:101 | Joining single-line, non-empty header lines by CRLF and adding a blank line and a body gives a text whose first blank line follows the last header line. Reading that text's body returns the body unchanged. |
| `Headers.Lines` | index.js:95 | One line per field, in order. Each line is the field's name, then `: `, then its value. |
| `SaveSent.FieldLinesWellFormed` | index.js:95 | Fields whose names and values hold no line break render as non-empty lines with no line break. |
| `SaveSent.StoreKey` | index.js:35 | The key is the prefix, a colon, then the token. The token can be read back from the key's tail. |
| `SaveSent.StoreKeyInjective` | index.js:35 | Under one prefix, two tokens share a key exactly when they are the same token. |
| `SaveSent.PresentedToken` | index.js:30-34 | No token when the token header is absent. Otherwise the token is all token-header values joined by a line feed. A single token header presents its own value. |
| `SaveSentProperties.SeveralTokenHeadersNeverMatch` | index.js:32-34 | With two or more token headers, the presented token contains a line feed. It is therefore never a single-line issued token, and never looks up that token's key. |
| `SaveSent.CheckToken` | index.js:29-49 | Verified iff a token header is present and the store holds a live record under `prefix:token` whose value equals the arriving shape. On success the record is deleted. Otherwise the store is unchanged. The token header is always gone afterwards, and every other header is unchanged. |
| `SaveSent.Inspect` | index.js:19-69 | Without Redis: internal-error deny, store and headers untouched. Otherwise: passes iff there is no flag or a single verified flag. An unverified flag is denied. A repeated verified flag is an internal error. The store changes only on a verified token. |
| `SaveSent.DuplicateHeaders` | index.js:95-100 | The duplicate keeps the original fields as a prefix. It gains one flag value and one token value. Every other name keeps its values. |
| `SaveSent.DuplicateText` | index.js:92-101 | The text as the code builds it: header lines, a blank line, then the body the code extracts. When no field holds a line break, the first blank line ends the header block. The body read back from it is the body the code reads from the original. |
| `SaveSent.DuplicateTextCorrected` | index.js:93-94 | The same text with the corrected body. Its intended body reads back as the original's intended body. It is the code's text whenever the original has a blank line. |
| `SaveSent.Duplicate` | index.js:72-111 | Without Redis: internal-error deny, no write, no send. A flagged mail: no write, no send. Otherwise: the key holds the original shape until now+60 and nothing afterwards. No other key changes. The duplicate goes to the original From/To with the text the code composes (`SaveSent.DuplicateText`, whose body is extracted as written). |
| `SaveSentProperties.DecisionTable` | index.js:51-68 | The flag table in terms of the arriving headers: absent passes; unverified is denied; repeated and verified is an internal error; single and verified passes. |
| `SaveSentProperties.NoTokenNoChange` | index.js:29-31 | Without a token header: not verified, store and headers unchanged. |
| `SaveSentProperties.ForgedFlagDenied` | index.js:53-59 | A flag with no token header is denied. |
| `SaveSentProperties.VerifiedIffLiveMatchingRecord` | index.js:34-39 | Verified iff some presented token has a live stored value equal to the arriving shape. |
| `SaveSentProperties.SingleUse` | index.js:38-40 | After a successful verification, any message presenting the same token, at any time, is not verified and changes nothing. |
| `SaveSentProperties.ShapeMismatchRejected` | index.js:38-45 | A live record whose shape differs from the arriving one: not verified, store unchanged, and a present flag is denied. |
| `SaveSentProperties.TokenHeaderAlwaysStripped` | index.js:47-48 | Whenever a token header arrived, none is left after inspection, whatever the outcome. All other headers keep their values. |
| `SaveSentProperties.FailClosed` | index.js:73-76 | Without Redis both hooks deny with an internal error and change nothing. |
| `SaveSentProperties.DuplicateWritesOneRecord` | index.js:78-98 | With a fresh token, an unflagged mail adds exactly one record. A flagged mail adds none. Existing records are never altered. |
| `SaveSentProperties.DuplicateKeepsShape` | index.js:96-100 | The duplicate's header list has the same stable values, and hence the same shape, as the original. |
| `SaveSentProperties.IssueThenInspect` | index.js:35-40 | Within 60 seconds of issue, a mail presenting exactly that token with the same stable values verifies and consumes the record. Other keys read as before issue. It passes iff its flag occurs at most once. |
| `SaveSentProperties.DuplicateLoopsBack` | index.js:95-101 | The duplicate looping back within the lifetime verifies and passes. It consumes the token and continues with the original headers plus the flag. |
| `SaveSentProperties.ExpiredTokenRejected` | index.js:98 | Once the 60 seconds are over, the issued token never verifies. |
| `SaveSentProperties.TamperedCopyRejected` | index.js:36-45 | A mail presenting the issued token whose shape differs from the original's: not verified, record kept, a present flag denied. |
| `SaveSentProperties.OutboundThenLoopback` | index.js:19-111 | Full path: an unflagged mail passes, is duplicated, and its duplicate loops back verified and passing. A replay of that duplicate is denied. |
| `SaveSentProperties.DuplicateCarriesBody` | index.js:92-101 | For single-line fields, config names and token, the duplicate's first blank line ends its header block. Read the code's way, the sent text's body equals the original's body read the same way. The corrected text carries the intended body likewise. |
| `SaveSentProperties.HeaderOnlyDuplicate` | index.js:93-94 | For an original with no blank line, the sent duplicate's body is the whole original text. The corrected duplicate's body is empty, so the two texts differ. |

## Left out

- Hook registration and configuration loading with hot reload (index.js:3-16). These are host plumbing; the config is a record of flag name, flag value, token name and key prefix.
- `ensure_redis` (index.js:113-119) is reduced to the boolean `redisAvailable`.
- Logging (`loginfo`, `logwarn`, `logcrit`, `logdebug`) has no behavioural content.
- `crypto.randomBytes(32).toString('hex')` (index.js:97): the token is a parameter. Its 64-hex-digit format is not modelled; freshness is a lemma precondition.
- The async IIFEs, the fire-and-forget callback of `get_data`, and concurrent inspections racing on DEL. The model is sequential: a hook's store read and write happen atomically in one call.
- `outbound.send_email` (index.js:102-106): the model stops at the `(from, to, text)` it would be handed.
- `message_stream.get_data` and UTF-8 decoding (index.js:89-92): the raw text arrives as a string.
- Haraka's header parsing is not part of this model. Header names are compared case-sensitively. Values are not unfolded or trimmed. `lines()` renders each field as `name: value` with no line ending. `SaveSentProperties.DuplicateLoopsBack`, `SaveSentProperties.OutboundThenLoopback` and `SaveSentProperties.DuplicateCarriesBody` depend on two assumptions that the code does not show. First, that `lines()` returns such unterminated lines. Second, that the host parses the composed text back into exactly `SaveSent.DuplicateHeaders`.
- `Json.Stringify` is not proved injective; the code does not promise it.
- SaveSentProperties.TamperedCopyRejected: stated for a mail whose shape differs. It does not cover any mail whose stable values differ, because that would need `Json.Stringify` injectivity. `Shape.CanonicalPairsDetermineStableValues` proves that a changed stable value changes the canonical pair list.
- Character order: Dafny characters are Unicode scalar values compared by code point. JavaScript compares UTF-16 code units. The two orders differ only between supplementary characters and U+E000–U+FFFF. They never affect the five stable keys, whose first letters decide.
- Redis expiry has millisecond precision; the model counts whole seconds. A record set at `now` with EX 60 is live exactly while the clock is below `now + 60`. Expired records stay in the map and are invisible to GET.
- KeyValueStore.SetEx requires a positive TTL, as Redis rejects `EX 0`. The plugin always passes 60.
- SaveSentProperties.ExpiredTokenRejected: requires the original to be unflagged, since a flagged mail issues no record.
- `next(DENY)` and `next(DENY, "Internal server error")` become the verdicts `Deny` and `DenyInternal`.
- Haraka's `header.get` is outside this model. `Headers.Get` models it as `undefined` when the name is absent and as the line-feed join of all values otherwise. The shape reads either `undefined` or `""` as `""`.
- The pairs are sorted by the `key,value` string, as the code does, not by key alone. For the five stable pairs the two orders agree (`Shape.CanonicalOrder`).

## Findings

| source | as written | input that shows it | evidently intended | confidence | as-written member | corrected member |
|---|---|---|---|---|---|---|
| index.js:93-94 | With no blank line in the raw text, `search` yields -1 and `substring(-1)` keeps the whole text. The header block is therefore copied into the duplicate's body. | raw text `Subject: hi` (a header-only message) | an empty body when there is no blank line | medium, not executed (whether Haraka ever hands over a text with no blank line is outside this model) | `MessageText.HeaderOnlyTextBecomesBody` | `MessageText.MessageBody` |

The hook model `SaveSent.Duplicate` sends the text as written (`SaveSent.DuplicateText`, built on `MessageText.BodyText`). `SaveSent.DuplicateTextCorrected` builds the same text on `MessageText.MessageBody`. `SaveSentProperties.HeaderOnlyDuplicate` shows that the two differ for a header-only original. `SaveSent.DuplicateTextCorrected` proves that they agree whenever the original has a blank line.
