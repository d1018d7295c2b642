# bet365 feed client, modelled in Dafny

The repository holds two Python variants of a client for a betting-odds push
feed:

- `manage.py` holds a socket client. When the connection opens it fetches a
  session token (the `pstk` cookie) and sends an identity message. It then
  decodes every inbound payload. A payload is split on the message delimiter
  `\x08` into parts, and the parts are popped off the end of the list.
  - A part tagged `1` makes the client subscribe to five fixed topics.
  - A part tagged `\x14` (topic load) or `\x15` (delta) reports a
    `(topic name, content)` pair.
  - Any other part is ignored.
- `websockets_replacement.py` is an HTTP variant with the same wire vocabulary.
  - It builds request headers from the environment, with unset ones dropped.
  - It takes the token from the `pstk=` entry of a `Set-Cookie` value.
  - It subscribes only once a token is stored.

The project has five modules.

| file | module | contents |
|---|---|---|
| `wrappers.dfy` | `Wrappers` | `Option` |
| `strings.dfy` | `Strings` | The Python `str` operations the clients use: `sub in s`, `s.split(sep)` with its pieces `[0]`, `[1]` and `[-1]`, and the slice `s[k:]`. `Join` and `CountChar` model `sep.join(parts)` and `s.count(c)`, which the clients never call; they exist to state that split then join is the identity and how many pieces a split yields. Lemmas tie the scanners `TakeUntil` and `AfterLast` to the first and last piece of a split. |
| `wire.dfy` | `Wire` | The control characters, the topics and a model of Python `%` formatting. The source builds each outbound template by formatting a format string once and formats the result again per message. The model writes the two templates and the two messages out, and lemmas prove each template equal to the first formatting and each message equal to the second. |
| `manage.dfy` | `Manage` | The decoder as functions (`HandlePart`, `HandleParts`, `Receive`). Class `WebSockets` has fields for the sent messages, the decoded updates and the closed flag. Its `OnMessage` keeps the source's `while`/`pop` loop and is proved against `Receive`. |
| `replacement.dfy` | `Replacement` | The header filter, the token extraction and the guards of the session fetch. Class `WebSockets` has `Connect` and the guard of `SubscribeTopics`. |

Several points where a reader of the protocol might expect one behaviour and
the code does another; the model follows the code:

- **Identity message.** One might expect the token after the no-encoding
  flag `\x00`. Tracing the two `%` formattings of
  `manage.py:71-76` and `manage.py:109` puts it before. The message is
  `\x23 \x03 P \x01 __time,S_ <token> \x00`, so `IdentityMessage` ends with
  `\x00`.
- **Empty parts.** One might expect empty parts to be skipped. The code reads `part[0]` unguarded (`manage.py:126`), so an empty part
  from a leading, trailing or doubled `\x08` raises an `IndexError`. That
  ends the handler after the parts to its right have been handled.
  - The model records this as `failed` in `Outcome` and as the `failed`
    result of `OnMessage`.
  - `TrailingDelimiterRaises` shows that a payload ending in `\x08` has no
    effect at all.
- **Load or delta part without `\x01`.** One might expect such a part to be
  dropped as malformed. The code still reports it, with empty
  content (`UnterminatedUpdateReports`).
- **Processing order.** One might expect parts in arrival order. The code
  pops from the end, so parts are handled last to first
  (`MixedPayloadReports`).
- **Missing token.** One might expect the socket never to be opened without
  a token. In `manage.py`, `on_open` runs once the socket is open
  and then closes it (`OnOpen` sets `closed`).
- **Token cookie.** In `websockets_replacement.py`, `_URLS_SESSION_ID` is only
  tested for `None`. The token request goes to a fixed URL (lines 112-118).

## Model

| member | source | states |
|---|---|---|
| Strings.Contains | bet365-api-scraper-main/websockets_replacement.py:129 | `sub in s`: whether a search for `sub` finds it. `FindFirst` proves that a hit is the first occurrence and a miss means `sub` occurs nowhere; `ContainsChar` proves that for one character it is plain membership. |
| Strings.Find | bet365-api-scraper-main/websockets_replacement.py:129 | An index found by the search for `sub` leaves room for `sub` before the end of `s`. |
| Strings.FindFirst | bet365-api-scraper-main/websockets_replacement.py:129 | The search returns the first occurrence: `sub` occurs at the index found and at no earlier index, and `None` means it occurs nowhere. |
| Strings.ContainsChar | bet365-api-scraper-main/manage.py:123 | For a one-character separator, `[c] in s` is exactly `c in s`. |
| Strings.BeforeFirstIsFree | bet365-api-scraper-main/manage.py:123 | The text before the first occurrence of `sep` contains no `sep`. |
| Strings.Split | bet365-api-scraper-main/manage.py:123 | `s.split(sep)` always yields at least one piece. |
| Strings.SplitJoinsBack | bet365-api-scraper-main/manage.py:123 | Joining the pieces of `s.split(sep)` with `sep` gives back `s`. No piece contains `sep`. There is more than one piece exactly when `sep` occurs in `s`. |
| Strings.JoinCons | bet365-api-scraper-main/manage.py:123 | Joining `[x] + rest` is `x`, the separator, then `rest` joined. |
| Strings.AroundOccurrence | bet365-api-scraper-main/manage.py:123 | A string is the text before an occurrence of `sub`, then `sub`, then the text after it. |
| Strings.SplitStep | bet365-api-scraper-main/manage.py:123 | If the text before the first separator is put in front of pieces that join back to the rest and are free of the separator, the result joins back to `s` and all pieces are free of it. |
| Strings.SplitFirstPiece | bet365-api-scraper-main/websockets_replacement.py:129 | The first piece of a split is a prefix of `s` without `sep`. It is either all of `s` or followed in `s` by `sep`. |
| Strings.SplitCons | bet365-api-scraper-main/websockets_replacement.py:129 | When `sep` first occurs at `i`, the split is `s[..i]` followed by the split of the text after that occurrence. |
| Strings.SplitSecondPiece | bet365-api-scraper-main/websockets_replacement.py:129 | When `sep` occurs there are at least two pieces. The second piece (`split(sep)[1]`) is the first piece of the text after the first `sep`. |
| Strings.FreePrefix | bet365-api-scraper-main/websockets_replacement.py:129 | A prefix of a text without `sub` is itself without `sub`. |
| Strings.TakeUntil | bet365-api-scraper-main/manage.py:137 | `part.split('\x01')[0]`: the text before the first `c`. `TakeUntilIsPrefix` proves it the longest `c`-free prefix, followed by `c` unless it is all of the text, and `TakeUntilIsFirstPiece` proves it equal to `Split(s, [c])[0]`. |
| Strings.TakeUntilStops | bet365-api-scraper-main/manage.py:137 | Text `a` without `c`, then `c`, then anything: the first piece at `c` is exactly `a`. |
| Strings.TakeUntilIsPrefix | bet365-api-scraper-main/manage.py:137 | `s.split(c)[0]` is a prefix of `s` without `c`; it is all of `s` exactly when `c` does not occur; otherwise a `c` follows it. |
| Strings.TakeUntilIsFirstPiece | bet365-api-scraper-main/manage.py:137 | The scanner `TakeUntil` equals the first piece of `Split(s, [c])`. |
| Strings.AfterLast | bet365-api-scraper-main/manage.py:138-139 | `record.split('\x02').pop()`: the text after the last `c`. `LastStartBounds` and `AfterLastUnique` characterise where it starts, and `AfterLastIsLastPiece` proves it equal to the last piece of `Split(s, [c])`. |
| Strings.LastStart | bet365-api-scraper-main/manage.py:138-139 | The start of the text after the last `c` is within `s`. |
| Strings.LastStartBounds | bet365-api-scraper-main/manage.py:138-139 | From that start on there is no `c`. A `c` sits just before it unless it is 0, and it is 0 only when `c` does not occur. |
| Strings.AfterLastUnique | bet365-api-scraper-main/manage.py:138-139 | The text after the last `c` is `s[j..]` for the one `j` that follows a `c`, or is 0, and has no `c` from there on. |
| Strings.AfterLastAfterDelimiter | bet365-api-scraper-main/manage.py:138-139 | Dropping everything up to some `c` leaves the text after the last `c` unchanged. |
| Strings.AfterLastIsLastPiece | bet365-api-scraper-main/manage.py:138-139 | The text after the last `c` equals the last piece of `Split(s, [c])`, which is what `path_parts.pop()` returns. |
| Strings.SliceFrom | bet365-api-scraper-main/manage.py:140-141 | `s[k:]` is what follows the first `k` characters, and is empty once `k` passes the end. |
| Strings.CountCharAppend | bet365-api-scraper-main/manage.py:123-124 | Occurrences of `c` add up over a concatenation. |
| Strings.CountCharAbsent | bet365-api-scraper-main/manage.py:123-124 | A text without `c` has no occurrence of `c`. |
| Strings.SplitCount | bet365-api-scraper-main/manage.py:123-124 | Splitting on `c` yields exactly one piece more than there are `c`s in `s`. |
| Strings.SplitJoin | bet365-api-scraper-main/manage.py:123 | Frames without `c`, joined by `c` and split on `c`, come back unchanged and in order. |
| Wire.Truthy | bet365-api-scraper-main/manage.py:105 | `not x` is false exactly for a present, non-empty string, so `None` and `''` are both falsy; the same test guards `websockets_replacement.py:100,156`. `OnOpen`, `Connect` and `SubscribeTopics` state their branches with it. |
| Wire.Format | bet365-api-scraper-main/manage.py:71-83 | `fmt % args` for `%s` and `%%`: `%`-free text is copied, `%%` gives `%`, `%s` takes the next argument, and a lone trailing `%`, too few or too many arguments, or another directive is an error. `FormatLiteral`, `FormatPercent`, `FormatDirective` and `FormatPlain` state each rule; the template and message lemmas below apply them to the source's strings (also `manage.py:109,131`). |
| Wire.FormatLiteral | bet365-api-scraper-main/manage.py:71-83 | `%` formatting copies text without `%` through unchanged, whatever follows. |
| Wire.FormatDirective | bet365-api-scraper-main/manage.py:71-83 | A `%s` directive consumes the next argument and inserts it. |
| Wire.FormatPercent | bet365-api-scraper-main/manage.py:71-83 | `%%` becomes one literal `%`. |
| Wire.FormatPlain | bet365-api-scraper-main/manage.py:71-83 | With no arguments, text without `%` formats to itself. |
| Wire.FormatOne | bet365-api-scraper-main/manage.py:109 | `p %s q` with `%`-free `p` and `q`, formatted with one argument, puts the argument in the slot. |
| Wire.SubscriptionShapeFormats | bet365-api-scraper-main/manage.py:79-83 | `'%s%s%%s%s' % (a, b, c)` is `a b %s c`. |
| Wire.SubscriptionTemplateFormats | bet365-api-scraper-main/manage.py:79-83 | `_MESSAGES_SUBSCRIPTION` is `\x16 \x00 %s \x01`, in both clients (`websockets_replacement.py` builds it identically at lines 75-79). |
| Wire.IdentityShapeFormats | bet365-api-scraper-main/manage.py:71-76 | `'%s%sP%s<lit>%%s%s' % (a, b, c, d)` is `a b P c <lit> %s d` for any `%`-free `<lit>`. |
| Wire.IdentityMiddleFormats | bet365-api-scraper-main/manage.py:71-76 | The identity template from `P` on formats to `P c <lit> %s d`. |
| Wire.IdentityTailFormats | bet365-api-scraper-main/manage.py:71-76 | `<lit>%%s%s` with one argument `d` is `<lit> %s d`. |
| Wire.PercentSlotFormats | bet365-api-scraper-main/manage.py:71-83 | `%%s%s` with one argument `d` is a literal `%s` followed by `d`. |
| Wire.IdentityTemplateFormats | bet365-api-scraper-main/manage.py:71-76 | `_MESSAGES_SESSION_ID` is `\x23 \x03 P \x01 __time,S_ %s \x00`: the token slot comes before the no-encoding flag. `websockets_replacement.py` builds it identically at lines 67-72. |
| Wire.SubscriptionMessageFormats | bet365-api-scraper-main/manage.py:131 | `_MESSAGES_SUBSCRIPTION % topic` is exactly `\x16 \x00 topic \x01`. |
| Wire.IdentityMessageFormats | bet365-api-scraper-main/manage.py:109 | `_MESSAGES_SESSION_ID % token` is exactly `\x23 \x03 P \x01 __time,S_ token \x00`. |
| Wire.SubscriptionsPrefix | bet365-api-scraper-main/manage.py:130-132 | Sending for one more topic appends exactly that topic's subscription message. |
| Manage.FirstRecord | bet365-api-scraper-main/manage.py:137 | `records[0]`: the text of the part before its first `\x01`; its meaning is `TakeUntilIsFirstPiece`. |
| Manage.TopicId | bet365-api-scraper-main/manage.py:138-139 | `path_parts.pop()`: the last `\x02`-separated field of the first record; its meaning is `AfterLastIsLastPiece`. |
| Manage.TopicName | bet365-api-scraper-main/manage.py:137-140 | `topic_id[1:]`: the topic identifier without its first character, empty when the identifier is; `TopicNameIsLastField` and `TopicNameWithoutPath` give its meaning. |
| Manage.Content | bet365-api-scraper-main/manage.py:141 | `part[len(records[0]) + 1:]`: what follows the first record and its `\x01`; its meaning is `ContentAfterFirstRecord`. |
| Manage.ContentAfterFirstRecord | bet365-api-scraper-main/manage.py:137-141 | When the part has a `\x01`, it is its first record, `\x01`, then its content. Without one, the content is empty. |
| Manage.HandlePart | bet365-api-scraper-main/manage.py:126-143 | One pass of the loop body: an empty part raises, `1` sends the five subscriptions, `\x14`/`\x15` reports `(TopicName, Content)`, any other tag does nothing. `SubscribeSignalSubscribes`, `TopicUpdateReports` and `OtherPartIgnored` state each branch. |
| Manage.Receive | bet365-api-scraper-main/manage.py:123-125 | A payload is split on `\x08` and its parts handled last to first. `MixedPayloadReports` gives the sends and updates of every payload without an empty part, `HandlePartsFailed` and `EmptyPartStops` the raising case, and `ReceiveJoined` the split. |
| Manage.ResponseOk | bet365-api-scraper-main/manage.py:158 | `not response` holds for an HTTP error status, 400 to 599; `FetchSessionIdCases` uses it. |
| Manage.FetchSessionId | bet365-api-scraper-main/manage.py:150-163 | `_fetch_session_id`: the `pstk` cookie, or `None` when the request raised, the response is an error or no such cookie was set. |
| Manage.FetchSessionIdCases | bet365-api-scraper-main/manage.py:153-163 | A token comes back exactly when the request did not raise, the status is not 400-599 and a `pstk` cookie was set, and it is that cookie's value. An error response never yields one. |
| Manage.WebSockets.constructor | bet365-api-scraper-main/manage.py:85-88 | A new client has sent nothing, decoded nothing and has not been closed; the socket itself opens only in `run_forever` (line 93). |
| Manage.WebSockets.Send | bet365-api-scraper-main/manage.py:145-148 | `_send` appends the message to the sent log and changes nothing else. |
| Manage.WebSockets.Disconnect | bet365-api-scraper-main/manage.py:95-98 | `disconnect` closes the socket. |
| Manage.WebSockets.OnOpen | bet365-api-scraper-main/manage.py:100-110 | The token is the `pstk` cookie of a non-error response, as `_fetch_session_id` (150-163) gets it. With a truthy token, exactly one identity message carrying it is appended and the socket stays as it was. Otherwise nothing is sent and the socket is closed. |
| Manage.WebSockets.OnMessage | bet365-api-scraper-main/manage.py:118-143 | The sends and updates appended are exactly those of `Receive(message)`, and the method fails exactly when `Receive` does. Without failure the loop runs one more time than there are `\x08` in the payload. |
| Manage.WebSockets.DrainParts | bet365-api-scraper-main/manage.py:124-143 | The `while`/`pop` loop, with invariants over the popped suffix. The outputs are those of taking the per-part effects from the last one back. It fails exactly when that does, and otherwise makes one pass per part. |
| Manage.WebSockets.Dispatch | bet365-api-scraper-main/manage.py:126-143 | One loop body for a non-empty part appends exactly `HandlePart(part)`'s sends and updates. The `for` loop over the topics carries the invariant that the sends so far are the subscriptions of the topics so far. |
| Manage.CombineSuffix | bet365-api-scraper-main/manage.py:124-125 | Taking the parts from `k` on is taking those after `k`, then part `k`. |
| Manage.CombineFailing | bet365-api-scraper-main/manage.py:125-126 | When part `k` raises, the handling ends there, after the effects of the parts to its right. |
| Manage.CombineAppend | bet365-api-scraper-main/manage.py:124-125 | When nothing in `back` raises, `front + back` is handled as `back`, then `front`. |
| Manage.ThenUnit | bet365-api-scraper-main/manage.py:124-125 | The empty effect is a left unit of sequencing. |
| Manage.ThenAssoc | bet365-api-scraper-main/manage.py:124-125 | Sequencing effects is associative. |
| Manage.CombineFailed | bet365-api-scraper-main/manage.py:124-126 | Handling raises exactly when some part's own effect raises. |
| Manage.StepsSlice | bet365-api-scraper-main/manage.py:123-125 | The effects of a slice of the parts are the same slice of their effects. |
| Manage.HandlePartsSnoc | bet365-api-scraper-main/manage.py:124-126 | The last part is handled first; then, unless it raised, the parts before it are handled. |
| Manage.HandlePartsFailed | bet365-api-scraper-main/manage.py:126 | Handling a list of parts raises exactly when one of them is empty. |
| Manage.EmptyPartStops | bet365-api-scraper-main/manage.py:125-126 | At the rightmost empty part the handler raises, with the effects of the parts after it and none of those before it. |
| Manage.SinglePart | bet365-api-scraper-main/manage.py:124-143 | A one-part payload has exactly that part's effect. |
| Manage.SubscribeSignalSubscribes | bet365-api-scraper-main/manage.py:127-133 | A part tagged `1` sends exactly one message per topic, `\x16 \x00 topic \x01`, in `_TOPICS` order, and reports no update. |
| Manage.TopicUpdateReports | bet365-api-scraper-main/manage.py:134-143 | A load or delta part sends nothing and reports exactly one update: its topic name and its content. |
| Manage.UnterminatedUpdateReports | bet365-api-scraper-main/manage.py:137-141 | A load or delta part without `\x01` still reports an update, with empty content. |
| Manage.TrailingDelimiterRaises | bet365-api-scraper-main/manage.py:123-126 | A payload ending in `\x08` raises on the first pass and sends and reports nothing. |
| Manage.OtherPartIgnored | bet365-api-scraper-main/manage.py:124-143 | A non-empty part with any other tag sends nothing and reports nothing. |
| Manage.TopicNameIsLastField | bet365-api-scraper-main/manage.py:137-140 | The topic name is the last `\x02`-separated field of the first record, without its first character. |
| Manage.TopicNameWithoutPath | bet365-api-scraper-main/manage.py:137-140 | Without `\x02` in the first record, the field is the whole first record. The character dropped is then the type tag, so the name is `part[1..|first record|]`. |
| Manage.LoadPartExample | bet365-api-scraper-main/manage.py:134-142 | `\x14 A \x02 B \x02 Xtopic1 \x01 hello` reports topic `topic1` with content `hello`. |
| Manage.ReportsSnoc | bet365-api-scraper-main/manage.py:124-125 | The reversed reports of a list are the last part's report, then the reversed reports of the rest. |
| Manage.MixedPayloadReports | bet365-api-scraper-main/manage.py:123-142 | Any payload without an empty part, whatever its mix of tags, does not raise; its updates are those of its load and delta parts in reverse part order, and its sends are one full round of `_TOPICS` subscriptions per `1` part. |
| Manage.ReceiveJoined | bet365-api-scraper-main/manage.py:123-124 | Frames without `\x08` joined into one payload are handled as exactly those frames, with as many loop passes as frames. |
| Replacement.FilterHeaders | bet365-api-scraper-main/websockets_replacement.py:83 | `{k: v for k, v in items if v is not None}` in table order; `FilterHeadersKeeps`, `FilterHeadersAppend` and `FilterHeadersAllSet` give its meaning. |
| Replacement.FilterHeadersKeeps | bet365-api-scraper-main/websockets_replacement.py:83 | A `(name, value)` pair survives the filter exactly when the table has `(name, Some(value))`. Keys and values are unchanged. |
| Replacement.FilterHeadersAppend | bet365-api-scraper-main/websockets_replacement.py:83 | The filter works entry by entry, so the table's order is kept. |
| Replacement.FilterHeadersAllSet | bet365-api-scraper-main/websockets_replacement.py:83 | With every value set, nothing is dropped and each entry keeps its position. |
| Replacement.SentHeaders | bet365-api-scraper-main/websockets_replacement.py:16-39 | A header is sent exactly when its environment variable is set, and then with that variable's value. |
| Replacement.ExtractToken | bet365-api-scraper-main/websockets_replacement.py:129 | `cookies.split('pstk=')[1].split(';')[0] if 'pstk=' in cookies else None`; its meaning is `TokenAfterFirstCookie`. |
| Replacement.TokenAfterFirstCookie | bet365-api-scraper-main/websockets_replacement.py:129 | There is a token exactly when `pstk=` occurs. The token is a prefix of the text after the first `pstk=`, ending at the end, at the next `;` or at the next `pstk=`. It contains neither `;` nor `pstk=`. |
| Replacement.FetchSessionId | bet365-api-scraper-main/websockets_replacement.py:109-133 | `_fetch_session_id`: `None` without a URL, on a transport error or on a status other than 200, otherwise the token of the `Set-Cookie` value read with default `''`; `FetchSucceeds` and `NoCookieNoToken` give its meaning. |
| Replacement.FetchSucceeds | bet365-api-scraper-main/websockets_replacement.py:112-130 | The fetch yields a token exactly when the URL is configured, the request did not raise, the status is 200 and `Set-Cookie` holds `pstk=`. Any other status yields `None`, whatever the cookies. |
| Replacement.NoCookieNoToken | bet365-api-scraper-main/websockets_replacement.py:127-129 | A missing `Set-Cookie` header reads as `''`, which yields no token. |
| Replacement.SubscribeGuard | bet365-api-scraper-main/websockets_replacement.py:156-157 | `if not self.session_id: return`, with the never-assigned attribute as its own outcome; `SubscribeAfterConnect` and `WebSockets.SubscribeTopics` give its meaning. |
| Replacement.SubscribeAfterConnect | bet365-api-scraper-main/websockets_replacement.py:99-157 | After `connect`, `subscribe_topics` never hits the missing attribute. It proceeds only when the URL was configured, the status was 200 and a `pstk=` cookie came back. |
| Replacement.WebSockets.constructor | bet365-api-scraper-main/websockets_replacement.py:12-83 | The URLs are the environment's values. The headers are the declared table with unset entries filtered out. No token is stored yet. |
| Replacement.WebSockets.Disconnect | bet365-api-scraper-main/websockets_replacement.py:105-107 | `disconnect` only reports; the model counts the calls. |
| Replacement.WebSockets.Connect | bet365-api-scraper-main/websockets_replacement.py:96-103 | The fetch result is stored in `session_id`. `disconnect` runs once exactly when that result is falsy (`None` or `''`). |
| Replacement.WebSockets.SubscribeTopics | bet365-api-scraper-main/websockets_replacement.py:154-157 | Before any `connect` the attribute is missing. With a falsy token it returns without sending. It proceeds exactly when the token is truthy. |

## Left out

- Sockets and HTTP are left out: `WebSocketApp`, `run_forever`, `send`, `close`, `requests.get`, `urllib3.PoolManager` with its `Retry`/`Timeout` settings, and the `send_message` POST. This is transport and foreign library behaviour.
  - A send is an append to `sent`, and closing sets `closed`.
  - The session request is a parameter: `SessionPage` in `Manage`, `FetchResult` in `Replacement`.
- Manage.FetchSessionId: the cookie jar is a map from cookie name to value, and the response counts as false for statuses 400-599 (an error status). Cookies with the same name for several domains or paths are not modelled.
- Replacement.FetchSessionId: the `Set-Cookie` value is one string as the response headers return it. How several `Set-Cookie` headers are combined, and the case-insensitive lookup of the header name, are not modelled.
- `load_dotenv` and `os.getenv` are environment I/O. The environment is a `map` parameter, read once when the object is built; the values are opaque strings.
- `print` and `pprint` are left out. The `pprint` of a decoded pair becomes an append to `updates`.
- The `header=` dictionary that `manage.py` hands to the socket library (line 87) is transport configuration and is not modelled.
- `on_close`, the `__main__` block and the `KeyboardInterrupt` handling are lifecycle and signal handling.
- `inplaydiaryapi.py` is not part of this model. It sets up another HTTP session.
- The rest of `subscribe_topics` after line 157 of `websockets_replacement.py` is not modelled; the file ends in the middle of that method. Only its guard is modelled.
- `str(message)` at `manage.py:121` is taken as the identity: payloads are modelled as text. The `b'...'` text Python would produce for a bytes payload is not modelled.
- Manage.WebSockets.OnMessage: only passes that do not raise are counted; after an `IndexError` no count is given.
- `%` formatting covers `%s` and `%%`. Every other directive is one error case, which the templates never reach.
- The `_TYPES_PING_CLIENT` constant is declared but never used by the code, so it plays no part in the model.
