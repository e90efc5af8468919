# heimdall HTTP traffic log formatter, modelled in Dafny

heimdall's `RequestResponseFormatter` (src/heimdall/utils/logger.py) is a logging
formatter. It appends a captured outbound request and/or its response to an
already formatted log line. Each one is rendered as a status line, the headers
left after a deny-list, and a body. The body is shown as a placeholder
(`<unknown>`, `<empty>`, `<binary>`), as re-serialised JSON, as prettified HTML or
unchanged. `get_config` (src/heimdall/logging_config.py) builds the nested
dictionary handed to `logging.config.dictConfig`. It wires that formatter to an
`http` handler and the `_http` logger.

Files:

- `wrappers.dfy`: `Option` and `Result`.
- `pystr.dfy`: the Python string operations the formatter uses (`in`, `join`,
  `str(int)`, `s[:-1]`), ASCII `lower` as the case-insensitive header lookup
  applies it, and `split`, which the lemmas use to read output back. `in` is proved equal to a
  reference definition, `join` and `split` are proved inverse to each other, and
  `str(int)` is proved to parse back. `s[:-1]` and `lower` carry only contracts
  on length and characters.
- `logger.dfy`: the formatter. Requests, responses and log records are datatypes
  holding only the fields the formatter reads.
  - The highlighter is the fallback used without pygments: `highlight(c) == c + "\n"`.
  - `json.dumps(json.loads(body), indent=2, sort_keys=True)` and BeautifulSoup's
    `prettify()` are the two function fields of `Parsers`. `None` stands for the
    `JSONDecodeError` / `AttributeError` the formatter suppresses.
  - The base message from `logging.Formatter.format` is a parameter.
- `logging_config.dfy`: `get_config` as a value tree (`Str`, `Int`, `Bool`, `List`,
  `Dict`), read with a path lookup.

Facts of the code that the model keeps as written:

- The deny-list has ten names (logger.py:38-49).
- `format` can raise `TypeError`. A request body of non-empty `bytes` under a
  non-empty content type that neither parser converts comes back from
  `format_body` as `bytes`, and
  `format_body(...) + "\n"` then raises (logger.py:85-86). A multipart upload is
  one such body. `FormatRequest` and `Format` return `Err(TypeError)` in exactly
  that case.
- The `"()"` entries of the configuration name classes under `baazaar.`, not
  `heimdall.` (logging_config.py:31,36). The model keeps the strings as written.

## Model

| member | source | states |
|---|---|---|
| `PyStr.ContainsIff` | src/heimdall/utils/logger.py:63-66 | the substring test `sub in s` holds exactly when `sub` occurs at some index of `s` |
| `PyStr.SplitJoin` | src/heimdall/utils/logger.py:76 | joining lines with `"\n"` and splitting on `"\n"` gives the lines back, when no line holds a newline |
| `PyStr.JoinSplit` | src/heimdall/utils/logger.py:76 | splitting on a character and joining with it gives the text back |
| `PyStr.IntDecimalRoundTrip` | src/heimdall/utils/logger.py:99 | `int(str(n)) == n` for every integer; the text starts with `-` exactly for negatives |
| `Logger.Highlight` | src/heimdall/utils/logger.py:30-33 | the fallback highlighter returns its input followed by one newline |
| `Logger.FormatBody` | src/heimdall/utils/logger.py:53-69 | the result is `bytes` only when it is the caller's own body handed back unchanged |
| `Logger.FormatBodyPlaceholders` | src/heimdall/utils/logger.py:55-60 | a falsy content type gives `<unknown>` for every body; otherwise a falsy body gives `<empty>` and a truthy non-str/bytes body gives `<binary>` |
| `Logger.FormatBodyJson` | src/heimdall/utils/logger.py:62-69 | a content type containing `application/json` gives the re-serialised document plus newline, or the raw body when parsing fails |
| `Logger.FormatBodyJsonBeforeHtml` | src/heimdall/utils/logger.py:63-68 | a content type containing `text/html` before `application/json` still takes the JSON path; the other order is covered by `FormatBodyJson`, which needs only `application/json` |
| `Logger.FormatBodyHtml` | src/heimdall/utils/logger.py:66-69 | `text/html` without `application/json` gives the prettified document plus newline, or the raw body on failure |
| `Logger.FormatBodyPassthrough` | src/heimdall/utils/logger.py:63-69 | a non-empty body under a content type containing neither substring is returned unchanged |
| `Logger.FormatBodyBytesIff` | src/heimdall/utils/logger.py:55-69 | the result is `bytes` if and only if the body is non-empty `bytes`, the content type is truthy and no parser converted it |
| `Logger.KeptHeaders` | src/heimdall/utils/logger.py:73-75 | the kept headers are no more than the given ones, and none of them has a name on the deny-list |
| `Logger.KeptHeadersMembership` | src/heimdall/utils/logger.py:73-75 | a header is shown if and only if it is present and its name is not on the deny-list |
| `Logger.KeptHeadersAppend` | src/heimdall/utils/logger.py:73-75 | filtering distributes over concatenation, so the kept headers stay in the mapping's order |
| `Logger.HeaderFilterIsCaseSensitive` | src/heimdall/utils/logger.py:38-49 | `Set-Cookie` is dropped while `set-cookie` and `X-Custom` are kept, in order |
| `Logger.FormatHeaders` | src/heimdall/utils/logger.py:72-77 | the header block starts with the prefix and ends with a newline |
| `Logger.FormatHeadersLines` | src/heimdall/utils/logger.py:72-77 | read back line by line, the block is the prefix, then `name: value` for each kept header in order, then the empty remainder after the final newline |
| `Logger.GetHeader` | src/heimdall/utils/logger.py:85 | a found value belongs to a header whose name equals the key ignoring ASCII case; `None` means no such header exists |
| `Logger.ContentType` | src/heimdall/utils/logger.py:85 | the content type is the value of a header named `Content-Type` in any ASCII case, and `None` only when there is no such header |
| `Logger.RequestStatusLine` | src/heimdall/utils/logger.py:80-81 | the request status line is exactly the method, a space, the path and ` HTTP/1.1`: it has that prefix and suffix and no other characters |
| `Logger.FormatRequest` | src/heimdall/utils/logger.py:79-88 | a rendered request starts with `"{method} {path_url} HTTP/1.1"` and a newline and ends with a newline; when the body renders as text it is exactly the header block, a newline, the body and a newline, and a `bytes` body raises `TypeError` |
| `Logger.FormatRequestFailsIff` | src/heimdall/utils/logger.py:82-88 | rendering a request raises if and only if its non-empty `bytes` body is passed through unconverted |
| `Logger.BareGetBlocks` | src/heimdall/utils/logger.py:79-88 | a GET of `/` with no headers and no body renders as `GET / HTTP/1.1`, an empty header list and `<unknown>` |
| `Logger.HttpVersion` | src/heimdall/utils/logger.py:91-98 | the version is one of `1.0`, `1.1`, `2.0`, `unknown`, and it is `unknown` if and only if the raw code is not 10, 11 or 20 |
| `Logger.HttpVersionMeaning` | src/heimdall/utils/logger.py:91-98 | the raw codes 10, 11 and 20 read as `major.minor` of the code's two digits |
| `Logger.ResponseStatusLine` | src/heimdall/utils/logger.py:99 | the response status line is exactly `HTTP/`, the version, a space, the decimal status code, a space and the reason: it has that prefix and suffix, and its length leaves room for the code and nothing else |
| `Logger.ResponseStatusLineFields` | src/heimdall/utils/logger.py:99 | split on spaces, the response status line gives `HTTP/<version>` and a field that parses back to the status code |
| `Logger.ResponseStatusLineExample` | src/heimdall/utils/logger.py:91-99 | raw version 11, status 200 and reason OK give `HTTP/1.1 200 OK` |
| `Logger.FormatResponse` | src/heimdall/utils/logger.py:90-105 | a rendered response starts with its status line and a newline and, given a response with a `raw` version, never raises; it is exactly the header block, a newline and the rendered body, which is always text |
| `Logger.ResolvedResponse` | src/heimdall/utils/logger.py:112 | a response is resolved exactly when the record carries a `response` attribute that is not `None`, and it is that attribute |
| `Logger.ResolvedRequest` | src/heimdall/utils/logger.py:112-115 | a request attribute on the record is taken as it is; otherwise a resolved request is the `request` of the record's response |
| `Logger.RequestBlock` | src/heimdall/utils/logger.py:113-120 | with a resolved request, the block is `format_request(request)`, or the error it raises; otherwise there is no block. A block ends with a newline |
| `Logger.ResponseBlock` | src/heimdall/utils/logger.py:112-124 | there is a response block exactly when a response is attached; it is `format_response(response)` and starts with that response's status line |
| `Logger.ResolvedRequestPrecedence` | src/heimdall/utils/logger.py:112-115 | a request attribute on the record wins, even when it is `None`; only a missing one defers to `response.request` |
| `Logger.NeedsSeparatorIff` | src/heimdall/utils/logger.py:118 | the guard skips the newline if and only if the message has exactly two characters and the first is a newline |
| `Logger.AppendBlockPlacement` | src/heimdall/utils/logger.py:117-124 | appending keeps the message as a prefix and puts the block at the very end; between them there is nothing or a single `\n`, and the `\n` is there if and only if the guard `msg[:-1] != "\n"` holds |
| `Logger.Format` | src/heimdall/utils/logger.py:107-125 | a formatted record starts with the base message |
| `Logger.AssembleCases` | src/heimdall/utils/logger.py:116-125 | with no block the message is the base unchanged; with only one block it is the base with that block appended behind the guard |
| `Logger.FormatAddsAttachedBlocks` | src/heimdall/utils/logger.py:112-125 | whenever the request renders, `format` is the base with the request block and then the response block appended; each block is there exactly when its request or response is |
| `Logger.FormatRequestThenResponse` | src/heimdall/utils/logger.py:112-125 | a record carrying a request that renders and a response is formatted as the base, then the rendered request, then the rendered response, each behind the guard |
| `Logger.FormatNothingAttached` | src/heimdall/utils/logger.py:112-125 | a record with neither attribute is formatted as the base message |
| `Logger.FormatBlankLineBeforeResponse` | src/heimdall/utils/logger.py:116-124 | with both attached and any base message except a two-character one starting with a newline, the output is base, `\n`, request block, `\n`, response block; the request block already ends in `\n`, so an empty line separates the blocks |
| `Logger.FormatFailsIff` | src/heimdall/utils/logger.py:112-124 | `format` raises if and only if a request is resolved and rendering it raises |
| `Logger.AssembleInOrder` | src/heimdall/utils/logger.py:116-124 | appending two blocks to the base message leaves the base, then the request block, then the response block ending the text; each block comes directly, or after one `\n` exactly when the guard holds for the text before it |
| `Logger.FormatBlocksInOrder` | src/heimdall/utils/logger.py:116-125 | with both attached, the output is the base message, then the request block, then the response block ending the text; each block comes directly, or after one `\n` exactly when the guard holds for the text before it |
| `Logger.FormatGluesAfterShortMessage` | src/heimdall/utils/logger.py:117-120 | as written, base message `"\nA"` gets the request block directly after `A`; the intended guard puts a newline between them |
| `Logger.FormatIntended` | src/heimdall/utils/logger.py:107-125 | with the guard `msg[-1:] != "\n"`, a formatted record still starts with the base message |
| `Logger.AssembleIntendedBeginsLines` | src/heimdall/utils/logger.py:117-124 | with the intended guard, each block that is appended begins a line of the output |
| `Logger.FormatIntendedBlocksBeginLines` | src/heimdall/utils/logger.py:117-124 | with the intended guard, every appended block begins a line of the output |
| `Logger.FormatIntendedResponseFollowsRequest` | src/heimdall/utils/logger.py:117-124 | with the intended guard and a base message not ending in a newline, the response block follows the request block with no empty line between |
| `LoggingConfig.GetConfig` | src/heimdall/logging_config.py:14-72 | the configuration is a dict with exactly the keys `version`, `disable_existing_loggers`, `formatters`, `handlers` and `loggers` |
| `LoggingConfig.GetConfigFixedEntries` | src/heimdall/logging_config.py:19-38 | `version` is 1, `disable_existing_loggers` is False and the formatters are exactly verbose, simple, json and http, whatever the arguments |
| `LoggingConfig.HttpLoggerToggle` | src/heimdall/logging_config.py:56-60 | the `_http` logger's handlers are `['http']` if and only if `log_http` is set, and `[]` if and only if it is not |
| `LoggingConfig.LoggersFollowLevel` | src/heimdall/logging_config.py:54-70 | the `_http`, `django` and root loggers all have level `log_level` and `propagate` False |
| `LoggingConfig.ConsoleHandlerSettings` | src/heimdall/logging_config.py:40-44 | the console handler uses the `log_formatter` argument and has the fixed level INFO |
| `LoggingConfig.GetConfigDefaults` | src/heimdall/logging_config.py:14 | with no arguments: level WARNING, console formatter verbose, `_http` logger without handlers |
| `LoggingConfig.GetConfigInjective` | src/heimdall/logging_config.py:14-72 | equal configurations come from equal arguments: each argument shows in the result |
| `LoggingConfig.LoggersUseDeclaredHandlers` | src/heimdall/logging_config.py:39-71 | every handler a logger lists is declared in the `handlers` section, whatever the arguments |
| `LoggingConfig.ReferencesResolveIff` | src/heimdall/logging_config.py:22-71 | every handler and formatter named in the configuration is declared in it if and only if `log_formatter` is one of the four formatter names |

## Findings

| source | as written | input that shows it | evidently intended | confidence | as-written member | corrected member |
|---|---|---|---|---|---|---|
| src/heimdall/utils/logger.py:118 | `msg[:-1] != "\n"` compares all but the last character with a newline. It almost always adds one, even after a block that already ends in a newline, and it adds none for `"\nA"` | base message `"\nA"` with a request `GET /` attached: the status line follows `A` on the same line | `msg[-1:] != "\n"`: add a newline unless the message already ends in one | medium; not executed | `Logger.FormatGluesAfterShortMessage` | `Logger.FormatIntended` |

`Logger.Format` models the code as written. `Logger.FormatIntended` uses the
last-character guard. `Logger.FormatIntendedBlocksBeginLines` proves its property.

The `"\nA"` base message does not arise under the `http` formatter, whose format
string starts with `[` (logging_config.py:35). The guard shows there in another
way: the request block ends in a newline, yet the guard adds a second one before
the response block, leaving an empty line between them
(`Logger.FormatBlankLineBeforeResponse`). With the last-character guard the
response follows on the next line (`Logger.FormatIntendedResponseFollowsRequest`).

## Left out

- Syntax highlighting with pygments and terminal escape codes: a foreign library. Only the fallback `content + "\n"` is modelled.
- The internals of `json.loads`/`json.dumps` and of BeautifulSoup's `prettify`. They are the abstract functions in `Parsers`, and their `None` result stands only for the suppressed `JSONDecodeError`/`AttributeError`. Other exceptions they may raise (a `UnicodeDecodeError` on bytes that are not valid UTF-8, a `RecursionError`) are not modelled.
- `logging.Formatter.format` (timestamp and level rendering): the framework's. Its result is the `base` parameter.
- Logger.FormatResponse: `response.raw.version` is modelled as an integer field. A `Response` without `raw` (a hand-built `requests.Response()` has `raw = None`) makes `format_response` raise `AttributeError`, which escapes `format`. That case is not modelled, so the model's `format_response` never fails.
- Header names and values are modelled as strings, and the content type as a string or `None`. A `bytes` header value, which would make the `in` test raise, is not modelled.
- Logger.GetHeader: folds only ASCII letters, where the case-insensitive mapping of `requests` uses Unicode `str.lower`.
- Request truthiness: a resolved request is truthy exactly when it is not `None`, as for `PreparedRequest` objects. Other falsy objects attached as `request` are not modelled. Neither are `request`/`response` attributes of some other type.
- `get_config` arguments: `log_level` and `log_formatter` are modelled as strings and `log_http` as a boolean. Python accepts any value, with truthiness deciding `log_http`.
- Dictionary order in `get_config`: the dicts are Dafny maps. `dictConfig` does not depend on the order.
- `CustomJsonFormatter`: a thin wrapper over a third-party JSON log formatter.
- llama_app.py and scratch.py: UI session state, document indexing and calls to a hosted model API, all in external libraries or over the network.
