# TongaClient, modelled in Dafny

Tonga is a feature-flag service. `TongaClient` (tonga/client.py) is its Python client, and it does four things:

- `get(flag)` asks the server for the flag's value, at `{server_url}/flag_value/{flag}` followed by a query string built from the client's context attributes.
- Each answer is cached for the lifetime of the client. A 404 means "not defined" and is cached as `None`.
- Every `get` that returns a value is tallied in an analytics counter: flag name → `json.dumps(value)` → count. A `get` whose fetch raised tallies nothing.
- A background loop posts the counter to `{server_url}/update_analytics` and clears it. A report with nothing tallied sends nothing. `close()` stops the loop, which flushes one last time. Nothing catches an exception from the report's `requests.post`, so a failed post ends the loop, and after that nothing is reported again, not even at `close()`.

The model has seven modules:

| file | module | what it holds |
|---|---|---|
| `wrappers.dfy` | `Wrappers` | `Option` and `Result` |
| `numerals.dfy` | `Numerals` | decimal and hexadecimal digits, as `str(int)` and `%XX` / `\uXXXX` write them |
| `utf8.dfy` | `Utf8` | UTF-8 encoding of strings, with a strict decoder that inverts it |
| `json.dfy` | `Json` | JSON values, `json.dumps` with Python's default separators and `ensure_ascii`, and a parser that reads its output back |
| `url_encoding.dfy` | `UrlEncoding` | `quote_plus` and `urlencode` over an ordered list of context attributes, and the form decoder that inverts them |
| `analytics.dfy` | `Analytics` | the analytics counter as a map of maps, the tally, and totals |
| `client.dfy` | `Tonga` | the query string and URLs, the server's reply, the `TongaClient` class, and whole sessions on a fresh client |

How the model stands in for things it cannot run:

- **The server** is a parameter `server: string -> Reply`, a function from the requested URL to a reply. A reply is either no connection, or a status code with the body already parsed as JSON (`None` when the body is not JSON).
- **The requests sent** are recorded in the class field `sent`, in order. Each is the string the client passes to `requests.get` or `requests.post`, not the URL on the wire: `requests` quotes it again, so a space in a flag name goes out as `%20`.
- **The background thread** is modelled as explicit calls:
  - `AnalyticsTick` is one turn of the loop. Its `posted` parameter says whether the post returned or raised. The field `loopDead` records that a raised post ended the loop.
  - `Close` is `close()` followed by the loop's final flush.
- **The ghost field `pending`** lists the (flag, JSON text) of every `get` that returned a value since the last report.
- **`Valid()`** ties the real counter to `pending`: the counter is `Analytics.TallyAll(map[], pending)`. Every method keeps this invariant.

Where the code and the repository's tests disagree, the model follows the code:

- **Value unwrapping.** The tests expect the flag value under the body's `value` key (tests/test_client.py:35-39). `_get_flag_value_from_server` returns `response.json()` whole (tonga/client.py:85), so here the value is the whole JSON body.
- **Missing features.** The tests use an offline mode (tests/test_client.py:71-77), request attributes (:80-88, :132-141), a state dump, set and clear (:90-111) and `with_state` (:113-130). client.py defines none of these.

## Model

| member | source | states |
|---|---|---|
| Tonga.BuildQueryString | tonga/client.py:87-99 | the query string is empty exactly when there are no context attributes; otherwise it is `?` followed by `urlencode` of the attributes |
| Tonga.SplitUrl | tonga/client.py:78-79 | a request URL splits at its first `?` into the bare path and a query; there is no `?` exactly when there are no attributes; the query decodes back to the rendered attributes, in order |
| Tonga.FlagValueUrl | tonga/client.py:78-79 | the flag URL starts with the server URL and is the bare path `{server_url}/flag_value/{flag}` exactly when there is no context; its path and query are stated by FlagValueUrlParts and SplitUrl |
| Tonga.FlagValueUrlParts | tonga/client.py:78-79 | when neither the server URL nor the flag contains `?`, the path of a flag request is `{server_url}/flag_value/{flag}` and its query decodes to the context attributes |
| Tonga.UpdateAnalyticsUrlParts | tonga/client.py:110-111 | the path of a report is `{server_url}/update_analytics` and its query decodes to the context attributes |
| Tonga.UpdateAnalyticsUrl | tonga/client.py:110-111 | the report URL starts with the server URL and is the bare path `{server_url}/update_analytics` exactly when there is no context; its parts are stated by UpdateAnalyticsUrlParts |
| Tonga.SameUrlSameContext | tonga/client.py:78-79 | two clients that ask the same URL for a flag have the same rendered context attributes, whatever the server URL and the flag name contain |
| Tonga.FlagNameNotEscaped | tonga/client.py:78 | the flag name is not escaped: a flag named `base?key=value` is requested at the same URL as flag `base` with context `key=value` |
| Tonga.ExampleQueryString | tests/test_client.py:44-47 | the context `user='some user1', some_attribute=2` gives the query string `?user=some+user1&some_attribute=2` |
| Tonga.ReplyOutcome | tonga/client.py:80-85 | the errors a fetch raises: a connection error exactly when there is no reply; an HTTP error only for a 400-599 status other than 404, carrying that status; a JSON error only for a body that is not JSON; the successes are stated by ReplyOutcomeCases |
| Tonga.ReplyOutcomeCases | tonga/client.py:80-85 | a fetch succeeds exactly on a 404, or on a status outside 400-599 with a JSON body; a 404 gives `None`; any other success, including a JSON `null` body, is the body itself |
| Tonga.TongaClient.constructor | tonga/client.py:19-23 | a new client has an empty cache and counter, and has sent nothing; missing context attributes become an empty context |
| Tonga.TongaClient.GetFlagValueFromServer | tonga/client.py:70-85 | sends exactly one GET, to the flag's URL, and returns the outcome of the reply |
| Tonga.TongaClient.GetFlagValueThroughCache | tonga/client.py:55-68 | a cached flag, including one cached as `None`, is answered from the cache with no request and no change; a missing flag is fetched once, and exactly the fetched value is cached; a failed fetch caches nothing |
| Tonga.TongaClient.Get | tonga/client.py:30-42 | the cache behaves as above; a successful `get` adds exactly one tally, under the flag and the value's `json.dumps`, and records it as pending; a failed one changes no count |
| Tonga.TongaClient.UpdateServerAnalytics | tonga/client.py:101-116 | with nothing tallied, nothing is sent and nothing changes; otherwise exactly one POST of the whole counter goes to the report URL, and the counter is left empty; the batch's counts add up to the number of `get` calls that returned a value since the last report, and each count is the number of those calls with that flag and value |
| Tonga.TongaClient.AnalyticsTick | tonga/client.py:115-124 | one turn of the report loop: the report as above while the loop runs; a post that raised ends the loop; nothing once the client is stopped or the loop has ended |
| Tonga.TongaClient.Close | tonga/client.py:44-53 | `close` stops the loop; if the loop still runs, its final report flushes what is pending (tonga/client.py:126-127), and with nothing pending sends nothing and changes nothing; a loop ended by a failed post flushes nothing; closing again sends nothing |
| Tonga.RepeatedGet | tonga/client.py:64-67 | two `get` calls of one flag, the network free to answer differently each time: after a successful first fetch, the second call repeats its answer with no request (one GET in the log, as tests/test_client.py:60-68 expects); after a failed one, nothing was cached, so the second call fetches again and returns whatever the network then answers (two GETs) |
| Tonga.UndefinedFlag | tests/test_client.py:17-22 | a flag the server does not define reads as `None` twice with one request; the report counts it twice under `"null"`; the log is the one GET followed by the one POST |
| Tonga.ReportTwice | tonga/client.py:106-116 | a second report with no `get` in between sends nothing; the first reports the one value with count 1 |
| Tonga.CloseFlushes | tonga/client.py:44-53 | `close` posts the tally of a successful `get` once; a second `close` posts nothing |
| Tonga.Fetches | tonga/client.py:80 | the number of GET requests in a log is zero exactly when every request is a POST, and equals the log's length exactly when every request is a GET |
| Tonga.FetchesAppend | tonga/client.py:80 | the GETs of two logs in sequence add up |
| Tonga.FailedReportEndsLoop | tonga/client.py:115-127 | after a report whose post raised, a later `get` is still tallied, but `close` flushes nothing, and the log ends with that one failed POST |
| Analytics.Tally | tonga/client.py:41 | `counter[flag][json] += 1` adds exactly one to that count, changes no other count, adds only `flag` to the flags, and keeps the counter well formed |
| Analytics.TallyAllCount | tonga/client.py:41 | after a series of `get` calls, every count is its start value plus the number of times that (flag, value) occurred |
| Analytics.TallyAllSnoc | tonga/client.py:41 | tallying one more event is one more tally on the earlier counter |
| Analytics.TallyTotal | tonga/client.py:41 | each tally adds exactly one to the sum of all counts |
| Analytics.TallyAllTotal | tonga/client.py:41 | the sum of all counts equals the number of `get` calls tallied |
| Analytics.TallyOnce | tonga/client.py:41 | one tally on an empty counter gives that flag and value a count of 1 and nothing else |
| Analytics.TallyTwice | tonga/client.py:41 | two tallies of one event on an empty counter give a count of 2 |
| Analytics.TallyAllWellFormed | tonga/client.py:23 | the `defaultdict(Counter)` never holds an empty inner counter or a zero count |
| Analytics.TallyAllEmpty | tonga/client.py:108 | the counter is empty (falsy) exactly when nothing was tallied |
| Json.ParseRoundTrip | tonga/client.py:41 | the `json.dumps` text of every value parses back to that value |
| Json.Dumps | tonga/client.py:41 | `json.dumps` with the default separators and `ensure_ascii`: never empty, and its first character tells a string, an array and an object apart; that the text determines the value is stated by ParseRoundTrip and DumpsInjective |
| Json.DumpsInjective | tonga/client.py:41 | two values share a `json.dumps` analytics key exactly when they are equal (`null` and `"null"` are tallied apart) |
| Json.ParseDumps | tonga/client.py:41 | parsing `json.dumps(v)` followed by any text that does not start with a digit gives `v` and leaves that text |
| Json.ParseEscape | tonga/client.py:41 | the escaped body of a string literal, including `\uXXXX` escapes and surrogate pairs, parses back to the string |
| Json.EscapeChar | tonga/client.py:41 | an escaped character is never empty and never starts with `"` |
| Numerals.DecimalRoundTrip | tonga/client.py:96 | the decimal text of a natural number reads back to that number |
| Numerals.NatToDecimal | tonga/client.py:96 | `str(n)` is a non-empty string of digits with no leading zero |
| Numerals.IntToDecimal | tonga/client.py:96 | `str(i)` starts with `-` exactly when `i` is negative, followed by the magnitude's digits |
| Numerals.Hex2 | tonga/client.py:96 | two hexadecimal digits whose value is the byte, with letters only in the requested case |
| Numerals.Hex4 | tonga/client.py:41 | four lower-case hexadecimal digits whose value is the code unit |
| Utf8.EncodeScalar | tonga/client.py:96 | a character encodes to 1 to 4 bytes, and to one byte exactly when it is ASCII |
| Utf8.DecodeEncode | tonga/client.py:96 | the strict UTF-8 decoder inverts the encoder |
| Utf8.EncodeInjective | tonga/client.py:96 | distinct strings have distinct UTF-8 encodings |
| UrlEncoding.QuoteByte | tonga/client.py:96 | an unreserved byte is kept, a space becomes `+`, and any other byte becomes `%` followed by two upper-case hexadecimal digits whose value is the byte |
| UrlEncoding.QuotePlus | tonga/client.py:96 | `quote_plus` output holds only unreserved characters, `%` and `+`, so never `&`, `=` or `?` |
| UrlEncoding.UnquoteQuoteBytes | tonga/client.py:96 | decoding the quoted bytes gives the bytes back |
| UrlEncoding.FormDecodeQuotePlus | tonga/client.py:96 | form decoding inverts `quote_plus` for every string |
| UrlEncoding.QuotePlusUnreserved | tonga/client.py:96 | a string of unreserved ASCII characters is left unchanged |
| UrlEncoding.QuotePlusTwoWords | tonga/client.py:96 | a space between two words becomes `+` and the words are quoted separately |
| UrlEncoding.Urlencode | tonga/client.py:96-97 | `urlencode` is empty exactly when there are no attributes, and never contains `?` |
| UrlEncoding.Rendered | tonga/client.py:96 | each attribute is rendered as its key and `str` of its value, in order |
| UrlEncoding.Str | tonga/client.py:96 | `str` of an attribute value: an integer starts with `-` exactly when it is negative, and a boolean is `True` or `False`, capitalised as Python writes it |
| UrlEncoding.EncodePair | tonga/client.py:96 | one `key=value` pair of `urlencode` holds no `&` and no `?`, so the pairs joined by `&` stay apart; DecodeEncodePair reads it back to the key and `str` of the value |
| UrlEncoding.DecodeUrlencode | tonga/client.py:96 | splitting `urlencode`'s output at `&` and `=` and decoding each part gives back every key and `str(value)`, in order |

## Left out

- HTTP is not performed. `requests.get` and `requests.post` are replaced by the `server` parameter and the `sent` log. Reading the response text as JSON is also left out: a reply carries its body already parsed.
- A failed POST is modelled only as the `posted` flag of `AnalyticsTick`. It drops the batch, because the counter is cleared before the post (tonga/client.py:113-116). It also ends the loop, so nothing tallied later is ever reported. A failed post at the final flush in `Close` is not distinguished, because nothing happens after it either way.
- An exception from `requests` or `raise_for_status` is modelled as an `Err` result. It propagates, so nothing is cached and nothing is tallied.
- Threads, the `Lock`, the `Event` and its wait interval, and the join timeout on close are left out; the report loop is modelled as explicit `AnalyticsTick` and `Close` calls. So the model does not cover a report that runs between another thread's fetch and its tally, or a close whose join times out before the final flush.
- `TongaClientOptions` (tonga/client.py:130-142) holds only the report interval and the close timeout, which are timing and therefore left out.
- The Python 2 branch of `_build_query_string` (tonga/client.py:93-94) is left out; only `urllib.parse.urlencode` is modelled, as Python 3.7 or later writes it. Python 3.0-3.6 quote `~` as `%7E`, and the model leaves `~` unquoted.
- Context attribute values are modelled as text, integers and booleans. Floats, `None` and other objects are left out: their `str` is not modelled.
- The context attributes are a frozen copy taken at construction. The source keeps a reference to the caller's dict and reads it again on every request (tonga/client.py:20, 94-96). If the caller changes that dict, later query strings change, while flag values already cached stay. The model does not capture that aliasing.
- A flag value is one Python object shared by the cache and every caller: a hit returns the cached object itself (tonga/client.py:65), and a miss stores the object it returns (tonga/client.py:67-68). The whole `response.json()` body is the value (tonga/client.py:85), so it can be a mutable dict or list. If a caller changes it, later hits return the changed value, and their tallies use its new `json.dumps` text (tonga/client.py:41). `Json.Value` is immutable, so the model does not capture that aliasing: a cached value stays as fetched.
- Attribute order is the dictionary's insertion order, so attributes are an ordered list. Duplicate keys, which a dictionary cannot hold, are not excluded.
- JSON floats are left out of `Json.Value`, and so is the text of the response body.
- An object is a list of members, so `Json.Value` admits an object with a repeated key. `json.loads` never yields one (the last value for a key wins), and `Dumps` of one is text Python never writes. Such values are not excluded.
- A Python `str` can hold a lone surrogate, and a Dafny `char` cannot. `json.loads` accepts an escaped lone surrogate such as `"\ud800"` in a reply, and `json.dumps` writes it back the same way as an analytics key; `quote_plus` raises `UnicodeEncodeError` on one in a context value, so `get` raises. `Json.ParseUnicodeEscape` refuses a lone surrogate, so such replies and contexts are outside the model.
- The report body is `json.dumps` of the counter, sent again as JSON by `requests.post(json=...)`. It is modelled as the counter itself, as a map, and the text and its key order are left out.
- Tonga.TongaClient.Close: does not model the thread's lifetime. The constructor always starts the thread (tonga/client.py:26-28), so the `except RuntimeError` for a thread that never started (tonga/client.py:51-53) cannot be reached, and the model has no such case.
- Retries with backoff, offline mode, request headers from `request_attributes`, `dump_state`, `set_state`, `clear_state`, `with_state` and pre-fetching are not in tonga/client.py, so they are not part of this model.
