# memcached-style cache server and static web server, modelled in Dafny

This project models the core of two small Go servers.

**The cache server** (`memcached/memcached.go`) speaks a line protocol: `set`, `replace` and `get`.

- `validateRequest` recognises a request header with three regular expressions, tried in the order set, get, replace. The model is `Protocol`. It matches the patterns with greedy character-class scans (`Scan`). A reference grammar (`Spells`) says which lines spell which pattern with which submatches. Lemmas prove that the validator accepts exactly those lines.
- `set` and `get` work on a global map from keys to entries. The model is a `Store.Cache` class whose `entries` map its methods update. The methods are proved against the functions `Store.Put` and `Store.Lookup`.
  - Expiry times are 64-bit: the model has `GoInt.ParseInt` for `strconv.ParseInt` (value only), with Go's clamping and its zero result on a syntax error, and `GoInt.Wrap` for `int64` addition.
  - The clock `time.Now().Unix()` is the parameter `now`.
- The request loop of `handleRequest` is `Connection.Serve`, a `while` loop over a finite sequence of input lines. Each round is `Connection.HandleRequest`, which acts on the cache. The method is proved against `Connection.Dispatch`, whose contract is the handler's reply table. `Connection.Run` folds `Dispatch` over the lines and is `Serve`'s specification.

**The web server** (`web_server/server.go`) is modelled in `WebServer`.

- `isValidGETRequest` runs `(?m)^GET\s+\/[^\s]*\s+HTTP\/1\.[01]$(?:\r?\nHost:\s+[^\s]+)?` as an unanchored search. The model is a search for a line start where `GET … HTTP/1.x` matches up to an end of line.
  - The optional Host group never changes whether a match exists, so it is not modelled.
  - As written, the group could only ever follow a bare `\n`: in multi-line mode `$` holds only before `\n`, never before `\r`.
- The path is `strings.Fields(request)[1]`. `strings.Fields` splits on `unicode.IsSpace`, a wider set than the regexp's `\s`. The path field is therefore the regexp's path cut at its first Unicode space (`WebServer.PathField`).
- `loadPageData` chooses the index page or the 404 page. Its response is the header's bytes followed by the file's bytes. Files are an explicit map from paths to contents, standing in for `os.ReadFile`. A missing file is `Panicked`, which models `check(err)` panicking.

## Model

| member | source | states |
|---|---|---|
| GoInt.DigitsValue | memcached/memcached.go:70 | the decimal digits `fmt.Sprint` writes for a number read back as that number |
| GoInt.FormatParses | memcached/memcached.go:70-86 | every int64 written by `fmt.Sprint` parses back to itself, so keeping the expiry as a number loses nothing |
| GoInt.Wrap | memcached/memcached.go:70 | int64 `+` wraps: the result is in range, congruent to the exact sum modulo 2^64, and equal to it when no overflow |
| GoInt.ParseIntNegative | memcached/memcached.go:69 | ParseInt is negative exactly for a '-'-signed decimal of nonzero magnitude |
| GoInt.ParseInt | memcached/memcached.go:69 | `strconv.ParseInt(exptime, 10, 64)` with the error dropped: the clamping to the int64 range and the 0 on a syntax error are fixed by the body alone; what is proved about it is the round trip (FormatParses) and its sign (ParseIntNegative) |
| GoInt.Digits | memcached/memcached.go:70 | the decimal digits `fmt.Sprint` writes for a natural number: a nonempty run of digits whose value is the number (DigitsValue) |
| GoInt.FormatInt | memcached/memcached.go:65-70 | `fmt.Sprint` of an integer: nonempty, with a leading '-' exactly for a negative number; it parses back to itself (FormatParses) |
| Protocol.ValidateRequest | memcached/memcached.go:29-46 | a recognised request carries the full match plus 4 submatches for set/replace, plus 1 for get |
| Protocol.MatchAfterSpells | memcached/memcached.go:32-34 | the scanner behind each regular expression accepts a line with given submatches iff the line spells the keyword and the pattern (`\s+(\w+)…`, prefix-anchored) |
| Protocol.SpellsUnique | memcached/memcached.go:32-34 | a keyword and pattern match a line in at most one way, so the submatches are determined by the line |
| Protocol.ValidateSet | memcached/memcached.go:32-37 | the result is a set request with these arguments iff the line spells `set\s+(\w+)\s+(\d+)\s+(-?\d+)\s+(\d+)` with them |
| Protocol.ValidateGet | memcached/memcached.go:34-39 | the result is a get request with these arguments iff the line spells `get\s+(\w+)` with them |
| Protocol.ValidateReplace | memcached/memcached.go:33-41 | the result is a replace request with these arguments iff the line spells the replace pattern with them |
| Protocol.ValidateRejects | memcached/memcached.go:36-45 | a line is invalid iff it spells none of the three patterns |
| Protocol.AtMostOnePattern | memcached/memcached.go:32-34 | no line spells two of the patterns, so the order the validator tries them in does not matter |
| Protocol.RequestFields | memcached/memcached.go:32-34 | a recognised request has a word-character key; for set and replace, digit flags, an optionally negative decimal exptime and digit bytes |
| Protocol.GetIgnoresTrailingText | memcached/memcached.go:34-39 | "get foo bar" is a get of "foo" (the pattern is not anchored at the end) |
| Protocol.TrailingTextIgnored | memcached/memcached.go:32-34 | appending text that cannot extend the last field leaves the recognised request unchanged |
| Protocol.StartsOutsideSound | memcached/memcached.go:32-34 | a `\s+` field never starts with a word or digit character, and a `\w+`, `\d+` or `-?\d+` field never starts with whitespace |
| Protocol.PatternsAlternate | memcached/memcached.go:32-34 | in each pattern the items alternate between `\s+` and non-space fields |
| Protocol.GreedyLastOnly | memcached/memcached.go:32-34 | for such patterns a plain concatenation of the fields already has every inner field maximal: Spells is the regular expression's language with a greedy last field |
| Store.ExpiryOf | memcached/memcached.go:64-72 | exptime "0" gives MaxInt64; otherwise, when the sum does not overflow, `now` plus the parsed exptime |
| Store.Expired | memcached/memcached.go:87 | an entry is expired when its expiry lies strictly before now; its meaning is in Lookup, NeverExpires and the exptime lemmas |
| Store.Put | memcached/memcached.go:56-78 | stores iff the key is absent or replacement is allowed; when refused the cache is unchanged; when stored exactly the key gains the new entry and every other key keeps its entry |
| Store.Lookup | memcached/memcached.go:80-96 | finds an entry iff the key is present and not expired, returning the stored entry; an expired entry is deleted and nothing else changes |
| Store.Cache.constructor | memcached/memcached.go:22 | the cache starts empty |
| Store.Cache.Set | memcached/memcached.go:56-78 | the reply and the new entries are those of Put on the old entries |
| Store.Cache.Get | memcached/memcached.go:80-96 | the result and the new entries are those of Lookup on the old entries |
| Store.NeverExpires | memcached/memcached.go:64-87 | an entry stored with exptime "0" is found at any later time |
| Store.NegativeExptimeExpiresAtOnce | memcached/memcached.go:67-91 | with a negative exptime the entry is gone at the next get in the same second |
| Store.OverflowingExptimeExpiresAtOnce | memcached/memcached.go:68-91 | when `now + exptime` overflows int64 the expiry wraps into the past, and the entry is gone at the next get |
| Store.PutLeavesOtherKeys | memcached/memcached.go:75 | storing one key does not change what get answers for any other key |
| Store.LookupIdempotent | memcached/memcached.go:80-96 | a second get at the same time answers the same and changes nothing |
| Store.LookupMissStays | memcached/memcached.go:80-96 | once get has answered nil, it answers nil at every later time |
| Connection.Dispatch | memcached/memcached.go:109-159 | the reply table: an invalid header gets no reply and changes nothing; set stores iff the key is absent, replace iff present, with STORED/NOT_STORED, and the value line is read either way; get answers the VALUE block for a live entry and END otherwise, evicting an expired entry |
| Connection.ValueReply | memcached/memcached.go:154-158 | the get reply for a live entry: `VALUE key flags bytes`, CRLF, the value, CRLF; what it echoes is shown by SetThenGet and ReplaceThenGet |
| Connection.Run | memcached/memcached.go:99-164 | Dispatch folded over the lines, skipping the value line after set/replace; it sends at most one reply per line (RepliesBounded), and its behaviour is stated by InvalidHeaderSkipped and the conversation lemmas below |
| Connection.RepliesBounded | memcached/memcached.go:99-164 | every round consumes at least one line and sends at most one reply, so the replies are no more than the lines |
| Connection.HandleRequest | memcached/memcached.go:109-159 | one round on the cache object gives the reply and the new entries of Dispatch |
| Connection.Serve | memcached/memcached.go:99-164 | looping over all lines leaves the cache and the replies that folding Dispatch over them (Run) gives |
| Connection.InvalidHeaderSkipped | memcached/memcached.go:109-111 | an invalid header is dropped alone; the next line is read as a header |
| Connection.SetThenGet | memcached/memcached.go:115-159 | set with exptime "0" of an absent key, then get: STORED, then the VALUE block of the stored line |
| Connection.ReplaceAbsentThenGet | memcached/memcached.go:129-153 | replace of an absent key answers NOT_STORED, consumes the value line and creates nothing: a following get answers END |
| Connection.ReplaceThenGet | memcached/memcached.go:129-159 | replace of a present key stores, and a following get echoes the replacing line |
| Connection.SetPresentRefused | memcached/memcached.go:59-138 | set of a present key, expired or not, answers NOT_STORED and changes nothing |
| Connection.ReplaceExpiredStores | memcached/memcached.go:129-139 | replace of a key that has expired but is not yet evicted stores the new value |
| Connection.NegativeExptimeThenGet | memcached/memcached.go:67-153 | set with a negative exptime answers STORED, and a get in the same second answers END |
| WebServer.Ascii | web_server/server.go:39 | converting an ASCII header to bytes keeps its length and each character's code |
| WebServer.MatchesAt | web_server/server.go:48 | the pattern `GET\s+\/[^\s]*\s+HTTP\/1\.[01]$` matches at a line start; its meaning is in MatchSound, MatchComplete and ValidSingleLine |
| WebServer.MatchesFrom | web_server/server.go:48 | the unanchored search: some position from here on is a match; on a single line only 0 can be (NoLaterMatch) |
| WebServer.IsValidGetRequest | web_server/server.go:43-55 | `isValidGETRequest`: the search from position 0; characterised on single lines by ValidSingleLine |
| WebServer.NoLaterMatch | web_server/server.go:48 | in a text without '\n' no position after 0 starts a line, so the search can only match at 0 |
| WebServer.ValidSingleLine | web_server/server.go:43-55 | on a single line, isValidGETRequest holds iff the line is `GET`, whitespace, a path starting with '/' and free of whitespace, whitespace, and `HTTP/1.0` or `HTTP/1.1` ending the line |
| WebServer.MatchComplete | web_server/server.go:48 | such a line matches, also when further lines (a Host line) follow it |
| WebServer.PathField | web_server/server.go:80 | on such a line the fields are at least two, the first is `GET`, and the second is '/' followed by the path up to its first Unicode space: the whole path when it holds none |
| WebServer.Fields | web_server/server.go:80 | `strings.Fields`: every field is a nonempty run of characters that are not Unicode spaces; on a GET line the second field is given by PathField |
| WebServer.Route | web_server/server.go:28-34 | "/" and "/index.html" give the 200 header and index.html; every other path gives the 404 header and 404.html |
| WebServer.LoadPageData | web_server/server.go:22-40 | a response exists iff the routed page file exists, and it is the routed header's bytes followed by exactly the file's bytes |
| WebServer.HandleRequest | web_server/server.go:71-74 | a request that is not a valid GET is answered with exactly `HTTP/1.1 400 Bad Request\r\n\r\n` |
| WebServer.BadRequestIgnoresPages | web_server/server.go:71-74 | that answer does not depend on the page files: no page is loaded |
| WebServer.ServesRoutedPage | web_server/server.go:59-88 | a GET line, with or without following lines, is valid and answered with the page routed from its path field, without failing on the field lookup |
| WebServer.IndexExample | web_server/server.go:28-83 | "GET / HTTP/1.1" is answered with the 200 header followed by index.html |
| WebServer.NotFoundExample | web_server/server.go:31-83 | "GET /a HTTP/1.0" followed by a Host line is answered with the 404 header followed by 404.html |

## Left out

- `main` of both servers, the TCP listeners, and one goroutine per connection. With no concurrency there are no races on the shared map.
- Logging (`log.Printf`) and the errors of `conn.Write`, which are ignored in the source.
- Scanner mechanics. A connection is a finite sequence of lines with a clock reading per line. At the end of input the loop stops; the Go loop would keep scanning empty text, which no pattern accepts. A new `bufio.Scanner` per round is not modelled (it could drop buffered input).
- Store.Put: the expiry is kept as an int64 rather than as its decimal text. The `fmt.Sprint`/`strconv.Atoi` round trip on a 64-bit platform gives back the same value (`GoInt.FormatParses`).
- Connection.Dispatch: a missing value line at the end of input is modelled as the empty value, as `scanner.Text()` gives it.
- Strings are sequences of Unicode code points. Invalid UTF-8 and the byte-level view of Go strings are not modelled.
- WebServer.HandleRequest: no clause for valid requests. `Panicked` is the outcome for a missing page file (`check`) and for an index out of range; the second cannot happen for a single GET line (`ServesRoutedPage`).
- The optional `(?:\r?\nHost:\s+[^\s]+)?` group of the request pattern: it never changes whether the search succeeds.
- A multi-line text whose match is on a later line: the model follows the code, taking the path from the whole text's second field. The server only ever passes one scanned line.
- `load_tester` and `hello_go` are not part of this model.
- The set command behaves as the code does: a present key, even an expired one not yet evicted, makes `set` answer NOT_STORED. The code does not store unconditionally.
