# authlib HTTP helper and environment record, modelled in Dafny

This project models the request helper of Mojang's authlib (`HttpAuthenticationService`) and its
`Environment` record:

- **buildQuery** turns an ordered list of key / optional-value entries into an
  `application/x-www-form-urlencoded` query string. Keys and values go through
  `URLEncoder.encode(…, "UTF-8")`: unreserved characters (`a-z A-Z 0-9 . - * _`) stay, a space becomes
  `+`, and every other character becomes its UTF-8 bytes written as upper-case `%XY`. Entries are
  separated by `&`, and an entry with a null value is written as its bare key. The source's loop is
  modelled as an imperative method (`Query.BuildQuery`) that appends to a builder. It is proved equal to
  a fold (`Query.FormQuery`). That fold is then proved to be a join of the written entries, and a
  standard query-string parser reads it back.
- **concatenateURL** appends a query to a URL that has already been parsed into protocol, host, port,
  path, query and fragment. `&` is the separator when the URL already has a non-empty query, `?`
  otherwise. The result is rebuilt the way `new URL(protocol, host, port, file)` does it: the fragment
  is split off at the first `#`, then the query at the last `?`.
- **performPostRequest / performGetRequest** run over a fake `HttpURLConnection` (`Transport.Connection`).
  Its behaviour is a parameter standing for the server and the network: which calls throw, what each
  stream reads, and whether an error page exists. The connection logs every stream it opens and closes.
  The request methods mirror the source's try/catch/finally. They are proved to return the primary body
  if it can be read, else the error page if the server sent one, else the original exception. They are
  also proved to close every stream they open. The POST header values and the GET `Authorization`
  header are stated exactly.
- **Environment.create / asString**: an immutable five-field record. `asString` joins
  `authHost='…'`, `accountsHost='…'`, `sessionHost='…'`, `servicesHost='…'` and `name='…'` with `", "`.

Modules: `Wrappers` (Option), `Strings` (join, split, index search), `Decimal`, `Utf8`, `FormEncoding`,
`Query`, `Urls`, `Transport`, `Requests`, `Environments`.

## Behaviour worth knowing

- buildQuery appends `&` whenever the builder is non-empty, before it knows whether the entry writes
  anything. An entry with an empty key and a null value writes nothing. If such entries come first, they
  vanish. If one comes after something was written, it leaves a trailing `&` (`a=1&`) or a doubled one
  (`a=1&&b`). `Query.SilentLaterEntry` states this, and `Query.QueryRoundTrip` shows that a parser gets
  back exactly those empty entries.
- The response status code is only logged; the request methods return the body alone.
- If reading the error page throws, that `IOException` propagates, and `finally` still closes the error
  stream.

## Model

| member | source | states |
|---|---|---|
| `FormEncoding.EncodeChar` | authlib-3.11.50/com/mojang/authlib/HttpAuthenticationService.java:198 | one character encodes to itself exactly when it is unreserved; otherwise to `+` or `%XY` escapes, all drawn from the form alphabet |
| `FormEncoding.Encode` | authlib-3.11.50/com/mojang/authlib/HttpAuthenticationService.java:198 | URLEncoder output uses only unreserved characters, `+` and `%`, so it never contains `&` or `=`, and it is never shorter than the input |
| `FormEncoding.DecodeEncode` | authlib-3.11.50/com/mojang/authlib/HttpAuthenticationService.java:198 | form-decoding an encoded key or value gives it back (round trip through the UTF-8 bytes) |
| `FormEncoding.EncodedHasNoSeparators` | authlib-3.11.50/com/mojang/authlib/HttpAuthenticationService.java:198 | text drawn from the encoder's alphabet never holds `&` or `=` |
| `FormEncoding.EncodeIdentity` | authlib-3.11.50/com/mojang/authlib/HttpAuthenticationService.java:206 | a string is its own encoding exactly when all of its characters are unreserved (both directions) |
| `FormEncoding.UnescapeEncode` | authlib-3.11.50/com/mojang/authlib/HttpAuthenticationService.java:206 | the escapes of an encoded string stand for exactly the UTF-8 bytes of the original |
| `Utf8.Encode` | authlib-3.11.50/com/mojang/authlib/HttpAuthenticationService.java:68 | the UTF-8 encoding of a string has between one and four bytes per character |
| `Utf8.DecodeEncode` | authlib-3.11.50/com/mojang/authlib/HttpAuthenticationService.java:68 | a strict UTF-8 decoder reads back exactly the string whose bytes were written |
| `Query.Render` | authlib-3.11.50/com/mojang/authlib/HttpAuthenticationService.java:197-210 | an entry's text has `=` exactly when its value is non-null and never has `&`; it is empty exactly when the key is empty and the value null |
| `Query.FormQueryEmpty` | authlib-3.11.50/com/mojang/authlib/HttpAuthenticationService.java:190-213 | the builder ends empty exactly when every entry has an empty key and a null value |
| `Query.Append` | authlib-3.11.50/com/mojang/authlib/HttpAuthenticationService.java:193-210 | one loop turn only appends to the builder, and a non-empty builder is followed by `&` before the entry's text |
| `Query.AppendEmpty` | authlib-3.11.50/com/mojang/authlib/HttpAuthenticationService.java:193-210 | one loop turn leaves the builder empty exactly when it was empty and the entry writes nothing |
| `Query.BuildQuery` | authlib-3.11.50/com/mojang/authlib/HttpAuthenticationService.java:186-214 | the loop that appends `&`, the encoded key and `=` plus the encoded value returns "" for a null map and otherwise the fold over the entries in order |
| `Query.Written` | authlib-3.11.50/com/mojang/authlib/HttpAuthenticationService.java:192-195 | the entries that appear in the output are empty exactly when all entries are silent, and the first of them is never silent |
| `Query.WrittenDropsLeadingSilent` | authlib-3.11.50/com/mojang/authlib/HttpAuthenticationService.java:192-195 | the written entries are the entries after a leading run of silent ones; with `Written`'s contract, that run is the longest one |
| `Query.FormQueryIsJoin` | authlib-3.11.50/com/mojang/authlib/HttpAuthenticationService.java:192-211 | the output is the texts of the written entries joined with `&` |
| `Query.ParseRender` | authlib-3.11.50/com/mojang/authlib/HttpAuthenticationService.java:197-210 | splitting one entry's text at its first `=` and form-decoding gives back the entry, key-only entries included |
| `Query.QueryRoundTrip` | authlib-3.11.50/com/mojang/authlib/HttpAuthenticationService.java:186-214 | splitting the output on `&` and parsing each piece gives back the entries in order, minus the silent ones met while the builder was still empty |
| `Query.FormQuery` | authlib-3.11.50/com/mojang/authlib/HttpAuthenticationService.java:190-211 | the builder after the loop over the entries never starts with `&`, whatever the entries |
| `Query.WellSeparated` | authlib-3.11.50/com/mojang/authlib/HttpAuthenticationService.java:193-195 | with no silent entries, a single `&` separates neighbours: none at either end and never two in a row |
| `Query.SilentFirstEntry` | authlib-3.11.50/com/mojang/authlib/HttpAuthenticationService.java:193-198 | a silent entry met while the builder is still empty adds nothing, and the next entry gets no `&` |
| `Query.SilentLaterEntry` | authlib-3.11.50/com/mojang/authlib/HttpAuthenticationService.java:193-198 | a silent entry met once the builder holds something leaves a trailing `&`, or a doubled `&` before the next entry |
| `Query.TwoEntries` | authlib-3.11.50/com/mojang/authlib/HttpAuthenticationService.java:192-211 | two entries, the first one written, give the two texts with one `&` between them |
| `Query.TwoEntryExample` | authlib-3.11.50/com/mojang/authlib/HttpAuthenticationService.java:186-214 | `a -> "1"`, `b -> null` gives `a=1&b` |
| `Strings.SplitJoin` | authlib-3.11.50/com/mojang/authlib/HttpAuthenticationService.java:193-195 | splitting on a separator undoes joining with it when no item contains it |
| `Strings.JoinAt` | authlib-3.11.50/com/mojang/authlib/Environment.java:49-55 | in a StringJoiner result each item stands at its offset after the earlier items and separators, and the last item ends the result |
| `Urls.File` | authlib-3.11.50/com/mojang/authlib/HttpAuthenticationService.java:226 | getFile() of a URL never contains the fragment |
| `Urls.FromParts` | authlib-3.11.50/com/mojang/authlib/HttpAuthenticationService.java:226-228 | the rebuilt URL keeps protocol, host and port, is well formed, and for a file without `#` has exactly that file and no fragment |
| `Urls.Separator` | authlib-3.11.50/com/mojang/authlib/HttpAuthenticationService.java:225 | the separator is `&` exactly when the URL's query is non-null and non-empty, and `?` otherwise |
| `Urls.SplitQuery` | authlib-3.11.50/com/mojang/authlib/HttpAuthenticationService.java:226-228 | path, `?` and query put back together give the file again; the query never holds `?` and neither part holds `#` if the file does not |
| `Urls.SplitQueryAt` | authlib-3.11.50/com/mojang/authlib/HttpAuthenticationService.java:228 | a file whose last `?` comes after the path splits there into that path and query |
| `Urls.FromPartsWithQuery` | authlib-3.11.50/com/mojang/authlib/HttpAuthenticationService.java:226-228 | a path, `?` and a query without `?` or `#` rebuild into exactly that path and query, with no fragment |
| `Urls.ConcatenateUrl` | authlib-3.11.50/com/mojang/authlib/HttpAuthenticationService.java:223-233 | protocol, host and port are kept; the new file is the old file, the separator and the query; the fragment is dropped |
| `Urls.ConcatenateWithoutQuery` | authlib-3.11.50/com/mojang/authlib/HttpAuthenticationService.java:228 | a URL without a query keeps its path and gets the query as its own |
| `Urls.ConcatenateWithQuery` | authlib-3.11.50/com/mojang/authlib/HttpAuthenticationService.java:225-226 | a URL with a non-empty query keeps its path and gets `old&new` as its query |
| `Urls.ConcatenateEmptyQuery` | authlib-3.11.50/com/mojang/authlib/HttpAuthenticationService.java:225-228 | a URL ending in an empty `?` gets a second `?`, which moves the first one into the path |
| `Decimal.ValueToDecimal` | authlib-3.11.50/com/mojang/authlib/HttpAuthenticationService.java:71 | the decimal text of a number reads back as that number |
| `Decimal.ToDecimal` | authlib-3.11.50/com/mojang/authlib/HttpAuthenticationService.java:71 | `"" + n` for a non-negative count is a non-empty run of decimal digits with no leading zero unless the count is 0 |
| `Transport.Connection.SetConnectTimeout` | authlib-3.11.50/com/mojang/authlib/HttpAuthenticationService.java:44 | the connect timeout becomes the given value, and nothing else changes |
| `Transport.Connection.SetReadTimeout` | authlib-3.11.50/com/mojang/authlib/HttpAuthenticationService.java:45 | the read timeout becomes the given value, and nothing else changes |
| `Transport.Connection.SetUseCaches` | authlib-3.11.50/com/mojang/authlib/HttpAuthenticationService.java:46 | the use-caches flag becomes the given value, and nothing else changes |
| `Transport.Connection.SetDoOutput` | authlib-3.11.50/com/mojang/authlib/HttpAuthenticationService.java:72 | the do-output flag becomes the given value, and nothing else changes |
| `Transport.Connection.SetRequestProperty` | authlib-3.11.50/com/mojang/authlib/HttpAuthenticationService.java:70-71 | a request property is set to the value, replacing any earlier one |
| `Transport.Connection.GetOutputStream` | authlib-3.11.50/com/mojang/authlib/HttpAuthenticationService.java:78 | opens the request body stream or throws |
| `Transport.Connection.Write` | authlib-3.11.50/com/mojang/authlib/HttpAuthenticationService.java:79 | writes the whole body to the open request stream, or throws and sends nothing |
| `Transport.Connection.GetInputStream` | authlib-3.11.50/com/mojang/authlib/HttpAuthenticationService.java:88 | opens the response body stream or throws |
| `Transport.Connection.GetErrorStream` | authlib-3.11.50/com/mojang/authlib/HttpAuthenticationService.java:95 | opens the error page stream, or gives null when there is none |
| `Transport.Connection.ReadAll` | authlib-3.11.50/com/mojang/authlib/HttpAuthenticationService.java:89 | reads an open response or error stream to a string, or throws |
| `Transport.Connection.CloseQuietly` | authlib-3.11.50/com/mojang/authlib/HttpAuthenticationService.java:81 | closes the stream, and does nothing for null |
| `Requests.ContentType` | authlib-3.11.50/com/mojang/authlib/HttpAuthenticationService.java:70 | Content-Type is the given content type followed by `; charset=utf-8` |
| `Requests.ContentLength` | authlib-3.11.50/com/mojang/authlib/HttpAuthenticationService.java:71 | Content-Length is written in decimal digits |
| `Requests.ContentLengthValue` | authlib-3.11.50/com/mojang/authlib/HttpAuthenticationService.java:68-71 | Content-Length reads back as the number of UTF-8 bytes of the body, between one and four per character |
| `Requests.ResponseRule` | authlib-3.11.50/com/mojang/authlib/HttpAuthenticationService.java:86-109 | a response succeeds exactly when the primary body or the error page can be read, and then its text is that body; with no error page the original exception is rethrown, never an empty success |
| `Requests.PostReadsLikeGet` | authlib-3.11.50/com/mojang/authlib/HttpAuthenticationService.java:86-109 | once the request body is written, POST reads the response exactly as GET does |
| `Requests.ResponseClosesAll` | authlib-3.11.50/com/mojang/authlib/HttpAuthenticationService.java:138-161 | reading a response leaves no stream open, and opens only closed streams and closes only open ones |
| `Requests.PostClosesAll` | authlib-3.11.50/com/mojang/authlib/HttpAuthenticationService.java:76-109 | a POST leaves no stream open, on every path |
| `Requests.ErrorPageFetchedAfterClose` | authlib-3.11.50/com/mojang/authlib/HttpAuthenticationService.java:145-147 | when the error page is fetched no other stream is open: the failed response stream was closed first |
| `Requests.CreateUrlConnection` | authlib-3.11.50/com/mojang/authlib/HttpAuthenticationService.java:40-48 | the new connection has 15000 ms connect and read timeouts and caching off |
| `Requests.ReadResponse` | authlib-3.11.50/com/mojang/authlib/HttpAuthenticationService.java:138-161 | the try/catch/finally returns the response outcome, and opens and closes streams in the order `ResponseEvents` lists them |
| `Requests.WriteRequestBody` | authlib-3.11.50/com/mojang/authlib/HttpAuthenticationService.java:76-82 | the try/finally that writes the body fails exactly with the write's exception, sends the bytes only on success, and closes the output stream it opened |
| `Requests.PerformPostRequest` | authlib-3.11.50/com/mojang/authlib/HttpAuthenticationService.java:63-110 | POST sets exactly Content-Type and Content-Length, sends the UTF-8 body, returns the write's exception or the response outcome, and leaves no stream open |
| `Requests.PerformGetRequest` | authlib-3.11.50/com/mojang/authlib/HttpAuthenticationService.java:128-162 | GET sets Authorization only when it is given, returns the response outcome, sends nothing, and leaves no stream open |
| `Requests.PerformGetRequestWithoutAuthentication` | authlib-3.11.50/com/mojang/authlib/HttpAuthenticationService.java:112-114 | the one-argument GET sets no request property, sends nothing, keeps doOutput off, uses GET's timeouts and caching, and returns GET's outcome and event log with no stream left open |
| `Environments.Create` | authlib-3.11.50/com/mojang/authlib/Environment.java:19-45 | each accessor returns the matching argument of create |
| `Environments.AsStringItems` | authlib-3.11.50/com/mojang/authlib/Environment.java:49-55 | the five `field='value'` items appear in fixed order, each quoting the matching accessor's result |
| `Environments.AsString` | authlib-3.11.50/com/mojang/authlib/Environment.java:48-56 | asString starts with `authHost='` and the auth host, ends with `'`, and is 70 characters longer than the five values |
| `Environments.CreateDeterministic` | authlib-3.11.50/com/mojang/authlib/Environment.java:19-57 | environments created from equal arguments agree on every accessor and on asString |

## Left out

- Opening a real connection through the proxy (HttpAuthenticationService.java:40-48) is network I/O. The `Transport.Behaviour` parameter stands for the server, and the proxy is not modelled.
- The proxy field, its getter and the constructor (HttpAuthenticationService.java:24-38) only store a value. `BaseAuthenticationService` is not part of this model.
- `constantURL` and the `MalformedURLException` branch of `concatenateURL` are thin wrappers over `java.net.URL` parsing. URLs are modelled as already split into fields.
- `Urls.FromParts` does not model the checks of `new URL(protocol, host, port, file)`: an unknown protocol, a port below -1, and bracketing an IPv6 host. Nor does it lower-case the protocol; the protocol it is given comes from `getProtocol()` of a parsed URL, which is already lower case.
- Logging and the `UnsupportedEncodingException` branches are left out, because UTF-8 is always supported. Encoding is total.
- The response status code is only logged by the source, so it is not modelled.
- `IOUtils` copying is reduced to one read or write event that succeeds or throws. A write that fails part-way is modelled as sending nothing.
- `Validate.notNull` checks are left out: every parameter is non-null by type. A null key in the query map is also not modelled; the source would throw a NullPointerException.
- Java's `HashMap` iteration order is replaced by an explicit sequence of entries. Values are strings rather than the result of `Object.toString()`.
- Dafny characters are Unicode scalar values. Java strings with unpaired surrogates cannot be written here. Java would encode those as `?`.
- Null strings given to `Environment.create` are not modelled. Java would print them as `null`.
- Timeouts are modelled only as the configured values. A timeout that expires is one of the `IoError`s the behaviour may throw.
- `FormEncoding.Decode` is a strict decoder used only as the partner of the encoder. It rejects malformed UTF-8 where `URLDecoder` would substitute U+FFFD.
- `Requests.PerformPostRequest` and `Requests.PerformGetRequest` also return the connection, so that their contracts can speak about its final state. The source keeps the connection local.
