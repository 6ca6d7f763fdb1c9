# php-curl: the `Curl` class, modelled in Dafny

`PhpCurl\Curl` (`curl.php`) is a thin client over PHP's cURL extension. It
holds one libcurl easy handle and an optional share handle for cookies, DNS
and TLS sessions. It keeps a store of request headers, and it turns the raw
response buffer into an `info` / `head` / `body` envelope. This project
models three parts of that class:

- **The request-header store** (`setHeader`, `getHeader`, `headers`,
  `clearHeaders`). It is the class `PhpCurl.Curl` with a
  `map<string, string>` field. `Php.Empty` is PHP's `empty()` on a nullable
  string (`null`, `""` and `"0"`). The store keeps the invariant that no key
  holds an empty value. `PhpCurl.Put` is the pure effect of one `setHeader`
  call.
- **Response-head parsing** (`processResponseHeaders` and `send` from the
  error check on). These are pure functions in module `CurlResponse`, built
  on the PHP library functions in module `Php`: `trim`, `ucwords`,
  `mb_substr`, `mb_split` with a literal pattern, and `array_filter`.
- **The handle lifecycle** (`__construct`, `initialize`, `close`). Handles
  are opaque objects (`ShareHandle`, `TransportHandle`). A ghost log of
  events (`Opened`, `Closed`, `ShareOpened`, `ShareClosed`) records what
  libcurl was asked to create and release. The invariant `Curl.Valid()`
  states three things:
  - at most one share handle is ever created, and it is the one held;
  - every transport handle created and not yet passed to `curl_close` is
    the one held;
  - the header store holds no empty value.

In these details the model follows what the code does:

- `ucwords(…, '-')` is applied to the header **name**, the part paired with
  `1` from `range(1, 2)`. It is not applied to the value.
- The pattern `:|\s` cuts a line at **one** character: the first colon or
  whitespace character. It does not cut at a run of them. The rest is
  trimmed.
- A line with no such character is one part. `array_map` pads the missing
  second part with `null`, and `trim(null)` is `""`, so the line's value
  is `""`.
- A buffer with no blank line gives a `null` body (`Body.source == None`).
- Because the buffer is cut at the **first** blank line, the header blocks
  of redirected responses (with `FOLLOWLOCATION` on) end up in the body.
- `close()` on an object whose transport handle was never set reads an
  uninitialised typed property, and PHP throws. `Curl.Close` then returns
  `ok == false` and closes nothing.

## Model

| member | source | states |
|---|---|---|
| Php.Empty | curl.php:97-108 | PHP's `empty()` on a nullable string: true exactly for `null`, `""` and `"0"`. It is a definition; what rests on it is stated by `PhpCurl.Put`, `Php.ArrayFilter`, `PhpCurl.Curl.GetHeader` and `CurlResponse.IsJsonContent` |
| Php.Trim | curl.php:132 | `trim()` is `ltrim()` then `rtrim()`: the result is no longer than the input and neither starts nor ends with a trim character; its exact shape is stated by `Php.TrimShape` and `Php.TrimPadded` |
| Php.TrimStart | curl.php:132 | the result is a suffix of the input, everything removed is in trim's character set (space, `\t`, `\n`, `\r`, `\0`, `\x0B`), and the result does not start with such a character |
| Php.TrimEnd | curl.php:132 | the result is a prefix of the input, everything removed is a trim character, and the result does not end with one |
| Php.TrimShape | curl.php:132 | `trim($s)` is an infix of `$s` with only trim characters around it, and it neither starts nor ends with one |
| Php.TrimPadded | curl.php:132 | trimming a string padded on both sides with trim characters gives back the string, when it neither starts nor ends with one |
| Php.TrimIdempotent | curl.php:132 | trimming twice is trimming once |
| Php.Upper | curl.php:134 | ASCII `a`-`z` map to `A`-`Z` (code minus 32); every other character is unchanged; the result is never a lower-case letter |
| Php.UcWords | curl.php:134 | `ucwords($s, '-')` keeps the length; the character at position `i` is upper-cased exactly when `i` is 0 or follows the delimiter, and is otherwise unchanged |
| Php.UcWordsIdempotent | curl.php:134 | title-casing twice is title-casing once, for a delimiter that is not a letter |
| Php.UcWordsNoDelimiter | curl.php:134 | without the delimiter only the first character is upper-cased |
| Php.UcWordsJoin | curl.php:134 | title-casing `a-b` is title-casing `a` and `b` separately, joined by the delimiter |
| Php.Prefix | curl.php:170 | `mb_substr($s, 0, n)` is the first `min(n, len)` characters of `$s` |
| Php.FindFrom | curl.php:166 | the result, if any, is an occurrence of the pattern at or after `from`, and no earlier occurrence from `from` on exists |
| Php.SplitOnce | curl.php:166 | `mb_split($pat, $s, 2)`: without an occurrence the string is one part and the second is null; otherwise `first + pat + rest == s`, and `first` is cut at the leftmost occurrence |
| Php.SplitOnceAt | curl.php:166 | the split of `a + pat + b` is `(a, b)` when no occurrence of `pat` starts before the end of `a` |
| Php.Explode | curl.php:138 | `mb_split('\r\n', $s)`: at least one part; the parts joined by the separator give back `$s`; no part contains the separator |
| Php.ExplodeAt | curl.php:138 | splitting `a + pat + b` is `[a]` followed by the split of `b`, when no occurrence of `pat` starts before the end of `a` |
| Php.ExplodeWhole | curl.php:138 | a string without the separator's first character is a single part |
| Php.ArrayFilter | curl.php:116 | `array_filter` keeps exactly the entries whose value is not empty, unchanged |
| CurlResponse.FirstBreak | curl.php:137 | the position of the first colon or whitespace character of the line, or its length when there is none |
| CurlResponse.SplitField | curl.php:137 | the name part has no colon or whitespace; without one the line is all name and the value is null; otherwise `line == name + [break] + value` with the break at the first such position |
| CurlResponse.ParseLine | curl.php:130-137 | the closure mapped over the head lines: the line cut by `SplitField`, both parts trimmed, the name title-cased over `-`, a missing value `""`. What it yields is stated by `CurlResponse.ParseFieldLine`, `CurlResponse.ParseColonLine` and `CurlResponse.ParseStatusLine` |
| CurlResponse.ParseFieldLine | curl.php:130-137 | a line `name SEP OWS value OWS` parses to the title-cased name and the value, whatever separator character and padding it has |
| CurlResponse.ParseColonLine | curl.php:130-137 | `name: value` parses to `(ucwords(name, '-'), value)` |
| CurlResponse.ParseStatusLine | curl.php:130-137 | the status line `HTTP/1.1 <reason>` parses to the name `HTTP/1.1` and the value `<reason>`, since it is cut at its first space |
| CurlResponse.Combine | curl.php:140 | `array_combine` of the name column and the value column; its keys are stated by `CurlResponse.CombineKeys` and its values by `CurlResponse.CombineLastWins` |
| CurlResponse.CombineKeys | curl.php:140 | `array_combine` of the names and values: a key is present exactly when some line has that name |
| CurlResponse.CombineLastWins | curl.php:140 | the value of a name is the value of the last line with that name |
| CurlResponse.ProcessResponseHeaders | curl.php:128-142 | `processResponseHeaders()`: the head split at every CRLF, each line parsed, the results combined. Its result is pinned down by `CurlResponse.HeadKeyFromLine`, `CurlResponse.HeadKeyOfLine` and `CurlResponse.HeadEntries` |
| CurlResponse.HeadKeyFromLine | curl.php:128-142 | every key of the parsed head is the name parsed from one of the CRLF-separated lines |
| CurlResponse.HeadKeyOfLine | curl.php:128-142 | the name parsed from every line of the head is a key of the result |
| CurlResponse.HeadEntries | curl.php:128-142 | the line that is last with its name supplies the value stored for that name |
| CurlResponse.SingleLineHead | curl.php:128-142 | a head of one line without a carriage return is the single entry that line parses to |
| CurlResponse.TwoLineHead | curl.php:128-142 | a head of two lines without carriage returns is their two entries, and the second wins when both have the same name |
| CurlResponse.StatusLineEntry | curl.php:128-142 | the head `HTTP/1.1 <reason>` is the one entry `HTTP/1.1 => <reason>` |
| CurlResponse.ContentTypeHead | curl.php:128-142 | the head `content-type: <v>` is the one entry `Content-Type => <v>` |
| CurlResponse.IsJsonContent | curl.php:170 | the body is JSON exactly when `Content-Type` is present and its first 16 characters are `application/json` |
| CurlResponse.Respond | curl.php:151-178 | a non-zero error number gives an error carrying that number and message, and nothing else. Otherwise the info is passed through, the head is the parsed part before the first blank line, the body is the part after it (null without one), and the body is JSON-decoded exactly when the head says JSON |
| CurlResponse.ContentTypeResponse | curl.php:151-178 | a successful transfer whose head is one `content-type: <v>` line gives the head `Content-Type => <v>` and the text after the first blank line as body, JSON exactly when `<v>` starts with `application/json` |
| CurlResponse.JsonResponse | curl.php:151-178 | a successful transfer with `content-type: application/json` gives the head `Content-Type => application/json` and a JSON body holding the text after the blank line |
| CurlResponse.HtmlResponse | curl.php:151-178 | a successful transfer with `content-type: text/html` gives a text body |
| PhpCurl.Lookup | curl.php:98-112 | `$this->headers[$key]`: the stored value, or `null` when the key is absent; the frame clause of `PhpCurl.Put` and the contract of `PhpCurl.Curl.GetHeader` are stated with it |
| PhpCurl.Hardened | curl.php:57-83 | the option values `initialize()` sets: cookie jar `cookie_jar.txt` and no forbid-reuse only when sharing; HTTP and HTTPS allowed, HTTPS only for redirects; `CURLOPT_DEFAULT_PROTOCOL` set to the constant `CURLPROTO_HTTPS`; fail on error; TCP fast open; connect timeout 10; TLS up to the default maximum; no status check; peer verified; false start; shuffled DNS addresses; redirects followed, at most 20, with auto-referer; head included; transfer returned; timeout 25. `PhpCurl.Curl.Initialize` states that the new handle carries exactly these |
| PhpCurl.Curl.Valid | curl.php:25-29 | the object invariant: no stored header value is empty, at most one share handle was ever created and it is the one held, and only the held transport handle is created and not yet passed to `curl_close`. Every state-changing method of `Curl` requires and keeps it; `GetHeader` and `Headers` state their exact result under it |
| PhpCurl.Put | curl.php:96-105 | a non-empty value is stored at its key. An empty value removes the key when it holds a value and changes nothing otherwise. No other key changes, and a store without empty values stays without them |
| PhpCurl.InitializeShares | curl.php:42-48 | the log `initialize()` leaves creates a share handle only when none was held, so at most one is ever created, and it is the one held |
| PhpCurl.InitializeLive | curl.php:50-54 | after releasing the held handle and creating a new one, exactly the new handle is live |
| PhpCurl.Curl.constructor | curl.php:31-38 | the handles given are adopted, the store is empty, and nothing was created |
| PhpCurl.Curl.Initialize | curl.php:40-87 | the share handle is created only when sharing is asked for and none is held, and a held one is reused. The held transport handle is released before a fresh one is created. The new handle is bound to the share handle exactly when sharing, and it is configured with the hardened options (`Hardened`), including cookie jar and no-forbid-reuse only when sharing. The headers are unchanged, the log grows by exactly these events, and `Valid()` is kept |
| PhpCurl.Curl.SetHeader | curl.php:96-105 | the store becomes `Put(old store, key, value)`; afterwards `getHeader(key, f)` is the value when it is non-empty and `f` otherwise; `Valid()` is kept |
| PhpCurl.Curl.GetHeader | curl.php:107-113 | the result is the fallback or a non-empty stored value; under the invariant it is the stored value exactly when the key is present |
| PhpCurl.Curl.Headers | curl.php:115-117 | the result holds no empty value, and under the invariant it is the store itself |
| PhpCurl.Curl.ClearHeaders | curl.php:119-122 | the store is empty and `Valid()` is kept |
| PhpCurl.Curl.Close | curl.php:202-207 | it succeeds exactly when a transport handle is held. It records `curl_close` on that handle and then `curl_share_close` on the share handle, if one is held. Both fields stay as they were, and afterwards no transport handle is live |
| PhpCurl.InitializeTwice | curl.php:40-87 | `initialize(true)` twice creates one share handle and two transport handles, and the first is released before the second is created |
| PhpCurl.HeaderRoundTrip | curl.php:96-122 | `setHeader('X', '1')` then `getHeader('X')` gives `'1'`; `setHeader('X', null)` then `getHeader('X', 'd')` gives `'d'`; `clearHeaders()` leaves `headers()` empty |

## Left out

- `basicAuth`, `get`, `post` and `postJSON` set transfer options and encode the body (`http_build_query`, `json_encode`) before calling `send`. The options mean nothing to the model, and the codecs are outside it. `postJSON` also calls `setHeader('Content-Type', 'application/json')` (curl.php:197), whose effect on the store is `PhpCurl.Curl.SetHeader`.
- `curl_exec` and `curl_getinfo` are libcurl I/O. Their results are the parameter `Transfer` of `Respond`: the error number and message, the raw buffer and the metadata `Info`. The float `time` is carried as an opaque `real`.
- `json_decode` is not modelled. `Body.Json` marks the text that would be decoded.
- Attaching the request headers to the transfer (curl.php:146) is not modelled. It sets `CURLOPT_HEADER`, the include-head flag, rather than the request-header list, so the stored headers are evidently never sent. What libcurl does with that value is outside the model.
- `PhpCurl.Hardened`: `Settings.defaultProtocol` records the constant `CURLPROTO_HTTPS` passed at curl.php:65, not its effect. That constant is a protocol bit mask (the integer 2), while libcurl expects a scheme name such as `"https"` for `CURLOPT_DEFAULT_PROTOCOL`; PHP would hand it the string `"2"`, so a URL without a scheme evidently does not default to HTTPS. What libcurl does with the value is outside the model.
- `curl_share_setopt` (what the share handle shares) and the meaning of every `curl_setopt` option are not modelled. `Settings` only records the values set.
- The cookie jar's directory (`__DIR__`) is left out. `Settings.cookieJar` holds the file name only.
- `__destruct` runs `close()` when the last reference to the object goes, or at the end of the script. When that happens is not modelled; what it does is `Close`.
- `Curl.Close` is modelled as returning `ok == false` where PHP throws an `Error`, for an object whose transport handle was never set.
- The events `Closed` and `ShareClosed` record the calls to `curl_close` and `curl_share_close` (curl.php:51, 203, 205), not their effect. From PHP 8.0, which the code needs (`CurlHandle`, `mixed`, `string|array`), these calls do nothing, and libcurl frees a handle when its last PHP reference goes. `Live` therefore means "created and not yet passed to `curl_close`".
- The whitespace class `\s` is taken as the ASCII characters space, `\t`, `\n`, `\v`, `\f` and `\r`. Multibyte encodings and non-ASCII whitespace in `mb_split` are not modelled. `ucwords` upper-cases ASCII letters only, as PHP does.
- `array_combine` turns integer-like string keys (`"200"`) into integer keys. The model keeps every key a string.
- `PhpCurl.Curl.GetHeader`: the fallback is `mixed` in PHP; it is modelled as a nullable string (`Option<string>`).
- PHP warnings and deprecation notices, such as the undefined index when the buffer has no blank line or `trim(null)`, are not modelled. Only the values that follow from them are.
