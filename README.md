# A verified model of a minimal PHP OAuth2 client

This project models `OAuth.php`, a small OAuth2 client class. The model
covers three things:

- **Constructor.** It stores a client id, an authorization endpoint and an
  access-token endpoint.
- **`authorize`.** It merges the fixed parameters `response_type=code` and
  `client_id=<id>` with the caller's array using `array_merge`. It then
  appends one `key=urlencode(value)&` segment per parameter to `?`,
  prefixes the endpoint, and either returns the URL or emits a
  `Location: <url>` header.
- **`accessToken`.** It merges `grant_type=authorization_code` and
  `code=<code>` with the caller's array and posts them to the access
  endpoint.

The PHP library functions the class relies on are modelled too:

- `array_merge` on arrays with string keys;
- `urlencode`, with `urldecode` as its partner.

The model is organised as follows:

- `php_strings.dfy`: PHP byte strings (`seq` of characters below 256) and `Option`.
- `php_arrays.dfy`: PHP arrays with string keys, modelled as ordered
  key/value lists with distinct keys.
  - `IsArray` also rules out every key PHP would store as an integer. Those
    keys are `0`, or an optional `-` followed by digits without a leading
    zero, within the 64-bit range.
  - `Put` models the assignment `$a[$k] = $v`.
  - `ArrayMerge` models `array_merge` as a fold of `Put` over the second
    array.
  - `MergeSpec` is an independent reference definition of the merge: the
    first array's keys in place, with the second array winning on a shared
    key, followed by the second array's new entries in order.
- `url_encoding.dfy`: PHP's `urlencode`. It is close to the form encoding
  of section 17.13.4.1 of HTML 4.01, except that it keeps `-_.` and does not
  normalise line breaks. Its escapes are the percent-encoding of section 2.1
  of RFC 3986, with upper-case hex digits.
  - `A-Z a-z 0-9 - _ .` are kept.
  - A space becomes `+`.
  - Every other byte becomes `%XX`.
  - `urldecode` follows PHP: `+` becomes a space, `%` followed by two hex
    digits of either case becomes that byte, and everything else is copied.
- `query_strings.dfy`: the query string `authorize` builds. `FormDecode`, a
  form decoder, is its partner and reads the string back.
- `oauth.dfy`: the `OAuth` class.
  - Its three fields are immutable `const`s set by the constructor.
  - `Authorize` keeps the source's `foreach` as a `while` loop whose
    invariant says the accumulated string is `?` followed by the segments
    of the parameters seen so far.
  - `AccessToken` returns the request it hands to the transport.

The code appends `&` after every parameter, the last one included, and the
model keeps that trailing `&`. A form decoder skips the empty piece it
leaves, so `QueryBodyRoundTrip` shows the parameters still read back.

The token request carries only `grant_type`, `code` and the caller's
parameters. No `redirect_uri`, `scope` or `client_secret` is added.
Transport failures are not reported.

Keys are written without encoding; only values pass through `urlencode`.
`VerbatimKeyIsSplit` shows the consequence: a key containing `&` reads back
as two parameters.

## Model

| member | source | states |
|---|---|---|
| PhpArrays.IntegerKeyExamples | OAuth.php:47 | The keys `0`, `5`, `-3` and `42` are integer keys. The keys `05`, `-0`, `5a` and the empty key are string keys. |
| PhpArrays.Put | OAuth.php:47 | Assigning an existing key replaces the value at that key's position. A new key is appended at the end. |
| PhpArrays.ArrayMerge | OAuth.php:47 | Definition of `array_merge` on string keys: starting from the first array, assign each entry of the second in order. Its properties are stated by `ArrayMergeIsMergeSpec`, `MergeKeys`, `MergeGet` and `MergeOrder`. |
| PhpArrays.ArrayMergeIsMergeSpec | OAuth.php:47 | `array_merge` (the fold of assignments) equals the reference merge: the first array's entries in place, taking the second array's value on a shared key, then the second array's other entries in order. |
| PhpArrays.MergeKeys | OAuth.php:47 | The merge has no repeated key. A key occurs in it exactly when it occurs in either input. |
| PhpArrays.MergeGet | OAuth.php:47 | Looking up a key in the merge gives the second array's value when it has the key, and otherwise the first array's value. |
| PhpArrays.MergeOrder | OAuth.php:47 | The merge starts with the first array's keys in their order. Its remaining entries are exactly the second array's entries whose keys the first lacks, in order. |
| UrlEncoding.UrlEncode | OAuth.php:52 | The encoding is at least as long as the input and at most three times as long. |
| UrlEncoding.UrlDecode | OAuth.php:52 | Decoding never lengthens a string. |
| UrlEncoding.DecodeEncode | OAuth.php:52 | `urldecode(urlencode(s)) == s` for every byte string. |
| UrlEncoding.EncodeIsUrlEncoded | OAuth.php:52 | Every output of `urlencode` is in canonical form: unreserved bytes, `+`, and upper-case `%XX` escapes of bytes that needed escaping. |
| UrlEncoding.EncodeDecode | OAuth.php:52 | `urlencode(urldecode(e)) == e` for every canonical encoded string. |
| UrlEncoding.UrlEncodedAlphabet | OAuth.php:52 | Encoded output contains only `A-Z a-z 0-9 - _ .`, `+` and `%`, so never `&` or `=`. |
| UrlEncoding.EncodeIdentity | OAuth.php:52 | `urlencode` leaves a string unchanged if and only if every byte is in `A-Z a-z 0-9 - _ .`. |
| UrlEncoding.EncodeInjective | OAuth.php:52 | Distinct values have distinct encodings. |
| QueryStrings.Field | OAuth.php:52 | Definition of one loop iteration's text: the key verbatim, `=`, the urlencoded value, `&`. `QueryStringSnoc` and `FieldDecodes` state its properties. |
| QueryStrings.QueryBody | OAuth.php:50-53 | Definition of the concatenated segments of all parameters in order. `QueryBodyEndsWithSeparator`, `QueryBodyAppend`, `QueryBodyAt` and `QueryBodyRoundTrip` state its properties. |
| QueryStrings.QueryString | OAuth.php:50-53 | Definition of `$paramsString` after the loop: `?` followed by the segments. `QueryStringSnoc` and the loop invariant of `OAuth.Authorize` state its properties. |
| QueryStrings.QueryBodyEndsWithSeparator | OAuth.php:50-53 | The accumulated segments are empty exactly when there are no parameters. Otherwise they end with `&`. |
| QueryStrings.QueryBodyAppend | OAuth.php:51-53 | The segments of two parameter lists joined equal the segments of each list, concatenated. |
| QueryStrings.QueryStringSnoc | OAuth.php:52 | One more loop iteration appends exactly that parameter's `key=urlencode(value)&` segment. |
| QueryStrings.QueryBodyAt | OAuth.php:51-53 | Each parameter's segment sits directly after the segments of the parameters before it, with no other separator. |
| QueryStrings.FieldDecodes | OAuth.php:52 | A segment whose key has no `&`, `=`, `%` or `+` decodes to its key and original value, and decoding continues after it. |
| QueryStrings.QueryBodyRoundTrip | OAuth.php:50-53 | The form decoder reads the segments back as the exact parameter list, in order, whenever every key is plain. |
| QueryStrings.VerbatimKeyIsSplit | OAuth.php:52 | Keys are not encoded. Parameter `a&b` = `1` is written as `a&b=1&` and reads back as two parameters, `a` (empty) and `b` = `1`. |
| OAuthClient.MergeTwo | OAuth.php:43-47 | Definition of `array_merge` of a two-entry literal array with the caller's array. `MergeTwoLayout` states its layout. |
| OAuthClient.AuthorizeParams | OAuth.php:43-47 | Definition of authorize's `$params`: `response_type => code` and `client_id` merged with the caller's array. `AuthorizeParamsLayout` and `AuthorizeDefaultsLead` state its properties. |
| OAuthClient.TokenParams | OAuth.php:72-76 | Definition of accessToken's `$params`: `grant_type => authorization_code` and `code` merged with the caller's array. `TokenParamsLayout` and `TokenDefaultsLead` state its properties. |
| OAuthClient.AuthorizeUri | OAuth.php:55 | Definition of `$authorizeUri`: the endpoint followed by the query string of authorize's parameters. `AuthorizeUriShape`, `AuthorizeQueryRoundTrip` and `DefaultAuthorizeUri` state its properties. |
| OAuthClient.MergeTwoLayout | OAuth.php:43-47 | Merging two distinct fixed keys with the caller's array yields no repeated key. The fixed keys come first, each taking the caller's value if present, followed by the caller's other entries in order. |
| OAuthClient.AuthorizeParamsLayout | OAuth.php:43-47 | `response_type`, then `client_id`, lead authorize's parameters. Each takes the caller's value when supplied and otherwise `code` or the client id. The caller's other parameters follow in order. |
| OAuthClient.AuthorizeDefaultsLead | OAuth.php:43-47 | When the caller supplies neither fixed key, the parameters are the two defaults followed by the caller's array unchanged. |
| OAuthClient.TokenParamsLayout | OAuth.php:72-76 | `grant_type`, then `code`, lead the token parameters. Each takes the caller's value when supplied and otherwise `authorization_code` or the code. The caller's other parameters follow in order. |
| OAuthClient.TokenDefaultsLead | OAuth.php:72-76 | When the caller supplies neither fixed key, the token parameters are the two defaults followed by the caller's array unchanged. |
| OAuthClient.AuthorizeUriShape | OAuth.php:50-55 | The URL is the endpoint, then `?`, then the parameter segments. It is longer than the endpoint plus `?` and ends with `&`. |
| OAuthClient.AuthorizeKeysPlain | OAuth.php:43-47 | The merged parameters have only plain keys when the caller's keys are plain. |
| OAuthClient.AuthorizeQueryRoundTrip | OAuth.php:43-55 | With plain caller keys, decoding the URL's query gives back exactly the merged parameters. |
| OAuthClient.DefaultAuthorizeUri | OAuth.php:43-55 | With neither fixed key overridden, the URL is the endpoint, `?`, `response_type=code&`, the `client_id` segment, then the caller's segments in order. |
| OAuthClient.OAuth.constructor | OAuth.php:26-31 | The three fields hold the given client id and endpoints. |
| OAuthClient.OAuth.Authorize | OAuth.php:41-62 | The loop builds exactly `?` plus the segments of the merged parameters. With redirect set, nothing is returned and the header `Location: <endpoint + query>` is emitted. Otherwise that URL is returned and no header is emitted. |
| OAuthClient.OAuth.AccessToken | OAuth.php:70-79 | The request goes to the access endpoint with the merged token parameters. `grant_type` and `code` take the caller's value when given, otherwise the defaults. Every key the caller passes keeps the caller's value. |

## Left out

- `_call` and `_setCurlOpts` (OAuth.php:88-126) are not modelled: they perform network I/O through curl. Their options (redirect following, TLS checks, 30-second timeouts) have no counterpart in a pure model. The error number and message `_call` reads are discarded by the source anyway.
- OAuthClient.OAuth.AccessToken: returns the request it hands to the transport (URL and fields). The PHP method returns nothing, and the HTTP response is not modelled.
- With an array as `CURLOPT_POSTFIELDS`, curl sends a multipart/form-data body. The model stops at the field list and does not model that body's encoding.
- OAuthClient.OAuth.Authorize: the `header()` call is modelled as an output value holding the header line. The effect on the HTTP response is not modelled.
- The default argument values are not modelled: every call passes both arguments. In particular, `authorize`'s default `$optionalParams = null` is left out. `array_merge` with `null` behaves differently across PHP versions (a warning and a `null` result, or a type error), so both operations require an array with distinct string keys.
- Integer keys are not modelled. PHP stores a key such as `5` or `-3` as an integer, and `array_merge` renumbers integer keys from 0, so `authorize(false, ['5' => 'x'])` sends `0=x`. `IsArray` excludes such keys, so `Authorize`, `AccessToken` and the merge lemmas say nothing about callers that pass them.
- Non-string parameter values are not modelled; PHP would convert them to strings.
- The `redirectUri`, `scopes` and `state` properties are declared but never read or written by any method, so they are not modelled.
