# Tequila sign-in strategy, modelled in Dafny

This project models the OmniAuth strategy for Tequila, EPFL's single-sign-on
server (`OmniAuth::Strategies::Tequila`). The strategy runs a two-step handshake:

- **Request phase.** It POSTs a line-based `name=value` body to
  `/createrequest`. It reads a one-time request key out of the answer and
  redirects the browser to Tequila's login page with that key.
- **Callback phase.** When the browser comes back, it POSTs the key to
  `/fetchattributes` and decodes the answer into `raw_info`. It checks that
  every requested attribute came back and strips an `@epfl.ch` suffix off the
  uid. It then exposes `uid`, `info` and `extra`.

Modules, following the structure of the strategy:

- `Wrappers`: `Option`; Ruby's `nil` is `None`.
- `Strings`: the Ruby `String` operations the strategy relies on, written
  out on `seq<char>`:
  - `strip` with Ruby's whitespace set;
  - `each_line`, `split('=', 2)` and `join`;
  - decimal rendering of a port.
- `Codec`: `encode_request_body` and the attribute decoder of the callback
  phase. It proves their round trip and the decoder's line-level meaning:
  lines without `=` are skipped, the last assignment of a name wins, and
  values are stripped.
- `Config`: the options and their defaults, the base URI, the POST, the
  response and the three failure kinds.
- `RequestKey`: the `/createrequest` body, the key extraction
  `body[/^key=(.*)$/, 1]` and the outcome of `request_phase`.
- `Attributes`: the `/fetchattributes` body, `missing_info`, the uid
  normalisation, the `info`/`extra`/`uid` blocks and the outcome of
  `callback_phase`.
- `Strategy`: the strategy object as a class. It has `options` (which
  `tequila_uri` updates with the default port), the memoised base URI, and
  `raw_info`. Its methods run the two phases imperatively. They use the
  hash-encoding loop and the `each_line` loop, and are proved equal to the
  functions above.

The HTTP transport is a parameter: a `Server` function from the POST to
the optional response.

Two behaviours of the code worth knowing:

- **The request key is read with the regex `^key=(.*)$`, not with the
  attribute decoder.** The regex takes the first line that starts with
  `key=`, does not strip the value, and keeps a trailing carriage return.
  Decoding keeps the last `key=` line and strips it
  (`RequestKey.KeyIsFirstNotLast`).
- **A missing uid field makes the callback raise; it does not give an
  empty uid** (see Findings).

## Model

| member | source | states |
|---|---|---|
| Strings.Strip | lib/omniauth/strategies/tequila.rb:54 | `String#strip`: the left trim, then the right trim, over Ruby's whitespace set (NUL, tab, newline, vertical tab, form feed, carriage return, space); its meaning is stated by StripSlice |
| Strings.Lines | lib/omniauth/strategies/tequila.rb:51 | `each_line`: cuts the body after every newline, each line keeping its newline, the last one possibly without; LinesConcat and LinesShape state this |
| Strings.Join | lib/omniauth/strategies/tequila.rb:114 | `join(',')`: the names with the separator between consecutive ones, nothing for no names; SplitJoin shows it loses nothing |
| Strings.TrimLeft | lib/omniauth/strategies/tequila.rb:54 | leading whitespace removed: a suffix of the input, all of the dropped characters whitespace, no whitespace at its start |
| Strings.TrimRight | lib/omniauth/strategies/tequila.rb:54 | trailing whitespace removed: a prefix of the input, all of the dropped characters whitespace, no whitespace at its end |
| Strings.LeadingSpaces | lib/omniauth/strategies/tequila.rb:54 | how much `lstrip` drops: the left trim is the input from that position |
| Strings.StripSlice | lib/omniauth/strategies/tequila.rb:54 | `strip` yields the slice between the leading and trailing whitespace runs, which it does not start or end with |
| Strings.StripFixpoint | lib/omniauth/strategies/tequila.rb:54 | a string is its own strip exactly when it is empty or has no whitespace at either end |
| Strings.StripIdempotent | lib/omniauth/strategies/tequila.rb:54 | stripping twice is stripping once |
| Strings.StripNewline | lib/omniauth/strategies/tequila.rb:54 | a stripped value followed by the line's newline strips back to itself |
| Strings.FirstIndex | lib/omniauth/strategies/tequila.rb:52 | the split point of `split('=', 2)`: absent exactly when the character does not occur, otherwise its first occurrence |
| Strings.FirstIndexAfter | lib/omniauth/strategies/tequila.rb:52 | the first separator after a separator-free prefix is found right after that prefix |
| Strings.LineLength | lib/omniauth/strategies/tequila.rb:51 | `each_line` cuts the first line up to and including the first newline, or takes the whole rest |
| Strings.LinesConcat | lib/omniauth/strategies/tequila.rb:51 | the lines concatenate back to the body |
| Strings.LinesShape | lib/omniauth/strategies/tequila.rb:51 | no line is empty, a newline occurs only at a line's end, and every line but the last ends with one |
| Strings.LinesCons | lib/omniauth/strategies/tequila.rb:51 | a newline-terminated first line is cut off on its own |
| Strings.Split | lib/omniauth/strategies/tequila.rb:114 | splitting on a separator yields at least one piece |
| Strings.SplitJoin | lib/omniauth/strategies/tequila.rb:114 | joining separator-free names with `,` can be undone by splitting |
| Strings.NatToString | lib/omniauth/strategies/tequila.rb:157-162 | the port's rendering is the canonical decimal numeral of the port: non-empty, all digits, of value the port, and with no leading zero (only `0` itself starts with `0`) |
| Codec.Line | lib/omniauth/strategies/tequila.rb:135 | one entry rendered as `name=value\n`, with no escaping of `=` or newline |
| Codec.EncodeHash | lib/omniauth/strategies/tequila.rb:134-136 | one hash: the lines of its entries in order; the empty hash gives `""` |
| Codec.Encode | lib/omniauth/strategies/tequila.rb:130-137 | `encode_request_body`: a hash as EncodeHash, an array as EncodeList; EncodeFlatten states its meaning |
| Codec.EncodeList | lib/omniauth/strategies/tequila.rb:132 | `map { encode_request_body }.join('')`: the elements' encodings in order, no separator |
| Codec.EncodeHashAppend | lib/omniauth/strategies/tequila.rb:134-136 | encoding a concatenation of hash entries is concatenating their encodings |
| Codec.EncodeListAppend | lib/omniauth/strategies/tequila.rb:132 | encoding a concatenation of array elements is concatenating their encodings (`join('')`) |
| Codec.FlattenSingle | lib/omniauth/strategies/tequila.rb:118 | a hash alone in an array, or in an array in an array, has just its entries |
| Codec.FlattenListAppend | lib/omniauth/strategies/tequila.rb:125 | pushing elements appends their entries |
| Codec.EncodeFlatten | lib/omniauth/strategies/tequila.rb:130-137 | nesting adds no separator: a structure encodes as the single hash of all its entries in order |
| Codec.EncodeListFlatten | lib/omniauth/strategies/tequila.rb:132 | an array encodes as the hash of its elements' entries in order |
| Codec.EncodeExample | lib/omniauth/strategies/tequila.rb:130-137 | two one-entry hashes in an array encode to two lines; an empty hash encodes to nothing |
| Codec.EncodeFields | lib/omniauth/strategies/tequila.rb:134-136 | the `body +=` loop over a hash produces exactly its entries' `name=value` lines |
| Codec.EncodeRequestBody | lib/omniauth/strategies/tequila.rb:130-137 | the recursive encoder with its array loop produces exactly the encoding of the structure |
| Codec.ParseLine | lib/omniauth/strategies/tequila.rb:52-55 | a line without `=` contributes nothing; otherwise the name is the text before the first `=` and the value the stripped rest |
| Codec.Entries | lib/omniauth/strategies/tequila.rb:51-53 | the parse of each line of the body, in line order, as `split('=', 2)` gives it; what this means for `raw_info` is stated by Codec.DecodeSpec |
| Codec.AssignSnoc | lib/omniauth/strategies/tequila.rb:54 | one more line updates the hash with its entry, or leaves it unchanged |
| Codec.AssignSpec | lib/omniauth/strategies/tequila.rb:50-56 | a name is in the hash exactly when some entry assigns it, and its value is that of the last entry assigning it |
| Codec.AssignSkips | lib/omniauth/strategies/tequila.rb:53 | a line without `=` changes nothing wherever it stands |
| Codec.AssignSole | lib/omniauth/strategies/tequila.rb:54 | a name assigned only by the first entry keeps that entry's value |
| Codec.Assign | lib/omniauth/strategies/tequila.rb:50-56 | `raw_info` built from `{}` by assigning each parsed entry in turn; AssignSpec states its meaning |
| Codec.Decode | lib/omniauth/strategies/tequila.rb:50-56 | the attributes of a response body: the lines' entries assigned in order; DecodeSpec states its meaning |
| Codec.ParseAttributes | lib/omniauth/strategies/tequila.rb:50-56 | the `each_line` loop fills `raw_info` with exactly the decoding of the body |
| Codec.DecodeSpec | lib/omniauth/strategies/tequila.rb:50-56 | a name is in `raw_info` exactly when some line defines it; its value comes from the last such line |
| Codec.EntriesAppend | lib/omniauth/strategies/tequila.rb:51 | the lines of two parts contribute in turn |
| Codec.DecodeSkipsLine | lib/omniauth/strategies/tequila.rb:53 | a line without `=` among the lines does not change the decoded hash |
| Codec.ToMapUnique | lib/omniauth/strategies/tequila.rb:54 | with distinct names, the assigned hash has exactly those names, each with its own value |
| Codec.ParseLineOfLine | lib/omniauth/strategies/tequila.rb:52-54 | a clean entry's line parses back to that entry |
| Codec.LinesOfEncodeHash | lib/omniauth/strategies/tequila.rb:135 | `each_line` cuts an encoded hash back into its entries' lines |
| Codec.DecodeEncodeHash | lib/omniauth/strategies/tequila.rb:50-56 | round trip: decoding the encoding of clean entries gives the hash assigning them in order |
| Codec.DecodeEncode | lib/omniauth/strategies/tequila.rb:130-137 | round trip through a nested structure: the hash of its flattened entries |
| Codec.DecodeOneLine | lib/omniauth/strategies/tequila.rb:50-56 | one clean line decodes to exactly its entry; `key=abc123` is one such line, and the lemma covers all of them |
| Codec.DecodeTwoLines | lib/omniauth/strategies/tequila.rb:50-56 | two clean lines decode to both entries, the second winning under one name |
| Codec.DecodeSkipsGarbage | lib/omniauth/strategies/tequila.rb:53 | a leading line without `=` is skipped: the rest decodes as if it were absent; `garbageline` followed by `key=xyz` is one such body |
| Config.Defaults | lib/omniauth/strategies/tequila.rb:17-28 | the declared option defaults |
| Config.WithDefaultPort | lib/omniauth/strategies/tequila.rb:154-156 | an unset port becomes 443 with SSL and 80 without; a set port is kept; DefaultPortStable states its properties |
| Config.UriString | lib/omniauth/strategies/tequila.rb:89 | `tequila_uri.to_s`: `scheme://host:port` followed by the path; DefaultUriString gives the default |
| Config.AttributeNames | lib/omniauth/strategies/tequila.rb:110 | `request_info.values`, in order; what it means is stated by Attributes.MissingInfo (the names that must come back) and RequestKey.RequestValueRoundTrip (the names Tequila reads back out of `request`) |
| Config.BaseUri | lib/omniauth/strategies/tequila.rb:152-164 | scheme `https` exactly with SSL, else `http`; the configured port, or 443 with SSL and 80 without; host and path from the options |
| Config.DefaultPortStable | lib/omniauth/strategies/tequila.rb:153-156 | filling in the default port sets a port, changes nothing else, does not move the URI, and a second time changes nothing |
| Config.PostTo | lib/omniauth/strategies/tequila.rb:166-178 | the POST goes to the options' host on the base URI's port, over SSL exactly when `ssl` is set, to the base path followed by the endpoint, with the given body |
| RequestKey.RequestauthParameters | lib/omniauth/strategies/tequila.rb:139-143 | the new additional parameters, or the obsolete ones while the new ones are empty |
| RequestKey.RequestBodyFields | lib/omniauth/strategies/tequila.rb:110-125 | `body_fields` with its nesting: the head hash, a one-hash array for a group, one for SWITCHaai, then the additional hash; RequestBodyOrder states its order |
| RequestKey.RequestEntries | lib/omniauth/strategies/tequila.rb:110-125 | the entries of the request body in the order they are sent, nesting removed |
| RequestKey.RequestedAttributes | lib/omniauth/strategies/tequila.rb:110 | the attribute names of `request_info` in order, then the uid field |
| RequestKey.RequestBodyOrder | lib/omniauth/strategies/tequila.rb:111-125 | the body is urlaccess, service and request; then the group if one is set (the empty string counts); then `allows` with SWITCHaai; then the additional parameters, the obsolete ones standing in while the new ones are empty |
| RequestKey.RequestValueRoundTrip | lib/omniauth/strategies/tequila.rb:110-114 | with comma-free names, Tequila can split the `request` value back into the attribute names and the uid field |
| RequestKey.CreateRequest | lib/omniauth/strategies/tequila.rb:127 | the POST goes to `/createrequest` under the base path and carries the request entries' lines |
| RequestKey.DefaultRequest | lib/omniauth/strategies/tequila.rb:108-127 | the default options request `displayname,uniqueid` for service `Omniauth`, over HTTPS on port 443 |
| RequestKey.FirstKey | lib/omniauth/strategies/tequila.rb:79 | the text after `key=` on the first line starting with `key=`, without its newline; nil when there is no such line |
| RequestKey.ExtractKey | lib/omniauth/strategies/tequila.rb:79 | `body[/^key=(.*)$/, 1]` over the body's lines; KeyLineIndex, KeyOnFirstLine and KeySkipsLine state its meaning |
| RequestKey.LineText | lib/omniauth/strategies/tequila.rb:79 | `$` stops at the line's newline: the text is the line or the line without its final newline |
| RequestKey.KeyLineIndex | lib/omniauth/strategies/tequila.rb:79 | the first line matching `^key=`: absent exactly when no line does; otherwise a matching line with no match before it |
| RequestKey.LineTextOneLine | lib/omniauth/strategies/tequila.rb:79 | a line's text holds no newline |
| RequestKey.ExtractKeyOneLine | lib/omniauth/strategies/tequila.rb:79 | the extracted key never holds a newline |
| RequestKey.KeyOnFirstLine | lib/omniauth/strategies/tequila.rb:79 | a `key=` first line yields its key, whatever follows |
| RequestKey.KeyLine | lib/omniauth/strategies/tequila.rb:79 | the line `key=k` matches `^key=`, holds no newline before its end, and captures `k` |
| RequestKey.KeySkipsLine | lib/omniauth/strategies/tequila.rb:79 | a line not starting with `key=` is passed over |
| RequestKey.NotKeyLine | lib/omniauth/strategies/tequila.rb:79 | adding the newline to a line that does not start with `key=` does not make it match |
| RequestKey.KeyEntryLine | lib/omniauth/strategies/tequila.rb:101 | the encoded `key` entry is a `key=` line |
| RequestKey.KeyIsFirstNotLast | lib/omniauth/strategies/tequila.rb:79 | with two `key=` lines the request key is the first, where the attribute decoder keeps the last |
| RequestKey.LoginLocation | lib/omniauth/strategies/tequila.rb:89 | the base URI followed by `/requestauth?requestkey=` and the key |
| RequestKey.LoginRedirect | lib/omniauth/strategies/tequila.rb:86-93 | status 302, `Location` then `Content-Type: text/plain`, and the one-part notice body |
| RequestKey.RequestPhaseResult | lib/omniauth/strategies/tequila.rb:72-94 | no answer or a non-200 status is `invalid_response`, and a missing or empty key is `invalid_key` (both exactly then); otherwise a 302 to the login page with the key, `text/plain` and the notice |
| RequestKey.RedirectsWithKey | lib/omniauth/strategies/tequila.rb:79-93 | a 200 answer whose first line carries a non-empty key redirects with that key |
| RequestKey.KeyedExample | lib/omniauth/strategies/tequila.rb:74-93 | `key=REQ42` redirects with `REQ42` under status 200 and is `invalid_response` under status 500 |
| RequestKey.KeylessExample | lib/omniauth/strategies/tequila.rb:79-82 | a 200 answer `nope` is `invalid_key` |
| RequestKey.DefaultLoginLocation | lib/omniauth/strategies/tequila.rb:89 | with the defaults, unset port or 443, the login page is `https://tequila.epfl.ch:443/cgi-bin/tequila/requestauth?requestkey=` followed by the key |
| RequestKey.DefaultUriString | lib/omniauth/strategies/tequila.rb:152-164 | the default base URI renders as `https://tequila.epfl.ch:443/cgi-bin/tequila` |
| RequestKey.Port443 | lib/omniauth/strategies/tequila.rb:155 | port 443 renders as `443` |
| Attributes.FetchBodyFields | lib/omniauth/strategies/tequila.rb:100-103 | the array `fetch_attributes` encodes: the `key` hash, then the additional fetch parameters |
| Attributes.FetchRequest | lib/omniauth/strategies/tequila.rb:99-105 | the POST goes to `/fetchattributes` and carries the `key` line, then the additional parameters' lines |
| Attributes.FetchKeyReadBack | lib/omniauth/strategies/tequila.rb:99-105 | when no additional parameter is named `key`, decoding the body gives back the key |
| Attributes.MissingInfo | lib/omniauth/strategies/tequila.rb:58 | an attribute name is reported missing exactly when `request_info` asks for it and the answer did not define it |
| Attributes.NothingMissing | lib/omniauth/strategies/tequila.rb:58-59 | nothing is missing exactly when every requested attribute was defined |
| Attributes.StripEpflSuffix | lib/omniauth/strategies/tequila.rb:65-67 | a uid ending in `@epfl.ch` loses exactly that suffix; any other uid is kept |
| Attributes.StripEpflSuffixOnce | lib/omniauth/strategies/tequila.rb:65-67 | `user@epfl.ch` becomes `user`, and a doubled suffix is removed once only |
| Attributes.NormaliseUid | lib/omniauth/strategies/tequila.rb:64-67 | the in-place `delete_suffix!` changes the uid field's value in `raw_info` and nothing else |
| Attributes.Lookup | lib/omniauth/strategies/tequila.rb:32 | `raw_info[v]`, `nil` for an undefined name; Attributes.InfoValueAt and Attributes.InfoSome state what `info` gets from it |
| Attributes.Info | lib/omniauth/strategies/tequila.rb:31-33 | `info` has exactly the logical names of `request_info` |
| Attributes.InfoValueAt | lib/omniauth/strategies/tequila.rb:32 | a logical name carries the value of its last entry's attribute |
| Attributes.InfoValues | lib/omniauth/strategies/tequila.rb:32 | with distinct logical names, each carries its own attribute's value |
| Attributes.InfoSome | lib/omniauth/strategies/tequila.rb:32 | when every requested attribute is present, no `info` value is `nil` |
| Attributes.Extra | lib/omniauth/strategies/tequila.rb:35-37 | the `extra` block's `reject`; Attributes.ResolvePartition states that it is exactly the rest of `raw_info`, apart from the uid and the requested attributes |
| Attributes.Resolve | lib/omniauth/strategies/tequila.rb:31-41 | the `uid`, `info` and `extra` blocks together; Attributes.AuthenticatedIdentity states what a sign-in reports through it |
| Attributes.ResolvePartition | lib/omniauth/strategies/tequila.rb:35-41 | every attribute is the uid, a requested attribute or an extra one; `extra` holds only attributes of `raw_info`, with their values, and neither the uid field nor a requested attribute |
| Attributes.CallbackPhaseAsWritten | lib/omniauth/strategies/tequila.rb:43-70 | the callback as the code is written: `invalid_response` for no answer or non-200, `invalid_info` with the missing names, a raise when only the uid field is missing, else the identity of the normalised attributes |
| Attributes.RawInfoAfter | lib/omniauth/strategies/tequila.rb:50-66 | `raw_info` after the callback: untouched on an invalid response, else the decoded answer, uid normalised in place once the checks pass |
| Attributes.MissingUidRaises | lib/omniauth/strategies/tequila.rb:65 | with the defaults, an answer with `displayname` but no `uniqueid` passes the check and then raises |
| Attributes.CallbackPhaseResult | lib/omniauth/strategies/tequila.rb:43-70 | never raises. No answer or a non-200 status is `invalid_response`, exactly then. Sign-in happens exactly when nothing is missing and the uid field is defined, with the identity of the normalised attributes. `invalid_info` names the missing attributes, or the uid field when only it is missing |
| Attributes.IdentityFromRawInfo | lib/omniauth/strategies/tequila.rb:50-69 | the identity is read from `raw_info` as the callback leaves it; on a failed check `raw_info` holds the decoded answer; on an invalid response it is untouched |
| Attributes.CorrectionAgrees | lib/omniauth/strategies/tequila.rb:64-67 | the corrected phase agrees with the code everywhere except where the code raises, where it fails as invalid info |
| Attributes.AuthenticatedIdentity | lib/omniauth/strategies/tequila.rb:31-69 | a sign-in reports the normalised uid. Every `info` value is non-nil, and under distinct names it is the attribute's (normalised) value. `extra` is exactly the other attributes with their values |
| Attributes.DefaultSignIn | lib/omniauth/strategies/tequila.rb:43-70 | with the defaults, an answer carrying `uniqueid` and `displayname` signs in with the normalised uid, `name` the display name, and nothing extra |
| Attributes.DefaultIdentity | lib/omniauth/strategies/tequila.rb:31-41 | with the defaults, those two attributes are not missing and resolve to that identity |
| Strategy.TequilaStrategy.constructor | lib/omniauth/strategies/tequila.rb:12-28 | a new strategy holds its options, no base URI yet and a nil `raw_info` |
| Strategy.TequilaStrategy.TequilaUri | lib/omniauth/strategies/tequila.rb:152-164 | returns the base URI of the options it started from and memoises it; the options get the default port; `raw_info` unchanged |
| Strategy.TequilaStrategy.TequilaPost | lib/omniauth/strategies/tequila.rb:166-178 | returns the server's answer to the POST under the base URI; options and memo as after `tequila_uri` |
| Strategy.TequilaStrategy.GetRequestKey | lib/omniauth/strategies/tequila.rb:108-128 | returns the server's answer to the `/createrequest` POST built from the options and the callback URL |
| Strategy.TequilaStrategy.RequestPhase | lib/omniauth/strategies/tequila.rb:72-94 | its outcome is the request-phase result on the server's answer; `raw_info` unchanged |
| Strategy.TequilaStrategy.FetchAttributes | lib/omniauth/strategies/tequila.rb:99-105 | returns the server's answer to the `/fetchattributes` POST of the key |
| Strategy.TequilaStrategy.CallbackPhase | lib/omniauth/strategies/tequila.rb:43-70 | its outcome is the corrected callback result on the server's answer; `raw_info` is left as `RawInfoAfter` says: untouched (possibly nil) on an invalid response, otherwise the decoded answer |

## Left out

- The transport: `Net::HTTP`, the SSL verify mode, `ca_path` and `disable_ssl_verification`. A `Server` parameter maps the POST (host, port, SSL flag, path, body) to an optional response. `None` models only the `response.nil?` branches of the two phases.
- Transport exceptions: `tequila_post` has no `rescue`, so a refused connection, a DNS or TLS failure or a read timeout raises out of either phase. The model has no such outcome; the `Server` function always answers.
- The OmniAuth lifecycle around the phases:
  - `fail!` is modelled as a returned `Failure` value, and the `TequilaFail` messages are not kept.
  - `super` (storing the auth hash and calling the app) is not modelled; `Identity` is the data it would store.
  - `callback_url` and `request.params['key']` are string parameters.
- Logging (`log :error`) is left out; the missing names it would log are kept in `InvalidInfo`.
- A nil `key` parameter is not modelled: the key is always a string, so the `TypeError` that `"key=" + nil` would raise is outside the model.
- A `require_group` that is not a string (`false`, a symbol) is not modelled. Neither are non-string names or values in the parameter hashes. Options are modelled as strings; the uid field symbol is its `to_s`.
- Addressable's URI validation and normalisation are left out. The URI is rendered as `scheme://host:port` plus the path, with the port always written, as it is when given explicitly.
- Ruby hashes with repeated keys cannot exist, but the entry lists here can hold them. The lemmas about `info` assume distinct logical names (`UniqueNames`), as a Ruby hash guarantees.
- Hash order of `raw_info` and `extra`: Ruby hashes keep insertion order, `map<string, string>` does not. Keys and values are modelled; the order in which `raw_info.to_s` or `extra` would list them is not.
- `user_info` (an alias of `raw_info`) and the `name` option are left out: they add no behaviour.
- Attributes.Resolve: requires the uid field to be present. The `uid` block would return nil otherwise, but that only happens in the as-written callback, which raises first.

## Findings

| source | as written | input that shows it | evidently intended | confidence | as-written member | corrected member |
|---|---|---|---|---|---|---|
| lib/omniauth/strategies/tequila.rb:65 | `auth_hash.uid.end_with?` is called without checking that the uid field came back; `missing_info` checks only `request_info` | default options; Tequila answers 200 with body `displayname=\n` | the sign-in fails as `invalid_info`, like any other missing attribute | not executed; follows from the code (nil has no `end_with?`) | Attributes.CallbackPhaseAsWritten (counterexample: Attributes.MissingUidRaises) | Attributes.CallbackPhaseResult |
