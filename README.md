# goamz legacy request signers in Dafny

This project models the two legacy request signers of goamz, the Go client library for AWS:

- `sqs/sign.go`, `sign`: AWS Signature Version 2 in query-string form.
  - It writes `AWSAccessKeyId`, `SignatureVersion`, `SignatureMethod` and, when the credentials carry a session token, `SecurityToken` into the caller's parameter map.
  - It turns every entry into `Encode(k) + "=" + Encode(v)`, sorts those strings and joins them with `&`.
  - It signs `method\nhost\npath\n` followed by that query with HMAC-SHA256 under the secret key.
  - It writes the standard base64 of the digest back into the map as `Signature`.
- `exp/ses/sign.go`, `sign` and `AMZ_DATE_STYLE`: the AWS3-HTTPS header scheme.
  - It renders the current UTC time in the layout `Mon, 02 Jan 2006 15:04:05 -0700` and signs exactly that string.
  - It writes `Date` and `X-Amzn-Authorization` into the caller's header map.
  - It returns the access key.

Modules:

- `Aws` (`aws.dfy`): the values the signers receive.
  - Credentials.
  - A 32-byte digest.
  - HMAC-SHA256 (`Mac`) and `aws.Encode` (`Encoder`), passed as function parameters.
- `GoStrings` (`gostrings.dfy`): the Go library behaviour the SQS signer relies on.
  - Go's byte-wise string order, with its order lemmas.
  - `sort.StringSlice(...).Sort()`: an in-place insertion sort of an array, proved to produce the unique sorted permutation, the same result any correct sort gives.
  - `strings.Join`, with splitting as its inverse.
- `Base64` (`base64.dfy`): `base64.StdEncoding` with `=` padding, as section 4 of RFC 4648 defines it.
  - A strict decoder that accepts only what the encoder writes. The padding bits must be zero and line breaks are not skipped.
  - Round trips in both directions, so a digest has exactly one base64 signature.
  - A 32-byte digest always encodes to 44 characters.
- `SqsSign` (`sqs_sign.dfy`): the SQS signer.
  - The caller's map is the class `ParamMap`, which `Sign` updates in place.
  - Go's unspecified map iteration order is modelled by letting each loop step pick any key not yet visited.
  - The proofs show that the sort removes every trace of that order.
- `SesDate` (`ses_date.dfy`): Go's `time.Time.Format` for the one layout `AMZ_DATE_STYLE`, on a UTC time.
  - The zone field renders as `+0000`.
  - A parser for the rendered header is proved to invert the format for years 0 through 9999.
- `SesSign` (`ses_sign.dfy`): the SES signer. The caller's header map is the class `HeaderMap`.

The sort order follows the code, which sorts whole element strings `Encode(k) + "=" + Encode(v)`, not keys. So when one encoded key is a prefix of another and the next character sorts below `=`, the longer key comes first: `a1=x` sorts before `a=y` although `a` sorts before `a1`.

## Model

| member | source | states |
|---|---|---|
| SqsSign.Sign | sqs/sign.go:14-36 | The parameter map after `sign` is exactly `Signed` of the map before it. The credentials come from `auth.Credentials()`, the insertions are written in place, pairs are collected in any iteration order, sorted in place, joined, prefixed with method, host and path, MACed and base64-encoded. |
| SqsSign.Signed | sqs/sign.go:15-35 | After signing, the map holds the access key, `SignatureVersion` "2" and `SignatureMethod` "HmacSHA256". `SecurityToken` is the token when it is non-empty and is otherwise left as it was. Every other key is unchanged. `Signature` is exactly the standard base64 encoding of the MAC, under the secret key, of the string to sign built from the map after the insertions. It is 44 characters and decodes, under the strict decoder, to that MAC. |
| SqsSign.WithCredentials | sqs/sign.go:15-21 | The three fixed fields are set and `SecurityToken` is written iff the token is non-empty. With an empty token an existing `SecurityToken` is kept, not deleted. No key is removed, non-signing keys keep their values and an existing `Signature` is kept. |
| SqsSign.EncodePairs | sqs/sign.go:23-26 | Whatever order the range loop visits the keys in, the collected strings are, as a multiset, exactly one `Encode(k)=Encode(v)` per entry. |
| SqsSign.EncodedPairsRemove | sqs/sign.go:24-25 | Removing any key from the map removes exactly that key's element from the multiset of elements, whichever key the enumeration happened to list first. |
| SqsSign.IterationOrderIrrelevant | sqs/sign.go:24-28 | For every listing of the map's keys, each key once, the sorted and joined elements equal the canonical query. The payload and the signature depend only on the map's contents. |
| SqsSign.ListedPairs | sqs/sign.go:24-25 | The elements produced by any listing of the keys have the same multiset as the map's encoded pairs. |
| SqsSign.QueryOfSortedPairs | sqs/sign.go:27-28 | Any sorted sequence carrying exactly the map's encoded pairs joins with `&` to the canonical query. |
| SqsSign.OldSignatureIsSigned | sqs/sign.go:24-26 | A `Signature` entry present before the call is one of the sorted, signed elements. It is overwritten only afterwards, at line 35. |
| SqsSign.ParsePayloadRoundTrip | sqs/sign.go:29 | The payload is `method\nhost\npath\nquery`. When method, host and path contain no newline it splits back into exactly those four parts, so the signature commits to each of them. |
| SqsSign.ParamMap.constructor | sqs/sign.go:14 | The caller-owned map that `sign` mutates holds the given entries. |
| GoStrings.SortStrings | sqs/sign.go:27 | The in-place sort leaves the slice sorted by Go's string order and a permutation of its old contents. It equals the reference sort of the old contents. |
| GoStrings.SortedUnique | sqs/sign.go:27 | Two sorted sequences with the same multiset of strings are equal, so a sort's result is determined by the elements alone. |
| GoStrings.SortIsUnique | sqs/sign.go:27 | Every sorted permutation of a sequence is its reference sort. |
| GoStrings.Sort | sqs/sign.go:27 | The reference sort yields a sorted permutation of its input. |
| GoStrings.Insert | sqs/sign.go:27 | Inserting into a sorted sequence keeps it sorted and adds exactly one element. |
| GoStrings.LeqTransitive | sqs/sign.go:27 | Go's string order is transitive. |
| GoStrings.LeqTotal | sqs/sign.go:27 | Go's string order is total. |
| GoStrings.LeqAntisymmetric | sqs/sign.go:27 | Go's string order is antisymmetric. |
| Base64.DecodeEncode | sqs/sign.go:12 | Decoding the standard base64 encoding of any byte string gives back that byte string. |
| Base64.EncodeInjective | sqs/sign.go:33 | Distinct digests give distinct signatures. |
| Base64.DigestEncodedLength | sqs/sign.go:32-33 | The encoding of a 32-byte digest is `EncodedLen(32)` = 44 characters, the last being `=` padding. |
| Base64.Encode | sqs/sign.go:32-33 | The encoding of `n` bytes has `EncodedLen(n)` = 4 * ceil(n / 3) characters. |
| Base64.EncodePadded | sqs/sign.go:33 | An input of 2 more than a multiple of 3 bytes encodes with a final `=`. |
| Base64.EncodeDecode | sqs/sign.go:33 | The only string that decodes to a byte string is that byte string's standard encoding. Together with `DecodeEncode`, encoding and decoding are inverse. |
| Base64.DecodesToDigest | sqs/sign.go:30-35 | A string that decodes to a digest is the digest's standard encoding and has 44 characters, so a signature is determined by its digest. |
| SqsSign.EncodedPair | sqs/sign.go:25 | An element is the encoded key, then `=`, then the encoded value, with its length the sum of theirs plus one. |
| SqsSign.EncodedPairSplit | sqs/sign.go:25 | When the encoder emits no `=`, the first `=` of an element separates exactly the encoded key from the encoded value. |
| SqsSign.Payload | sqs/sign.go:29 | The payload starts with the method and a newline, ends with a newline and the query, and is three characters longer than its four parts. `ParsePayloadRoundTrip` is its inverse. |
| GoStrings.Join | sqs/sign.go:28 | The joined string is empty for no elements. Otherwise it starts with the first element and is as long as the elements plus one separator per gap. |
| GoStrings.SplitJoin | sqs/sign.go:28 | When no element contains the one-character separator, splitting the joined string at every separator gives back exactly the elements, in order. |
| GoStrings.SplitAll | sqs/sign.go:28 | Splitting at every occurrence of a character always yields at least one piece; `SplitJoin` makes it the inverse of `Join`. |
| SqsSign.CanonicalQuery | sqs/sign.go:24-28 | The query is empty for an empty map. Otherwise, when the encoder never emits `&`, it splits at `&` into a sorted sequence holding exactly one `Encode(k)=Encode(v)` per entry, so the signature covers every parameter. `QueryOfSortedPairs` and `IterationOrderIrrelevant` show it is the only such join. |
| SqsSign.StringToSign | sqs/sign.go:29 | The string the secret key signs is the `Payload` of the canonical query of the map after the insertions. When method, host and path hold no newline it splits back into those three and that query. |
| GoStrings.Leq | sqs/sign.go:27 | `StringSlice.Less` as an order: a prefix comes before any extension of it, and a non-empty string comes before only strings whose first byte is no smaller. `LeqTotal`, `LeqTransitive` and `LeqAntisymmetric` make it a total order. |
| Base64.EncodedLen | sqs/sign.go:32 | `EncodedLen(n)` is a multiple of 4 whose groups of three bytes hold `n` bytes with fewer than three to spare: the padded length. |
| Base64.Rfc4648Vectors | sqs/sign.go:12 | The encoder reproduces the test vectors of section 10 of RFC 4648, from the empty string to `foobar` = `Zm9vYmFy`. |
| SqsSign.ElementsAmpersandFree | sqs/sign.go:25 | With an encoder that never emits `&`, no encoded element contains `&`. |
| GoStrings.Swap | sqs/sign.go:27 | `StringSlice.Swap` exchanges two slice elements in place and changes nothing else. |
| SesSign.Sign | exp/ses/sign.go:18-27 | Returns the access key. The header map afterwards is exactly `SignedHeaders` of the old map for the date `FormatDate(now)`. |
| SesSign.SignedHeaders | exp/ses/sign.go:20-26 | `Date` becomes the one-element list `[date]` and replaces any old value. `X-Amzn-Authorization` becomes the one value `AuthorizationValue(accessKey, Encode(mac(secretKey, date)))`, where `date` is exactly the value in the `Date` header. It parses back to the access key and a signature that decodes to that MAC. Every other header key is unchanged. |
| SesSign.DateSignature | exp/ses/sign.go:21-23 | The signature is exactly the standard base64 encoding of the HMAC of the date under the secret key. It is 44 characters and decodes to that HMAC. |
| SesSign.AuthorizationValue | exp/ses/sign.go:24 | The `Sprintf` result starts with `AWS3-HTTPS AWSAccessKeyId=`, ends with the signature and is as long as its pieces. `ParseAuthorizationValue` is its inverse. |
| SesSign.ParseAuthorizationValue | exp/ses/sign.go:24 | The `AWS3-HTTPS AWSAccessKeyId=..., Algorithm=HmacSHA256, Signature=...` value splits back into the access key and the 44-character signature. |
| SesSign.SignatureIgnoresRequest | exp/ses/sign.go:18-24 | The two written header values depend only on the access key, the secret key, the date and the MAC. The session token and the previous headers play no part, and `SignedHeaders` has no method parameter. |
| SesSign.HeaderMap.constructor | exp/ses/sign.go:18 | The caller-owned header map that `sign` mutates holds the given fields. |
| SesDate.FormatDateLength | exp/ses/sign.go:14-20 | For years 0 through 9999 the rendered date has 31 characters, the length of the layout. |
| SesDate.FormatDateFields | exp/ses/sign.go:14-20 | For years 0 through 9999 every numeric field of the layout renders at its fixed width. |
| SesDate.ReferenceTime | exp/ses/sign.go:14-20 | The layout's own reference time, 2006-01-02 15:04:05 UTC, renders as `Mon, 02 Jan 2006 15:04:05 +0000`. |
| SesDate.ParseFormatDate | exp/ses/sign.go:14-20 | Parsing the rendered date gives back the time, to the second, for every year from 0 through 9999, so the `Date` header determines the signed time. |
| SesDate.AppendIntTwo | exp/ses/sign.go:20 | A two-digit field is zero-padded to width 2. |
| SesDate.AppendIntFour | exp/ses/sign.go:20 | The year field is zero-padded to width 4. |
| SesDate.Weekday | exp/ses/sign.go:20 | The weekday rendered by `Mon` is a day number from 0 (Sunday) to 6. `WeekdayNext` and `ReferenceTime` fix its value on every date. |
| SesDate.WeekdayNext | exp/ses/sign.go:20 | From each day to the next, across month ends, leap days and year ends, the weekday advances by one modulo 7. With the reference time being a Monday, this pins the weekday of every date. |
| SesDate.NextDay | exp/ses/sign.go:20 | The following calendar day is a valid date with the same time of day. It stays in the same year except from 31 December to 1 January. |
| SesDate.FormatDate | exp/ses/sign.go:14-20 | `time.Now().UTC().Format(AMZ_DATE_STYLE)` starts with the weekday name and `, `, ends with the UTC zone ` +0000`, and has at least the layout's 31 characters. `ParseFormatDate` is its inverse. |
| SesDate.AppendInt | exp/ses/sign.go:20 | Go's `appendInt(x, width)` is at least `width` characters, all digits for a non-negative `x`, and starts with `-` for a negative one. |

## Left out

- HMAC-SHA256 and SHA-256 are the `mac` parameter, a function from key and message to a 32-byte digest. Their internals belong to Go's crypto packages. The writes to the hash object are modelled as one call on the whole payload.
- `aws.Encode` is the `encode` parameter. Its body is not part of this model.
- `auth.Credentials()` is replaced by the `Credentials` value it returns.
- The clock (`time.Now()`) is the `now` parameter of `SesSign.Sign`, already converted to UTC civil fields. The conversion from an instant is not modelled. Nanoseconds are not rendered by the layout and are not represented.
- Strings are sequences of `char`, each standing for one byte. Go's string comparison is byte-wise and is modelled as comparison of the characters.
- SesDate.ParseFormatDate: the round trip is stated for years 0 through 9999 only. Outside that range the year field is not four characters wide.
- SesDate.FormatDate: only the layout `AMZ_DATE_STYLE` on a UTC time is modelled, not Go's general layout interpreter.
- SqsSign.Sign: Go's random map iteration order is modelled as an arbitrary choice of the next key. The runtime's random starting point is not modelled; the model allows every order.
- The Signature Version 4 signer is not modelled. Its method bodies are not among the repository files modelled here; only the one-line test re-exports at aws/export_test.go:30-48 refer to it.
- dynamodb/query.go and dynamodb/update_item.go are not modelled. They are network client plumbing around request building and JSON decoding.
- aws/export_test.go is not modelled. It holds test-only getters and forwards to the Signature Version 4 signer.
- Concurrent use of the same map from several goroutines is not modelled.
- A nil parameter or header map, and a nil `auth`, are not modelled. In Go, `sign` panics on them: assigning into a nil map panics, and so does calling `Credentials()` on a nil `auth`. The model's map objects and its `Credentials` value cannot be nil.
