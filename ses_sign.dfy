/**
 The SES request signer (the `AWS3-HTTPS` header scheme). `Sign` renders
 the current UTC time, signs exactly that string with HMAC-SHA256 under the
 secret key, and writes the `Date` and `X-Amzn-Authorization` headers into
 the caller's header map.
 */
module SesSign {
  import opened Aws
  import opened SesDate
  import Base64

  const DateHeader := "Date"
  const AuthorizationHeader := "X-Amzn-Authorization"

  /** The fixed text around the access key and the signature in the header value. */
  const AuthPrefix := "AWS3-HTTPS AWSAccessKeyId="
  const AuthMiddle := ", Algorithm=HmacSHA256, Signature="

  /**
   The header map owned by the caller (`map[string][]string`). A Go map is a
   reference, so the two writes are seen by the caller.
   */
  class HeaderMap {
    var fields: map<string, seq<string>>

    constructor (fields: map<string, seq<string>>)
      ensures this.fields == fields
    {
      this.fields := fields;
    }
  }

  /** The base64 HMAC-SHA256 of the date under the secret key. */
  function DateSignature(secretKey: string, date: string, mac: Mac): (signature: string)
    ensures |signature| == 44
    ensures Base64.Decode(signature) == Some(mac(secretKey, date))
    ensures signature == Base64.Encode(mac(secretKey, date))
  {
    var digest := mac(secretKey, date);
    Base64.DigestEncodedLength(digest);
    Base64.DecodeEncode(digest);
    Base64.Encode(digest)
  }

  /** The `fmt.Sprintf` that builds the `X-Amzn-Authorization` value. */
  function AuthorizationValue(accessKey: string, signature: string): (v: string)
    ensures |v| == |AuthPrefix| + |accessKey| + |AuthMiddle| + |signature|
    ensures v[..|AuthPrefix|] == AuthPrefix && v[|v| - |signature|..] == signature
  {
    AuthPrefix + accessKey + AuthMiddle + signature
  }

  /**
   Splits an `X-Amzn-Authorization` value into access key and signature.
   The signature is read from the end, 44 characters, so an access key that
   itself contains the middle text does not confuse it.
   */
  function ParseAuthorization(v: string): Option<(string, string)>
  {
    var n := |v|;
    if n < |AuthPrefix| + |AuthMiddle| + 44 then None
    else if v[..|AuthPrefix|] != AuthPrefix || v[n - 44 - |AuthMiddle|..n - 44] != AuthMiddle then None
    else Some((v[|AuthPrefix|..n - 44 - |AuthMiddle|], v[n - 44..]))
  }

  /** The header value can be read back: it names the access key and carries the signature. */
  lemma ParseAuthorizationValue(accessKey: string, signature: string)
    requires |signature| == 44
    ensures ParseAuthorization(AuthorizationValue(accessKey, signature)) == Some((accessKey, signature))
  {
    var v := AuthorizationValue(accessKey, signature);
    var n := |v|;
    assert v == AuthPrefix + (accessKey + (AuthMiddle + signature));
    assert v[..|AuthPrefix|] == AuthPrefix;
    assert v[|AuthPrefix|..n - 44 - |AuthMiddle|] == accessKey;
    assert v[n - 44 - |AuthMiddle|..n - 44] == AuthMiddle;
    assert v[n - 44..] == signature;
  }

  /**
   The whole effect of `sign` on the header map `h`, for the rendered date
   `date`: `Date` becomes `[date]`, `X-Amzn-Authorization` becomes the one
   value naming the access key and carrying the signature of exactly that
   date, and nothing else changes.
   */
  function SignedHeaders(h: map<string, seq<string>>, creds: Credentials, date: string, mac: Mac)
    : (r: map<string, seq<string>>)
    ensures DateHeader in r && r[DateHeader] == [date]
    ensures AuthorizationHeader in r && |r[AuthorizationHeader]| == 1
    ensures var parsed := ParseAuthorization(r[AuthorizationHeader][0]);
      parsed.Some? && parsed.value.0 == creds.accessKey
      && Base64.Decode(parsed.value.1) == Some(mac(creds.secretKey, r[DateHeader][0]))
    ensures r[AuthorizationHeader]
         == [AuthorizationValue(creds.accessKey, Base64.Encode(mac(creds.secretKey, r[DateHeader][0])))]
    ensures forall k :: k != DateHeader && k != AuthorizationHeader ==>
      (k in r <==> k in h) && (k in h ==> r[k] == h[k])
  {
    var signature := DateSignature(creds.secretKey, date, mac);
    ParseAuthorizationValue(creds.accessKey, signature);
    h[DateHeader := [date]][AuthorizationHeader := [AuthorizationValue(creds.accessKey, signature)]]
  }

  /**
   The request's method, its other headers and the session token play no
   part in what `sign` writes: two calls with the same access key, secret
   key and time write the same two header values.
   */
  lemma SignatureIgnoresRequest(h1: map<string, seq<string>>, h2: map<string, seq<string>>,
                                c1: Credentials, c2: Credentials, date: string, mac: Mac)
    requires c1.accessKey == c2.accessKey && c1.secretKey == c2.secretKey
    ensures SignedHeaders(h1, c1, date, mac)[DateHeader] == SignedHeaders(h2, c2, date, mac)[DateHeader]
    ensures SignedHeaders(h1, c1, date, mac)[AuthorizationHeader]
         == SignedHeaders(h2, c2, date, mac)[AuthorizationHeader]
  {
  }

  /**
   `sign(auth, method, headers)`. `creds` is what `auth.Credentials()`
   returns, `now` is `time.Now().UTC()` and `mac` is HMAC-SHA256. Returns the
   access key.
   */
  method Sign(creds: Credentials, httpMethod: string, headers: HeaderMap, now: DateTime, mac: Mac)
    returns (accessKey: string)
    requires now.Valid()
    modifies headers
    ensures accessKey == creds.accessKey
    ensures headers.fields == SignedHeaders(old(headers.fields), creds, FormatDate(now), mac)
  {
    var secretKey;
    accessKey, secretKey := creds.accessKey, creds.secretKey;
    var date := FormatDate(now);
    var signature := Base64.Encode(mac(secretKey, date));
    var authHeader := AuthorizationValue(accessKey, signature);
    headers.fields := headers.fields[DateHeader := [date]];
    headers.fields := headers.fields[AuthorizationHeader := [authHeader]];
  }
}
