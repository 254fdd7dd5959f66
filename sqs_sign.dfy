/**
 The SQS request signer (AWS Signature Version 2, query-string form).
 `Sign` adds the credential fields to the caller's parameter map, builds
 the string to sign from the method, host, path and the sorted encoded
 parameters, and writes the base64 HMAC-SHA256 of it back as `Signature`.
 */
module SqsSign {
  import opened Aws
  import opened GoStrings
  import Base64

  const AccessKeyField := "AWSAccessKeyId"
  const VersionField := "SignatureVersion"
  const MethodField := "SignatureMethod"
  const TokenField := "SecurityToken"
  const SignatureField := "Signature"

  /** The names `sign` writes; every other key of the map is left alone. */
  predicate IsSigningField(k: string)
  {
    k == AccessKeyField || k == VersionField || k == MethodField || k == TokenField || k == SignatureField
  }

  /**
   The parameter map owned by the caller. A Go map is a reference, so the
   signer's writes are seen by the caller after `Sign` returns.
   */
  class ParamMap {
    var entries: map<string, string>

    constructor (entries: map<string, string>)
      ensures this.entries == entries
    {
      this.entries := entries;
    }
  }

  /** One element of the list that is sorted: `Encode(k) + "=" + Encode(v)`. */
  function EncodedPair(encode: Encoder, k: string, v: string): (e: string)
    ensures |e| == |encode(k)| + 1 + |encode(v)|
    ensures e[..|encode(k)|] == encode(k) && e[|encode(k)|] == '=' && e[|encode(k)| + 1..] == encode(v)
  {
    encode(k) + "=" + encode(v)
  }

  /**
   When the encoder never emits `=`, as a percent-encoder does not, the
   first `=` of an element separates its encoded key from its encoded value.
   */
  lemma EncodedPairSplit(encode: Encoder, k: string, v: string)
    requires '=' !in encode(k)
    ensures var e, i := EncodedPair(encode, k, v), FirstIndex(EncodedPair(encode, k, v), '=');
      i < |e| && e[..i] == encode(k) && e[i + 1..] == encode(v)
  {
    Cut(encode(k), '=', encode(v));
  }

  /** The map after the credential fields are written and before signing. */
  function WithCredentials(m: map<string, string>, creds: Credentials): (r: map<string, string>)
    ensures AccessKeyField in r && r[AccessKeyField] == creds.accessKey
    ensures VersionField in r && r[VersionField] == "2"
    ensures MethodField in r && r[MethodField] == "HmacSHA256"
    ensures creds.HasToken() ==> TokenField in r && r[TokenField] == creds.token
    ensures !creds.HasToken() ==> (TokenField in r <==> TokenField in m)
    ensures !creds.HasToken() && TokenField in m ==> r[TokenField] == m[TokenField]
    ensures forall k :: k in m ==> k in r
    ensures forall k :: k in r && !IsSigningField(k) ==> k in m && r[k] == m[k]
    ensures SignatureField in r <==> SignatureField in m
    ensures SignatureField in m ==> r[SignatureField] == m[SignatureField]
  {
    var r := m[AccessKeyField := creds.accessKey][VersionField := "2"][MethodField := "HmacSHA256"];
    if creds.HasToken() then r[TokenField := creds.token] else r
  }

  /**
   The encoded elements of all entries of `m`, one per key, listed in one
   fixed but unspecified order of the keys.
   */
  ghost function Elements(m: map<string, string>, encode: Encoder): (s: seq<string>)
    ensures |s| == |m|
    decreases |m|
  {
    if |m| == 0 then []
    else
      var k :| k in m;
      assert |m - {k}| == |m| - 1 by { assert (m - {k}).Keys == m.Keys - {k}; }
      [EncodedPair(encode, k, m[k])] + Elements(m - {k}, encode)
  }

  /** The elements as a multiset: what the order of iteration cannot change. */
  ghost function EncodedPairs(m: map<string, string>, encode: Encoder): multiset<string>
  {
    multiset(Elements(m, encode))
  }

  /**
   Taking out any one key removes exactly that key's element, whichever key
   `Elements` happened to list first.
   */
  lemma {:induction false} EncodedPairsRemove(m: map<string, string>, encode: Encoder, k: string)
    requires k in m
    ensures EncodedPairs(m, encode) == multiset{EncodedPair(encode, k, m[k])} + EncodedPairs(m - {k}, encode)
    decreases |m|
  {
    var j := FirstListed(m, encode);
    if j != k {
      var mj, mk := m - {j}, m - {k};
      assert mj.Keys == m.Keys - {j} && mk.Keys == m.Keys - {k};
      assert k in mj && mj[k] == m[k] && j in mk && mk[j] == m[j];
      assert mj - {k} == mk - {j};
      EncodedPairsRemove(mj, encode, k);
      EncodedPairsRemove(mk, encode, j);
    }
  }

  /** No element contains `&` when the encoder never emits one. */
  lemma {:induction false} ElementsAmpersandFree(m: map<string, string>, encode: Encoder)
    requires forall t :: '&' !in encode(t)
    ensures forall x :: x in Elements(m, encode) ==> '&' !in x
    decreases |m|
  {
    if |m| > 0 {
      var j :| j in m && Elements(m, encode) == [EncodedPair(encode, j, m[j])] + Elements(m - {j}, encode);
      assert (m - {j}).Keys == m.Keys - {j};
      ElementsAmpersandFree(m - {j}, encode);
      var e := EncodedPair(encode, j, m[j]);
      assert e == encode(j) + "=" + encode(m[j]);
      assert '&' !in encode(j) && '&' !in encode(m[j]);
    }
  }

  /** The key whose element `Elements` lists first. */
  lemma FirstListed(m: map<string, string>, encode: Encoder) returns (j: string)
    requires |m| > 0
    ensures j in m
    ensures EncodedPairs(m, encode) == multiset{EncodedPair(encode, j, m[j])} + EncodedPairs(m - {j}, encode)
  {
    j :| j in m && Elements(m, encode) == [EncodedPair(encode, j, m[j])] + Elements(m - {j}, encode);
  }

  /**
   The sorted, `&`-joined encoded parameters: `strings.Join` of the sorted
   `sarray`.
   */
  ghost function CanonicalQuery(m: map<string, string>, encode: Encoder): (q: string)
    ensures |m| == 0 ==> q == ""
    ensures (|m| > 0 && forall t :: '&' !in encode(t)) ==>
              var pieces := SplitAll(q, '&');
              Sorted(pieces) && multiset(pieces) == EncodedPairs(m, encode)
  {
    var sorted := Sort(Elements(m, encode));
    assert |sorted| == |multiset(sorted)| == |m|;
    if |m| > 0 && forall t :: '&' !in encode(t) then
      assert SplitAll(Join(sorted, "&"), '&') == sorted by {
        ElementsAmpersandFree(m, encode);
        forall x | x in sorted ensures '&' !in x {
          assert x in multiset(sorted);
        }
        SplitJoin(sorted, '&');
      }
      Join(sorted, "&")
    else
      Join(sorted, "&")
  }

  /** The string to sign: `method\nhost\npath\n` followed by the query. */
  function Payload(httpMethod: string, host: string, path: string, joined: string): (p: string)
    ensures |p| == |httpMethod| + |host| + |path| + |joined| + 3
    ensures p[..|httpMethod|] == httpMethod && p[|httpMethod|] == '\n'
    ensures p[|p| - |joined|..] == joined && p[|p| - |joined| - 1] == '\n'
  {
    httpMethod + "\n" + host + "\n" + path + "\n" + joined
  }

  /**
   The string the secret key signs; it splits back into method, host, path
   and query when the first three hold no newline.
   */
  ghost function StringToSign(m: map<string, string>, creds: Credentials, httpMethod: string,
                              host: string, path: string, encode: Encoder): (p: string)
    ensures '\n' !in httpMethod && '\n' !in host && '\n' !in path ==>
              ParsePayload(p) == (httpMethod, host, path, CanonicalQuery(WithCredentials(m, creds), encode))
  {
    var query := CanonicalQuery(WithCredentials(m, creds), encode);
    if '\n' !in httpMethod && '\n' !in host && '\n' !in path then
      ParsePayloadRoundTrip(httpMethod, host, path, query);
      Payload(httpMethod, host, path, query)
    else
      Payload(httpMethod, host, path, query)
  }

  /** The whole effect of `sign` on the map `m`. */
  ghost function Signed(m: map<string, string>, creds: Credentials, httpMethod: string,
                        host: string, path: string, encode: Encoder, mac: Mac): (r: map<string, string>)
    ensures AccessKeyField in r && r[AccessKeyField] == creds.accessKey
    ensures VersionField in r && r[VersionField] == "2"
    ensures MethodField in r && r[MethodField] == "HmacSHA256"
    ensures creds.HasToken() ==> TokenField in r && r[TokenField] == creds.token
    ensures !creds.HasToken() ==> (TokenField in r <==> TokenField in m)
    ensures !creds.HasToken() && TokenField in m ==> r[TokenField] == m[TokenField]
    ensures forall k :: k in m ==> k in r
    ensures forall k :: k in r && !IsSigningField(k) ==> k in m && r[k] == m[k]
    ensures SignatureField in r && |r[SignatureField]| == 44
    ensures Base64.Decode(r[SignatureField]) ==
            Some(mac(creds.secretKey, StringToSign(m, creds, httpMethod, host, path, encode)))
    ensures r[SignatureField]
         == Base64.Encode(mac(creds.secretKey, StringToSign(m, creds, httpMethod, host, path, encode)))
  {
    var m1 := WithCredentials(m, creds);
    var digest := mac(creds.secretKey, StringToSign(m, creds, httpMethod, host, path, encode));
    var signature := Base64.Encode(digest);
    Base64.DigestEncodedLength(digest);
    Base64.DecodeEncode(digest);
    assert |signature| == 44 && Base64.Decode(signature) == Some(digest);
    m1[SignatureField := signature]
  }

  lemma SignedUnfold(m: map<string, string>, creds: Credentials, httpMethod: string,
                     host: string, path: string, encode: Encoder, mac: Mac)
    ensures Signed(m, creds, httpMethod, host, path, encode, mac)
         == WithCredentials(m, creds)[SignatureField := Base64.Encode(mac(creds.secretKey,
              Payload(httpMethod, host, path, CanonicalQuery(WithCredentials(m, creds), encode))))]
  {
  }

  /**
   The `for k, v := range params` loop. Go visits the keys in an unspecified
   order; here each step picks any key not yet visited. Whatever the order,
   the elements collected are those of every entry, one each.
   */
  method EncodePairs(params: map<string, string>, encode: Encoder) returns (sarray: seq<string>)
    ensures multiset(sarray) == EncodedPairs(params, encode)
  {
    sarray := [];
    var rest := params;
    while rest != map[]
      invariant forall k :: k in rest ==> k in params && rest[k] == params[k]
      invariant multiset(sarray) + EncodedPairs(rest, encode) == EncodedPairs(params, encode)
      decreases |rest|
    {
      var k :| k in rest;
      EncodedPairsRemove(rest, encode, k);
      sarray := sarray + [EncodedPair(encode, k, rest[k])];
      assert (rest - {k}).Keys == rest.Keys - {k};
      rest := rest - {k};
    }
    assert Elements(rest, encode) == [];
  }

  /** The elements produced when the keys are visited in the order `keys`. */
  function ListedElements(m: map<string, string>, encode: Encoder, keys: seq<string>): (s: seq<string>)
    requires forall k :: k in keys ==> k in m
    ensures |s| == |keys|
    ensures forall i :: 0 <= i < |keys| ==> s[i] == EncodedPair(encode, keys[i], m[keys[i]])
  {
    if keys == [] then [] else [EncodedPair(encode, keys[0], m[keys[0]])] + ListedElements(m, encode, keys[1..])
  }

  /**
   The query does not depend on the order in which the keys are visited:
   for any listing `keys` of the keys of `m`, each exactly once, sorting the
   elements produced in that order and joining them gives `CanonicalQuery`.
   */
  lemma IterationOrderIrrelevant(m: map<string, string>, encode: Encoder, keys: seq<string>)
    requires forall i, j :: 0 <= i < j < |keys| ==> keys[i] != keys[j]
    requires forall k :: k in keys <==> k in m
    ensures Join(Sort(ListedElements(m, encode, keys)), "&") == CanonicalQuery(m, encode)
  {
    ListedPairs(m, encode, keys);
    SortedUnique(Sort(ListedElements(m, encode, keys)), Sort(Elements(m, encode)));
  }

  lemma {:induction false} ListedPairs(m: map<string, string>, encode: Encoder, keys: seq<string>)
    requires forall i, j :: 0 <= i < j < |keys| ==> keys[i] != keys[j]
    requires forall k :: k in keys <==> k in m
    ensures multiset(ListedElements(m, encode, keys)) == EncodedPairs(m, encode)
    decreases |keys|
  {
    if |keys| == 0 {
      assert m == map[];
    } else {
      var k, rest := keys[0], keys[1..];
      var m' := m - {k};
      ListingTail(m, keys);
      ListedPairs(m', encode, rest);
      forall i | 0 <= i < |rest| ensures rest[i] in m' && rest[i] in m && m'[rest[i]] == m[rest[i]] {
        assert rest[i] in rest;
      }
      ListedAgree(m', m, encode, rest);
      var l, l' := ListedElements(m, encode, keys), ListedElements(m', encode, rest);
      assert l == [EncodedPair(encode, k, m[k])] + l';
      assert multiset(l) == multiset{EncodedPair(encode, k, m[k])} + multiset(l');
      EncodedPairsRemove(m, encode, k);
    }
  }

  /** Listings of the same keys agree when the maps agree on those keys. */
  lemma {:induction false} ListedAgree(m1: map<string, string>, m2: map<string, string>, encode: Encoder,
                                       keys: seq<string>)
    requires forall i :: 0 <= i < |keys| ==> keys[i] in m1 && keys[i] in m2 && m1[keys[i]] == m2[keys[i]]
    ensures forall k :: k in keys ==> k in m1 && k in m2
    ensures ListedElements(m1, encode, keys) == ListedElements(m2, encode, keys)
  {
    if keys != [] {
      ListedAgree(m1, m2, encode, keys[1..]);
    }
  }

  /** Dropping the first key from a listing lists the rest of the map. */
  lemma ListingTail(m: map<string, string>, keys: seq<string>)
    requires |keys| > 0
    requires forall i, j :: 0 <= i < j < |keys| ==> keys[i] != keys[j]
    requires forall k :: k in keys <==> k in m
    ensures forall i, j :: 0 <= i < j < |keys[1..]| ==> keys[1..][i] != keys[1..][j]
    ensures forall k :: k in keys[1..] <==> k in m - {keys[0]}
  {
    var rest := keys[1..];
    forall x | x in rest ensures x in m - {keys[0]} {
      var i :| 0 <= i < |rest| && rest[i] == x;
      assert keys[i + 1] == x;
    }
    forall x | x in m - {keys[0]} ensures x in rest {
      var i :| 0 <= i < |keys| && keys[i] == x;
      assert rest[i - 1] == x;
    }
  }

  /** A sorted arrangement of the elements of `m`, joined, is the canonical query. */
  lemma QueryOfSortedPairs(m: map<string, string>, encode: Encoder, s: seq<string>)
    requires Sorted(s) && multiset(s) == EncodedPairs(m, encode)
    ensures Join(s, "&") == CanonicalQuery(m, encode)
  {
    SortedUnique(s, Sort(Elements(m, encode)));
  }

  /**
   A `Signature` entry present before the call is one of the signed
   parameters; only afterwards is it overwritten.
   */
  lemma OldSignatureIsSigned(m: map<string, string>, creds: Credentials, encode: Encoder)
    requires SignatureField in m
    ensures EncodedPair(encode, SignatureField, m[SignatureField]) in Sort(Elements(WithCredentials(m, creds), encode))
  {
    var m1 := WithCredentials(m, creds);
    EncodedPairsRemove(m1, encode, SignatureField);
    assert EncodedPair(encode, SignatureField, m[SignatureField]) in multiset(Sort(Elements(m1, encode)));
  }

  /** Splits a payload back into method, host, path and query. */
  function ParsePayload(p: string): (string, string, string, string)
  {
    var i := FirstIndex(p, '\n');
    var r1 := if i < |p| then p[i + 1..] else "";
    var j := FirstIndex(r1, '\n');
    var r2 := if j < |r1| then r1[j + 1..] else "";
    var k := FirstIndex(r2, '\n');
    var r3 := if k < |r2| then r2[k + 1..] else "";
    (p[..i], r1[..j], r2[..k], r3)
  }

  /**
   When method, host and path hold no newline the payload can be split back
   into its four parts, so the signature commits to each of them.
   */
  lemma ParsePayloadRoundTrip(httpMethod: string, host: string, path: string, joined: string)
    requires '\n' !in httpMethod && '\n' !in host && '\n' !in path
    ensures ParsePayload(Payload(httpMethod, host, path, joined)) == (httpMethod, host, path, joined)
  {
    var r2 := path + ['\n'] + joined;
    var r1 := host + ['\n'] + r2;
    var p := httpMethod + ['\n'] + r1;
    assert Payload(httpMethod, host, path, joined) == p;
    assert ParsePayload(p) == (httpMethod, host, path, joined) by {
      Cut(httpMethod, '\n', r1);
      Cut(host, '\n', r2);
      Cut(path, '\n', joined);
    }
  }

  /**
   `sign(auth, method, path, params, host)`. `creds` is what
   `auth.Credentials()` returns; `encode` is `aws.Encode`; `mac` is
   HMAC-SHA256.
   */
  method Sign(creds: Credentials, httpMethod: string, path: string, params: ParamMap, host: string,
              encode: Encoder, mac: Mac)
    modifies params
    ensures params.entries == Signed(old(params.entries), creds, httpMethod, host, path, encode, mac)
  {
    var accessKey, secretKey, token := creds.accessKey, creds.secretKey, creds.token;
    params.entries := params.entries[AccessKeyField := accessKey];
    params.entries := params.entries[VersionField := "2"];
    params.entries := params.entries[MethodField := "HmacSHA256"];
    if creds.HasToken() {
      params.entries := params.entries[TokenField := token];
    }
    ghost var m1 := params.entries;
    assert m1 == WithCredentials(old(params.entries), creds);

    var pairs := EncodePairs(params.entries, encode);
    var sarray := new string[|pairs|](i requires 0 <= i < |pairs| => pairs[i]);
    assert sarray[..] == pairs;
    SortStrings(sarray);
    var joined := Join(sarray[..], "&");
    QueryOfSortedPairs(m1, encode, sarray[..]);
    assert joined == CanonicalQuery(m1, encode);
    var payload := Payload(httpMethod, host, path, joined);
    var signature := Base64.Encode(mac(secretKey, payload));
    SignedUnfold(old(params.entries), creds, httpMethod, host, path, encode, mac);

    params.entries := params.entries[SignatureField := signature];
  }
}
