/**
 Standard base64 (section 4 of RFC 4648, with `=` padding), as
 `base64.StdEncoding` encodes a digest. The decoder is the inverse that a
 verifier of the signature applies; the round trip shows that the encoding
 loses nothing.
 */
module Base64 {
  import opened Aws

  /** The character for a 6-bit value: `A`-`Z`, `a`-`z`, `0`-`9`, `+`, `/`. */
  function CharOf(i: int): (c: char)
    requires 0 <= i < 64
  {
    if i < 26 then ('A' as int + i) as char
    else if i < 52 then ('a' as int + (i - 26)) as char
    else if i < 62 then ('0' as int + (i - 52)) as char
    else if i == 62 then '+'
    else '/'
  }

  predicate IsAlphabet(c: char)
  {
    ('A' <= c <= 'Z') || ('a' <= c <= 'z') || ('0' <= c <= '9') || c == '+' || c == '/'
  }

  /** The 6-bit value of an alphabet character. */
  function ValueOf(c: char): (i: int)
    requires IsAlphabet(c)
    ensures 0 <= i < 64 && CharOf(i) == c
  {
    if 'A' <= c <= 'Z' then c as int - 'A' as int
    else if 'a' <= c <= 'z' then c as int - 'a' as int + 26
    else if '0' <= c <= '9' then c as int - '0' as int + 52
    else if c == '+' then 62
    else 63
  }

  lemma CharOfInAlphabet(i: int)
    requires 0 <= i < 64
    ensures IsAlphabet(CharOf(i)) && ValueOf(CharOf(i)) == i
  {
  }

  /** `EncodedLen(n)` for a padded encoding: four characters per started group of three bytes. */
  function EncodedLen(n: nat): (r: nat)
    ensures r % 4 == 0
    ensures 4 * n <= 3 * r < 4 * n + 12
  {
    (n + 2) / 3 * 4
  }

  /** Three bytes become four characters. */
  function EncodeGroup(b0: byte, b1: byte, b2: byte): (r: string)
    ensures |r| == 4 && forall k :: 0 <= k < 4 ==> IsAlphabet(r[k])
  {
    [CharOf(b0 / 4), CharOf(b0 % 4 * 16 + b1 / 16), CharOf(b1 % 16 * 4 + b2 / 64), CharOf(b2 % 64)]
  }

  /**
   `StdEncoding.Encode`: whole groups of three bytes, then one or two
   remaining bytes padded with `=` to a full group of four characters.
   */
  function Encode(b: seq<byte>): (r: string)
    ensures |r| == EncodedLen(|b|)
  {
    if |b| == 0 then ""
    else if |b| == 1 then
      [CharOf(b[0] / 4), CharOf(b[0] % 4 * 16), '=', '=']
    else if |b| == 2 then
      [CharOf(b[0] / 4), CharOf(b[0] % 4 * 16 + b[1] / 16), CharOf(b[1] % 16 * 4), '=']
    else
      EncodeGroup(b[0], b[1], b[2]) + Encode(b[3..])
  }

  /** A digest always encodes to 44 characters, the last one `=` padding. */
  lemma DigestEncodedLength(d: Digest)
    ensures |Encode(d)| == 44
    ensures Encode(d)[43] == '='
  {
    EncodePadded(d);
  }

  /** Two bytes over a whole number of groups leave one `=` at the end. */
  lemma {:induction false} EncodePadded(b: seq<byte>)
    requires |b| % 3 == 2
    ensures |Encode(b)| > 0 && Encode(b)[|Encode(b)| - 1] == '='
    decreases |b|
  {
    if |b| > 2 {
      var g, t := EncodeGroup(b[0], b[1], b[2]), Encode(b[3..]);
      EncodePadded(b[3..]);
      EncodeUnfold(b);
      assert Encode(b) == g + t && |t| > 0;
      assert (g + t)[|g + t| - 1] == t[|t| - 1];
    } else {
      assert Encode(b)[3] == '=';
    }
  }

  /**
   Four characters of one group; `last` allows `=` padding. The bits of the
   last character before the padding that carry no byte must be zero, so
   every accepted group is one the encoder writes.
   */
  function DecodeGroup(c0: char, c1: char, c2: char, c3: char, last: bool): (r: Option<seq<byte>>)
    ensures r.Some? ==> 1 <= |r.value| <= 3
  {
    if !IsAlphabet(c0) || !IsAlphabet(c1) then None
    else
      var v0, v1 := ValueOf(c0), ValueOf(c1);
      if IsAlphabet(c2) && IsAlphabet(c3) then
        var v2, v3 := ValueOf(c2), ValueOf(c3);
        Some([v0 * 4 + v1 / 16, v1 % 16 * 16 + v2 / 4, v2 % 4 * 64 + v3])
      else if last && IsAlphabet(c2) && c3 == '=' && ValueOf(c2) % 4 == 0 then
        var v2 := ValueOf(c2);
        Some([v0 * 4 + v1 / 16, v1 % 16 * 16 + v2 / 4])
      else if last && c2 == '=' && c3 == '=' && v1 % 16 == 0 then
        Some([v0 * 4 + v1 / 16])
      else None
  }

  /**
   The strict inverse of `Encode`: `None` for any input the encoder cannot
   have written. It differs from `StdEncoding.DecodeString` in two ways: it
   rejects non-zero bits in the last character before the padding, which
   Go's default encoding accepts (only its `Strict()` variant rejects
   them), and it does not skip line breaks.
   */
  function Decode(s: string): (r: Option<seq<byte>>)
    decreases |s|
  {
    if |s| == 0 then Some([])
    else if |s| < 4 then None
    else
      match DecodeGroup(s[0], s[1], s[2], s[3], |s| == 4)
      case None => None
      case Some(g) =>
        if |s| == 4 then Some(g)
        else if |g| < 3 then None
        else
          match Decode(s[4..])
          case None => None
          case Some(rest) => Some(g + rest)
  }

  lemma GroupRoundTrip(b0: byte, b1: byte, b2: byte, last: bool)
    ensures var g := EncodeGroup(b0, b1, b2);
      DecodeGroup(g[0], g[1], g[2], g[3], last) == Some([b0, b1, b2])
  {
    var v0, v1, v2, v3 := b0 / 4, b0 % 4 * 16 + b1 / 16, b1 % 16 * 4 + b2 / 64, b2 % 64;
    CharOfInAlphabet(v0);
    CharOfInAlphabet(v1);
    CharOfInAlphabet(v2);
    CharOfInAlphabet(v3);
    assert v1 / 16 == b0 % 4 && v1 % 16 == b1 / 16;
    assert v2 / 4 == b1 % 16 && v2 % 4 == b2 / 64;
  }

  /** Decoding a full group followed by more input. */
  lemma DecodeAppend(g: string, rest: string, x: seq<byte>, y: seq<byte>)
    requires |g| == 4 && |x| == 3
    requires DecodeGroup(g[0], g[1], g[2], g[3], rest == "") == Some(x)
    requires Decode(rest) == Some(y)
    ensures Decode(g + rest) == Some(x + y)
  {
    var s := g + rest;
    assert s[0] == g[0] && s[1] == g[1] && s[2] == g[2] && s[3] == g[3];
    assert s[4..] == rest;
    if rest == "" {
      assert x + y == x;
    }
  }

  /** One trailing byte decodes back from its `==`-padded group. */
  lemma DecodeEncodeOne(b0: byte)
    ensures Decode(Encode([b0])) == Some([b0])
  {
    var v0, v1 := b0 / 4, b0 % 4 * 16;
    CharOfInAlphabet(v0);
    CharOfInAlphabet(v1);
    var s := [CharOf(v0), CharOf(v1), '=', '='];
    assert Encode([b0]) == s;
    assert DecodeGroup(s[0], s[1], s[2], s[3], true) == Some([v0 * 4 + v1 / 16]);
  }

  /** Two trailing bytes decode back from their `=`-padded group. */
  lemma DecodeEncodeTwo(b0: byte, b1: byte)
    ensures Decode(Encode([b0, b1])) == Some([b0, b1])
  {
    var v0, v1, v2 := b0 / 4, b0 % 4 * 16 + b1 / 16, b1 % 16 * 4;
    CharOfInAlphabet(v0);
    CharOfInAlphabet(v1);
    CharOfInAlphabet(v2);
    var s := [CharOf(v0), CharOf(v1), CharOf(v2), '='];
    assert Encode([b0, b1]) == s;
    assert DecodeGroup(s[0], s[1], s[2], s[3], true) == Some([v0 * 4 + v1 / 16, v1 % 16 * 16 + v2 / 4]);
  }

  /** Decoding undoes encoding: the base64 signature determines the digest. */
  lemma {:induction false} DecodeEncode(b: seq<byte>)
    ensures Decode(Encode(b)) == Some(b)
  {
    if |b| == 0 {
    } else if |b| == 1 {
      DecodeEncodeOne(b[0]);
      assert b == [b[0]];
    } else if |b| == 2 {
      DecodeEncodeTwo(b[0], b[1]);
      assert b == [b[0], b[1]];
    } else {
      DecodeEncode(b[3..]);
      DecodeEncodeStep(b);
      assert [b[0], b[1], b[2]] + b[3..] == b;
    }
  }

  lemma DecodeEncodeStep(b: seq<byte>)
    requires |b| >= 3 && Decode(Encode(b[3..])) == Some(b[3..])
    ensures Decode(Encode(b)) == Some([b[0], b[1], b[2]] + b[3..])
  {
    var g := EncodeGroup(b[0], b[1], b[2]);
    var rest := Encode(b[3..]);
    GroupRoundTrip(b[0], b[1], b[2], rest == "");
    DecodeAppend(g, rest, [b[0], b[1], b[2]], b[3..]);
    EncodeUnfold(b);
  }

  lemma EncodeUnfold(b: seq<byte>)
    requires |b| >= 3
    ensures Encode(b) == EncodeGroup(b[0], b[1], b[2]) + Encode(b[3..])
  {
  }

  /** The test vectors of section 10 of RFC 4648. */
  lemma Rfc4648Vectors()
    ensures Encode([]) == ""
    ensures Encode([102]) == "Zg=="
    ensures Encode([102, 111]) == "Zm8="
    ensures Encode([102, 111, 111]) == "Zm9v"
    ensures Encode([102, 111, 111, 98]) == "Zm9vYg=="
    ensures Encode([102, 111, 111, 98, 97]) == "Zm9vYmE="
    ensures Encode([102, 111, 111, 98, 97, 114]) == "Zm9vYmFy"
  {
    FooGroup();
    EncodeUnfold([102, 111, 111, 98]);
    assert [102, 111, 111, 98][3..] == [98];
    EncodeUnfold([102, 111, 111, 98, 97]);
    assert [102, 111, 111, 98, 97][3..] == [98, 97];
    EncodeUnfold([102, 111, 111, 98, 97, 114]);
    assert [102, 111, 111, 98, 97, 114][3..] == [98, 97, 114];
    assert Encode([98, 97, 114]) == "YmFy" by {
      EncodeUnfold([98, 97, 114]);
      assert CharOf(24) == 'Y' && CharOf(38) == 'm' && CharOf(5) == 'F' && CharOf(50) == 'y';
    }
  }

  /** The bytes of "foo" form one whole group. */
  lemma FooGroup()
    ensures EncodeGroup(102, 111, 111) == "Zm9v"
  {
    assert CharOf(25) == 'Z' && CharOf(38) == 'm' && CharOf(61) == '9' && CharOf(47) == 'v';
  }

  /** Distinct digests give distinct signatures. */
  lemma EncodeInjective(a: seq<byte>, b: seq<byte>)
    requires Encode(a) == Encode(b)
    ensures a == b
  {
    DecodeEncode(a);
    DecodeEncode(b);
  }

  /** Three bytes packed from four 6-bit values unpack to the same values. */
  lemma GroupValues(v0: int, v1: int, v2: int, v3: int)
    requires 0 <= v0 < 64 && 0 <= v1 < 64 && 0 <= v2 < 64 && 0 <= v3 < 64
    ensures var b0, b1, b2 := v0 * 4 + v1 / 16, v1 % 16 * 16 + v2 / 4, v2 % 4 * 64 + v3;
      0 <= b0 < 256 && 0 <= b1 < 256 && 0 <= b2 < 256
      && b0 / 4 == v0 && b0 % 4 * 16 + b1 / 16 == v1 && b1 % 16 * 4 + b2 / 64 == v2 && b2 % 64 == v3
  {
  }

  /** A decoded full group is re-encoded as the same four characters. */
  lemma GroupEncodes(c0: char, c1: char, c2: char, c3: char, last: bool)
    requires IsAlphabet(c0) && IsAlphabet(c1) && IsAlphabet(c2) && IsAlphabet(c3)
    ensures var g := DecodeGroup(c0, c1, c2, c3, last);
      g.Some? && |g.value| == 3 && EncodeGroup(g.value[0], g.value[1], g.value[2]) == [c0, c1, c2, c3]
  {
    var v0, v1, v2, v3 := ValueOf(c0), ValueOf(c1), ValueOf(c2), ValueOf(c3);
    GroupValues(v0, v1, v2, v3);
    var b0, b1, b2 := v0 * 4 + v1 / 16, v1 % 16 * 16 + v2 / 4, v2 % 4 * 64 + v3;
    assert DecodeGroup(c0, c1, c2, c3, last) == Some([b0, b1, b2]);
    EncodeValues(b0, b1, b2, v0, v1, v2, v3);
  }

  lemma EncodeValues(b0: byte, b1: byte, b2: byte, v0: int, v1: int, v2: int, v3: int)
    requires 0 <= v0 < 64 && 0 <= v1 < 64 && 0 <= v2 < 64 && 0 <= v3 < 64
    requires b0 / 4 == v0 && b0 % 4 * 16 + b1 / 16 == v1 && b1 % 16 * 4 + b2 / 64 == v2 && b2 % 64 == v3
    ensures EncodeGroup(b0, b1, b2) == [CharOf(v0), CharOf(v1), CharOf(v2), CharOf(v3)]
  {
  }

  /** A decoded `=`-padded group is re-encoded as the same four characters. */
  lemma PaddedGroupEncodes(c0: char, c1: char, c2: char, c3: char)
    requires DecodeGroup(c0, c1, c2, c3, true).Some? && (c2 == '=' || c3 == '=')
    ensures Encode(DecodeGroup(c0, c1, c2, c3, true).value) == [c0, c1, c2, c3]
  {
    var v0, v1 := ValueOf(c0), ValueOf(c1);
    var b0 := v0 * 4 + v1 / 16;
    assert b0 / 4 == v0 && b0 % 4 == v1 / 16;
    if c2 == '=' {
      assert v1 == v1 / 16 * 16;
    } else {
      var v2 := ValueOf(c2);
      var b1 := v1 % 16 * 16 + v2 / 4;
      assert b1 / 16 == v1 % 16 && b1 % 16 == v2 / 4 && v2 == v2 / 4 * 4;
    }
  }

  /** What a successful decode of a non-empty string consists of. */
  lemma DecodeSplit(s: string, b: seq<byte>)
    requires |s| > 0 && Decode(s) == Some(b)
    ensures |s| >= 4
    ensures var g := DecodeGroup(s[0], s[1], s[2], s[3], |s| == 4);
      g.Some? && (|s| == 4 ==> b == g.value)
      && (|s| > 4 ==> |g.value| == 3 && Decode(s[4..]).Some? && b == g.value + Decode(s[4..]).value)
  {
  }

  /**
   Encoding undoes decoding: the only string that decodes to `b` is the
   standard encoding of `b`.
   */
  lemma {:induction false} EncodeDecode(s: string, b: seq<byte>)
    requires Decode(s) == Some(b)
    ensures s == Encode(b)
    decreases |s|
  {
    if |s| > 0 {
      DecodeSplit(s, b);
      if IsAlphabet(s[2]) && IsAlphabet(s[3]) {
        GroupEncodes(s[0], s[1], s[2], s[3], |s| == 4);
        if |s| > 4 {
          var rest := Decode(s[4..]).value;
          EncodeDecode(s[4..], rest);
          EncodeDecodeStep(s, b, rest);
        } else {
          EncodeDecodeStep(s, b, []);
        }
      } else {
        PaddedGroupEncodes(s[0], s[1], s[2], s[3]);
      }
    }
  }

  lemma EncodeDecodeStep(s: string, b: seq<byte>, rest: seq<byte>)
    requires |s| >= 4 && |b| >= 3 && b[3..] == rest && s[4..] == Encode(rest)
    requires EncodeGroup(b[0], b[1], b[2]) == [s[0], s[1], s[2], s[3]]
    ensures s == Encode(b)
  {
    EncodeUnfold(b);
    assert s == [s[0], s[1], s[2], s[3]] + s[4..];
  }

  /** A digest has exactly one base64 signature. */
  lemma DecodesToDigest(s: string, d: Digest)
    requires Decode(s) == Some(d)
    ensures s == Encode(d) && |s| == 44
  {
    EncodeDecode(s, d);
    DigestEncodedLength(d);
  }
}
