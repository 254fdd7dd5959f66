/**
 Types shared by the two legacy request signers: the credential snapshot a
 signer reads, bytes and 32-byte digests, and the two collaborators a signer
 calls but whose code is not part of this model (HMAC-SHA256 and the
 percent-encoder `aws.Encode`), which are passed in as function values.
 */
module Aws {

  datatype Option<+T> = None | Some(value: T)

  /** A Go string is a byte sequence; here each char stands for one byte. */
  type byte = x: int | 0 <= x < 256

  /** The 32-byte output of HMAC-SHA256 (`hash.Size()` of sha256). */
  type Digest = s: seq<byte> | |s| == 32 witness seq(32, _ => 0)

  /** HMAC-SHA256 keyed by the first argument over the bytes of the second. */
  type Mac = (string, string) -> Digest

  /** `aws.Encode`: the percent-encoder applied to keys and values. */
  type Encoder = string -> string

  /**
   The triple returned by `auth.Credentials()`: access key, secret key and
   session token (empty when the credentials are long-lived).
   */
  datatype Credentials = Credentials(accessKey: string, secretKey: string, token: string)
  {
    /** The session token is only sent when it is non-empty. */
    predicate HasToken() { token != "" }
  }
}
