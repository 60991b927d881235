/**
 What the package delegates: hashing, signatures, certificates, RFC 3339 text and curve
 membership, as parameters of every theorem.
 */
module Primitives {
  import opened Basics

  /** An instant in nanoseconds; 0 is Go's zero time. */
  type Time = int

  const ZERO_TIME: Time := 0
  const SECOND: int := 1_000_000_000

  /** RFC 3339 text carries whole seconds. */
  function TruncateToSecond(t: Time): Time { t - t % SECOND }

  datatype Curve = P256 | P384 | P521 | OtherCurve

  /** A public key: an EC point in the uncompressed SEC 1 form, or a key of another kind. */
  datatype PublicKey = EcKey(curve: Curve, point: bytes) | NonEcKey

  datatype Window = Window(notBefore: Time, notAfter: Time)

  datatype Env = Env(
    hash: (bytes, bytes) -> bytes,              // digest algorithm name, data
    sigOk: (PublicKey, bytes, bytes) -> bool,   // key, signed bytes, signature
    certWindow: bytes -> Option<Window>,        // None: the certificate does not parse
    formatTime: Time -> bytes,
    parseTime: bytes -> Option<Time>,
    floatTime: (nat, nat) -> Time,              // width and bits of a float of seconds since 1970
    onCurve: (Curve, bytes) -> bool)

  /** A private key as the signing calls use it: the protected header it stamps, whether its
      messages carry tag 18, and its (possibly randomised) signature on each message. */
  datatype Signer = Signer(pub: PublicKey, protected: bytes, tagged: bool, sign: bytes -> bytes)

  /** The signature the signer makes on `m` verifies. */
  ghost predicate Vouches(env: Env, signer: Signer, m: bytes) {
    env.sigOk(signer.pub, m, signer.sign(m))
  }

  /** Every signature made by the signer verifies. */
  ghost predicate Correct(env: Env, signer: Signer) {
    forall m :: Vouches(env, signer, m)
  }

  /** The digest algorithms the policy allows. */
  predicate AllowedDigestAlg(alg: bytes) {
    alg == Ascii("SHA-256") || alg == Ascii("SHA-384") || alg == Ascii("SHA-512")
  }

  /** The instant the text of `t` denotes is `t` to the second. */
  predicate Formats(env: Env, t: Time) {
    env.parseTime(env.formatTime(t)) == Some(TruncateToSecond(t))
  }
}
