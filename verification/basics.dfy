/** Bytes, results and the two byte orders every other module builds on. */
module Basics {

  datatype Option<+T> = None | Some(value: T) {
    predicate IsFailure() { None? }

    function PropagateFailure<U>(): Option<U>
      requires None?
    {
      None
    }

    function Extract(): T
      requires Some?
    {
      value
    }
  }

  /** The sentinel errors of the package. `ErrTooLarge` has no counterpart there: it stands for a
      length or an integer that no 64-bit CBOR head can carry, which a Go program cannot build. */
  datatype Error =
    | ErrMalformed
    | ErrUnsupported
    | ErrIssuerAuth
    | ErrIssuerCertValidity
    | ErrIntegrity
    | ErrDeviceAuth
    | ErrValidity
    | ErrDocTypeMismatch
    | ErrDeviceMacUnsupported
    | ErrDigestAlg
    | ErrStatus
    | ErrDeviceResponseStatus
    | ErrTooLarge

  datatype Result<+T> = Ok(value: T) | Err(error: Error) {
    predicate IsFailure() { Err? }

    function PropagateFailure<U>(): Result<U>
      requires Err?
    {
      Err(error)
    }

    function Extract(): T
      requires Ok?
    {
      value
    }

    /** Forgets which error was reported. */
    function ToOption(): Option<T> {
      if Ok? then Some(value) else None
    }
  }

  lemma OptionOf<T>(r: Result<T>)
    ensures r.ToOption() == match r case Ok(v) => Some(v) case Err(_) => None
  {
  }

  type Byte = n: int | 0 <= n < 256

  /** A Go string or byte slice. */
  type bytes = seq<Byte>

  /** The bytes of an ASCII literal. */
  function Ascii(s: string): (r: bytes)
    ensures |r| == |s|
    ensures forall i | 0 <= i < |s| :: r[i] == s[i] as int % 128 && r[i] < 128
  {
    if s == "" then [] else [s[0] as int % 128] + Ascii(s[1..])
  }

  // ----- big-endian integers -----

  function Pow256(w: nat): (r: nat)
    ensures r > 0
  {
    if w == 0 then 1 else 256 * Pow256(w - 1)
  }

  /** The `w` low-order bytes of `n`, most significant first. */
  function BigEndian(w: nat, n: nat): (r: bytes)
    ensures |r| == w
  {
    if w == 0 then [] else BigEndian(w - 1, n / 256) + [n % 256]
  }

  function FromBigEndian(s: bytes): nat {
    if s == [] then 0 else FromBigEndian(s[..|s| - 1]) * 256 + s[|s| - 1]
  }

  lemma {:induction false} FromBigEndianInverts(w: nat, n: nat)
    requires n < Pow256(w)
    ensures FromBigEndian(BigEndian(w, n)) == n
  {
    if w > 0 {
      FromBigEndianInverts(w - 1, n / 256);
      var s := BigEndian(w, n);
      assert s[..|s| - 1] == BigEndian(w - 1, n / 256);
    }
  }

  lemma {:induction false} BigEndianInverts(s: bytes)
    ensures FromBigEndian(s) < Pow256(|s|)
    ensures BigEndian(|s|, FromBigEndian(s)) == s
  {
    if s != [] {
      BigEndianInverts(s[..|s| - 1]);
      var n := FromBigEndian(s);
      assert n / 256 == FromBigEndian(s[..|s| - 1]) && n % 256 == s[|s| - 1];
    }
  }

  function Zeros(n: nat): (r: bytes)
    ensures |r| == n
  {
    seq(n, _ => 0)
  }

  lemma {:induction false} LeadingZerosVanish(k: nat, s: bytes)
    ensures FromBigEndian(Zeros(k) + s) == FromBigEndian(s)
    decreases k + |s|
  {
    var t := Zeros(k) + s;
    if s != [] {
      assert t[..|t| - 1] == Zeros(k) + s[..|s| - 1];
      LeadingZerosVanish(k, s[..|s| - 1]);
    } else if k > 0 {
      assert t == Zeros(k);
      assert t[..|t| - 1] == Zeros(k - 1) + [];
      LeadingZerosVanish(k - 1, []);
    }
  }

  // ----- the two orders -----

  /** Bytewise lexicographic order, a prefix first: Go's order on strings. */
  predicate LexLe(a: bytes, b: bytes) {
    a == [] || (b != [] && (a[0] < b[0] || (a[0] == b[0] && LexLe(a[1..], b[1..]))))
  }

  /** Length first, then bytewise: the canonical key order of section 4.2.3 of RFC 8949. */
  predicate LengthFirstLe(a: bytes, b: bytes) {
    |a| < |b| || (|a| == |b| && LexLe(a, b))
  }

  lemma {:induction false} LexTotal(a: bytes, b: bytes)
    ensures LexLe(a, b) || LexLe(b, a)
    ensures LexLe(a, a)
  {
    if a != [] {
      LexTotal(a[1..], if b == [] then [] else b[1..]);
    }
  }

  lemma {:induction false} LexAntisymmetric(a: bytes, b: bytes)
    requires LexLe(a, b) && LexLe(b, a)
    ensures a == b
  {
    if a != [] {
      LexAntisymmetric(a[1..], b[1..]);
      assert a == [a[0]] + a[1..] && b == [b[0]] + b[1..];
    }
  }

  lemma {:induction false} LexTransitive(a: bytes, b: bytes, c: bytes)
    requires LexLe(a, b) && LexLe(b, c)
    ensures LexLe(a, c)
  {
    if a != [] && a[0] == b[0] == c[0] {
      LexTransitive(a[1..], b[1..], c[1..]);
    }
  }
}
