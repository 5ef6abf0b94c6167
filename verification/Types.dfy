/** Machine integers, digests and the error type shared by every module. */
module Types {

  type Byte = x: int | 0 <= x < 0x100
  type U32 = x: int | 0 <= x < 0x1_0000_0000
  type U64 = x: int | 0 <= x < TWO_64
  type U128 = x: int | 0 <= x < TWO_128
  type Hash32 = h: seq<Byte> | |h| == 32 witness seq(32, i => 0)
  type Signature = s: seq<Byte> | |s| == 64 witness seq(64, i => 0)

  const TWO_64 := 0x1_0000_0000_0000_0000
  const TWO_128 := 0x1_0000_0000_0000_0000_0000_0000_0000_0000

  datatype Option<+T> = None | Some(value: T)
  datatype Result<+T> = Ok(value: T) | Err(error: PocError)

  /** The errors the modelled operations return. */
  datatype PocError =
    | InvalidSignature
    | InvalidAttestation
    | ContextRootMalformed(what: string)
    | RootMismatch
    | OracleUnavailable

  datatype FreshnessType = Computational | Model | Input | Settlement

  /** `u64::saturating_sub`. */
  function SatSub(a: U64, b: U64): U64 {
    if a < b then 0 else a - b
  }

  /** `u64::saturating_mul`. */
  function SatMul(a: U64, b: U64): U64 {
    if a * b < TWO_64 then MulNonNegative(a, b); a * b else TWO_64 - 1
  }

  lemma MulNonNegative(a: nat, b: nat)
    ensures a * b >= 0
  {}

  /** Plain `+` and `*` on `u64` in a build without overflow checks. */
  function WrapAdd(a: U64, b: U64): U64 {
    (a + b) % TWO_64
  }

  function WrapMul(a: U64, b: U64): U64 {
    (a * b) % TWO_64
  }

  function AbsDiff(a: int, b: int): nat {
    if a < b then b - a else a - b
  }

  function Max(a: int, b: int): int {
    if a < b then b else a
  }

  function Min(a: int, b: int): int {
    if b < a then b else a
  }

  /** SHA-256 and Ed25519 verification, as parameters of every theorem.
      `verifies` is false for a public key that does not decode. */
  datatype Crypto = Crypto(
    sha256: seq<Byte> -> Hash32,
    verifies: (Hash32, seq<Byte>, Signature) -> bool)
  {
    /** The two preimages are not a SHA-256 collision. */
    predicate NoCollision(x: seq<Byte>, y: seq<Byte>) {
      sha256(x) == sha256(y) ==> x == y
    }
  }
}
