/**
  The cryptographic collaborators the ledger calls but does not implement.
  SHA-256 (FIPS 180-4) and the secp256k1 signing and verification of the
  `secp256k1` crate are passed to every operation that uses them, so every
  property proved below holds for any functions of these shapes.
 */
module Crypto {
  import opened Codec

  /** SHA-256 over a byte string: always 32 bytes. */
  type Sha256 = Bytes -> Digest

  /** `Keypair::sign` of one keypair: the signature over a 32-byte message, as text. */
  type Signer = Digest -> Str

  /**
    `keypair::verify_signature(public_key, signature, message)`: `Some(ok)`
    when the key and the signature both parse (`ok` tells whether the
    signature verifies), `None` when either fails to parse, where the
    original panics through `expect`.
   */
  type Verifier = (Str, Str, Digest) -> Option<bool>

  datatype Option<+T> = None | Some(value: T)

  /** The result of a call that either returns a value or panics. */
  datatype Outcome<+T> = Returns(value: T) | Panics
}
