# badcoin ledger core in Dafny

A model of the integrity machinery of `badcoin`, a minimal single-node
ledger written in Rust. It covers:

- the canonical byte encoding of a transaction and its SHA-256 hash
  (`src/transaction.rs`);
- signed transactions: the stored content hash, the reward transaction and
  the validity check that recomputes the hash and verifies the signature
  (`src/signed_transaction.rs`);
- block hashing over a fixed preimage, and the in-place `update_nonce` that
  keeps a block's hash tracking its fields (`src/block.rs`);
- the balance of an address, folded over every transaction of the chain, and
  the older copies of the transaction code kept in `src/blockchain.rs`.

Modules, one per source file, plus two shared ones:

| module | file | models |
|---|---|---|
| `Codec` | `codec.dfy` | byte, i64/u64 types; 8-byte little-endian writes (`byteorder`) and reads; lowercase hex text (`hex::encode`) and its inverse |
| `Crypto` | `crypto.dfy` | the shapes of SHA-256, signing and signature verification; `Option` and `Outcome` |
| `Transactions` | `transaction.dfy` | `src/transaction.rs` |
| `SignedTransactions` | `signed_transaction.dfy` | `src/signed_transaction.rs` |
| `Blocks` | `block.dfy` | `src/block.rs` (a `Block` class, since `update_nonce` mutates it) |
| `Ledger` | `blockchain.dfy` | `src/blockchain.rs` |

Modelling choices:

- A Rust `String` is its UTF-8 bytes, so strings are byte sequences (`Str`);
  `as_bytes()` is the identity and `==` is byte equality. The sentinel "0"
  is the one byte 0x30 (`ZERO_STR`).
- SHA-256 (FIPS 180-4), `Keypair::sign` and `keypair::verify_signature` are
  not modelled internally. Every operation that uses them takes them as
  parameters: `sha256: Bytes -> Digest` (a `Digest` is exactly 32 bytes),
  `sign: Digest -> Str`, and `verify: (Str, Str, Digest) -> Option<bool>`.
  `None` stands for the panic that `verify_signature` raises (through
  `expect`) when the key or the signature does not parse. Every lemma holds
  for any such functions, in particular for the real ones.
- `is_valid` runs the verifier whatever the hash comparison gives, so it
  returns `Outcome<bool>`: `Panics` when the verifier cannot read its
  inputs, otherwise `Returns(hash matches && signature verifies)`. A reward
  transaction carries the address and signature "0", so `is_valid` on it
  panics unless the verifier can parse key "0" and signature "0"
  (`RewardVerdict`). The real `PublicKey::from_str("0")` fails to parse
  (src/keypair.rs:82), so with the real verifier the call always panics.
- The clock (`Local::now`) becomes a parameter `now` of `Transactions.Create`,
  `SignedTransactions.CreateReward` and `Blocks.Block.Create`.
- `Transaction::as_bytes` is a method over two 8-byte arrays, as in the
  source. It is proved equal to the function `Encoding`, which every other
  member uses. The balance loop is a method with loop invariants, proved
  equal to the recursive `Balance`.
- A block's `hash` is kept as a field of the `Block` class. `Value()` gives
  all its fields as one `BlockValue`, and the lemmas about `update_nonce`
  are stated over `WithNonce` on those values.

Where the code and its own comments or design notes disagree, the model
follows the code:

- The comment at src/transaction.rs:38 says all fields go into the bytes.
  The code writes the amount and then the timestamp into the same `amount`
  buffer (src/transaction.rs:40-48) and never writes the `timestamp` buffer.
  So the encoding is `to ‖ from ‖ LE8(timestamp) ‖ 8 zero bytes`. The
  amount is neither hashed nor signed (`AmountNotEncoded`), and changing only
  the amount of a signed transaction does not change its validity
  (`AmountDoesNotAffectValidity`). The same code is at
  src/blockchain.rs:90-101 (`Ledger.TransactionAsBytes`). The older
  `create` and `validate` there (`Ledger.CreateSignedTransaction`,
  `Ledger.ValidateSignedTransaction`) are proved equal to
  `SignedTransactions.Create` and `SignedTransactions.IsValid`.
- The balance subtracts when the address is the sender and otherwise adds
  when it is the receiver (`else if`). A self-transfer therefore only
  debits (`SelfTransferDebits`).
- `MAX_TRANSACTIONS = 100` is declared (src/block.rs:16) and kept as a
  constant, but nothing enforces it. The block constructors accept any
  number of transactions.

## Model

| member | source | states |
|---|---|---|
| `Codec.WriteI64Le` | src/transaction.rs:40-43 | after the write, the 8-byte buffer holds the little-endian two's-complement bytes of the value |
| `Codec.I64RoundTrip` | src/transaction.rs:46-48 | the 8 little-endian bytes written for any i64 decode back to that i64 |
| `Codec.U64RoundTrip` | src/block.rs:55-58 | the 8 little-endian bytes written for any u64 (index, nonce) decode back to it |
| `Codec.Hex` | src/block.rs:79-80 | `hex::encode` gives two characters per byte, all lowercase hex digits |
| `Codec.HexInjective` | src/signed_transaction.rs:77 | two hex texts are equal exactly when the bytes they encode are equal |
| `Transactions.New` | src/transaction.rs:16-23 | `to`, `from`, `timestamp` and `amount` are stored exactly as given |
| `Transactions.Create` | src/transaction.rs:26-36 | `create` is `new` with the clock reading as timestamp |
| `Transactions.Encoding` | src/transaction.rs:39-51 | the bytes `as_bytes` returns: as long as `to` and `from` together plus 16, starting with `to` then `from`; the rest of the layout is `EncodingLayout` |
| `Transactions.AsBytes` | src/transaction.rs:39-51 | the buffer-level `as_bytes` returns exactly `Encoding`: `to ‖ from ‖ LE8(timestamp) ‖ 8 zero bytes` |
| `Transactions.EncodingLayout` | src/transaction.rs:45-50 | the encoding is as long as `to` and `from` together plus 16 bytes, starts with `to` then `from`, the next 8 bytes decode to the timestamp, the last 8 are zero |
| `Transactions.AmountNotEncoded` | src/transaction.rs:38-50 | transactions differing only in amount have identical encodings |
| `Transactions.TimestampEncoded` | src/transaction.rs:45-50 | with equal addresses, equal encodings mean equal timestamps |
| `Transactions.AsHash` | src/transaction.rs:54-62 | SHA-256 over `to ‖ from ‖ LE8(timestamp) ‖ 8 zero bytes`, 32 bytes; the amount plays no part (`AsHashIgnoresAmount`) |
| `Transactions.AsHashDeterminedByEncoding` | src/transaction.rs:54-62 | the 32-byte hash is a function of the encoding alone |
| `Transactions.AsHashIgnoresAmount` | src/transaction.rs:54-62 | the hash does not change when only the amount does |
| `SignedTransactions.New` | src/signed_transaction.rs:15-22 | all fields, the hash included, are stored verbatim; nothing is computed or checked |
| `SignedTransactions.ContentHash` | src/signed_transaction.rs:28-40 | the content hash is 64 lowercase hex characters |
| `SignedTransactions.Create` | src/signed_transaction.rs:25-42 | keeps the transaction, stores `sign(tx hash)` as signature, and stores the hash that the validity check recomputes |
| `SignedTransactions.CreateReward` | src/signed_transaction.rs:45-62 | `to` is the reward address, `from` is "0", the amount is 10, the timestamp is the clock reading, the signature is "0", and the hash matches the recomputation |
| `SignedTransactions.IsValid` | src/signed_transaction.rs:65-78 | returns true only when the stored hash matches the recomputation, and panics exactly when the verifier cannot read key or signature; both directions are `IsValidExactly` |
| `SignedTransactions.IsValidExactly` | src/signed_transaction.rs:65-78 | valid exactly when the recomputed hex hash equals the stored hash and the signature verifies; panics exactly when the verifier cannot read key or signature |
| `SignedTransactions.CreatedIsValid` | src/signed_transaction.rs:25-78 | a transaction signed by the key its sender address names is valid |
| `SignedTransactions.RewardVerdict` | src/signed_transaction.rs:45-78 | on a reward transaction the hash check passes, so the result is the verifier's verdict on key "0" and signature "0", or a panic |
| `SignedTransactions.OtherHashRejected` | src/signed_transaction.rs:77 | replacing a matching stored hash with any other string makes the hash check and `is_valid` fail |
| `SignedTransactions.OtherSignatureRejected` | src/signed_transaction.rs:66-77 | replacing the signature fails the hash check whenever SHA-256 separates the two preimages |
| `SignedTransactions.AmountDoesNotAffectValidity` | src/signed_transaction.rs:68-75 | changing only the amount leaves the result of `is_valid` unchanged |
| `SignedTransactions.AsBytes` | src/signed_transaction.rs:81-84 | as long as the three parts together, starting with the transaction's bytes; the rest of the layout is `AsBytesLayout` |
| `SignedTransactions.AsBytesLayout` | src/signed_transaction.rs:81-84 | `as_bytes` is the transaction bytes, then the signature bytes, then the hash bytes, and its length is the sum of the three |
| `SignedTransactions.AsHash` | src/signed_transaction.rs:87-95 | SHA-256 over transaction bytes ‖ signature bytes ‖ stored hash bytes, 32 bytes (`AsHashDeterminedByBytes`) |
| `SignedTransactions.AsHashDeterminedByBytes` | src/signed_transaction.rs:87-95 | the 32-byte hash is a function of `as_bytes` alone |
| `Blocks.TransactionsBytes` | src/block.rs:61-63 | the transactions' `as_bytes` concatenated in vector order: the first one's bytes come first (`TransactionsBytesAppend` for the end) |
| `Blocks.TransactionsBytesAppend` | src/block.rs:61-63 | the transactions are fed in vector order: one more transaction appends its bytes at the end |
| `Blocks.Preimage` | src/block.rs:53-77 | what the hasher is fed: 24 bytes plus the transactions' and previous hash's bytes, starting with LE8(index) and ending with LE8(nonce); all fields in `PreimageLayout` |
| `Blocks.PreimageLayout` | src/block.rs:52-78 | the preimage is LE8(index) ‖ the transactions' bytes ‖ previous hash ‖ LE8(timestamp) ‖ LE8(nonce), and each field reads back from its place |
| `Blocks.NonceSeparatesPreimages` | src/block.rs:73-77 | different nonces give different preimages for otherwise equal blocks |
| `Blocks.CalculateHash` | src/block.rs:52-81 | the block hash is a 64-character lowercase hex string |
| `Blocks.Block.New` | src/block.rs:19-30 | stores the given fields and the hash of exactly those fields, so the block is valid |
| `Blocks.Block.Create` | src/block.rs:35-49 | stores and hashes the same clock reading, so the block is valid |
| `Blocks.Block.AsHash` | src/block.rs:90-92 | the hash recomputed from the current fields, 64 lowercase hex characters |
| `Blocks.Block.IsValid` | src/block.rs:95-97 | holds exactly when the stored hash is the one recomputed from the fields; a valid block's hash is 64 lowercase hex characters |
| `Blocks.Block.UpdateNonce` | src/block.rs:84-87 | the new fields are `WithNonce` of the old ones, and the block is valid afterwards |
| `Blocks.WithNonce` | src/block.rs:84-87 | the fields after `update_nonce`: sets the nonce, keeps index, transactions, previous hash and timestamp, and makes the hash track the fields whatever it was before |
| `Blocks.WithNonceIdempotent` | src/block.rs:84-87 | updating twice with the same nonce equals updating once |
| `Blocks.OnlyRecomputedHashValid` | src/block.rs:94-97 | with any stored hash other than the recomputed one the block is not valid |
| `Ledger.TransactionAsBytes` | src/blockchain.rs:90-102 | the older `as_bytes` returns the same `to ‖ from ‖ LE8(timestamp) ‖ 8 zero bytes` |
| `Ledger.CreateSignedTransaction` | src/blockchain.rs:138-156 | the older `create`, written with its own hash and signature steps, gives the same value as `SignedTransactions.Create` on every input |
| `Ledger.ValidateSignedTransaction` | src/blockchain.rs:158-171 | the older `validate` gives the same verdict as `is_valid` on every input |
| `Ledger.Contribution` | src/blockchain.rs:17-21 | one transaction's effect: −amount when the address sent it (self-transfers included), else +amount when it received it, and 0 when it names the address neither way |
| `Ledger.Balance` | src/blockchain.rs:15-23 | the sum of `Contribution` over every transaction in chain order; 0 when no block holds a transaction (`BalanceAppend`, `BalanceIsFlatSum`) |
| `Ledger.CalculateBalance` | src/blockchain.rs:13-25 | the nested loop returns `Balance`: the sum, in chain order, of −amount when the address sent, else +amount when it received, else 0; it changes nothing |
| `Ledger.BalanceAppend` | src/blockchain.rs:15-23 | the balance over blocks ++ [b] is the balance over blocks plus b's own contribution |
| `Ledger.BalanceIsFlatSum` | src/blockchain.rs:15-23 | the nested fold equals one fold over all the chain's transactions in order |
| `Ledger.TransactionsContributionConcat` | src/blockchain.rs:16-22 | the sum over two consecutive runs of transactions is the sum of the two sums |
| `Ledger.EmptyBlocksGiveZero` | src/blockchain.rs:14-24 | with no transaction in any block the balance is 0 |
| `Ledger.UninvolvedAddressHasZeroBalance` | src/blockchain.rs:17-21 | an address that no transaction sends from or to has balance 0 |
| `Ledger.SelfTransferDebits` | src/blockchain.rs:17-20 | a transfer from the address to itself lowers its balance by the amount and never adds it back |

## Left out

- Key generation, key parsing, the OS random generator and the secp256k1
  primitives (src/keypair.rs, src/kepair.rs): foreign cryptography. Signing
  and verification are parameters.
- SHA-256 internals: a parameter returning 32 bytes.
- Clock reads: the timestamp is a parameter.
- Mining, proof-of-work search, genesis construction, `validate_block`, the
  pending-transaction pool and lookups by index or hash: no code for them
  exists. src/main.rs:9-10 calls `Blockchain::new` and `mine_block`, and
  src/blockchain.rs defines neither. The `Blockchain` struct has no
  constructor either, so the model takes its blocks as given.
- `Block::create` of src/blockchain.rs:41-53: it assigns to an immutable
  binding and does not compile. It would leave `current_hash` empty, with
  the nonce defaulting to 0.
- The `Display` implementations, the wallet (src/wallet.rs) and the entry
  point (src/main.rs): printing and glue only.
- Ledger.CalculateBalance: the balance is an unbounded `int`. Overflow of
  the i64 accumulator, or of negating `i64::MIN`, is not modelled; it
  panics in debug builds and wraps in release builds.
