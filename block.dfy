/**
  A block: an ordered batch of signed transactions with its index, the
  previous block's hash, a timestamp, a nonce and its own hash. The hash
  is the hex text of SHA-256 over a fixed preimage of all the other
  fields; `update_nonce` is the one operation that changes a block after
  construction, and it rehashes.
 */
module Blocks {
  import opened Codec
  import opened Crypto
  import S = SignedTransactions

  /** Declared as the bound on transactions per block; no operation enforces it. */
  const MAX_TRANSACTIONS: I64 := 100

  /** The bytes `calculate_hash` feeds for the transactions: each one's `as_bytes`, in vector order. */
  function TransactionsBytes(transactions: seq<S.SignedTransaction>): (r: Bytes)
    ensures transactions != [] ==>
              |S.AsBytes(transactions[0])| <= |r| && r[..|S.AsBytes(transactions[0])|] == S.AsBytes(transactions[0])
  {
    if transactions == [] then []
    else S.AsBytes(transactions[0]) + TransactionsBytes(transactions[1..])
  }

  lemma {:induction false} TransactionsBytesAppend(transactions: seq<S.SignedTransaction>, st: S.SignedTransaction)
    ensures TransactionsBytes(transactions + [st]) == TransactionsBytes(transactions) + S.AsBytes(st)
  {
    if transactions != [] {
      assert (transactions + [st])[1..] == transactions[1..] + [st];
      TransactionsBytesAppend(transactions[1..], st);
    } else {
      assert [st][1..] == [];
    }
  }

  /**
    Everything `calculate_hash` feeds to SHA-256, in order: the index as
    8 little-endian bytes, each transaction's bytes, the previous hash's
    bytes, then the timestamp and the nonce as 8 little-endian bytes each.
   */
  function Preimage(index: U64, transactions: seq<S.SignedTransaction>, previousHash: Str, timestamp: I64, nonce: U64): (p: Bytes)
    ensures |p| == 24 + |TransactionsBytes(transactions)| + |previousHash|
    ensures p[..8] == LeU64(index) && p[|p| - 8..] == LeU64(nonce)
  {
    LeU64(index) + TransactionsBytes(transactions) + previousHash + LeI64(timestamp) + LeU64(nonce)
  }

  /** Each field can be read back from its fixed place in the preimage. */
  lemma PreimageLayout(index: U64, transactions: seq<S.SignedTransaction>, previousHash: Str, timestamp: I64, nonce: U64)
    ensures var p, m := Preimage(index, transactions, previousHash, timestamp, nonce), |TransactionsBytes(transactions)|;
            |p| == 24 + m + |previousHash| &&
            DecodeU64(p[..8]) == index &&
            p[8..8 + m] == TransactionsBytes(transactions) &&
            p[8 + m..8 + m + |previousHash|] == previousHash &&
            DecodeI64(p[|p| - 16..|p| - 8]) == timestamp &&
            DecodeU64(p[|p| - 8..]) == nonce
  {
    var p := Preimage(index, transactions, previousHash, timestamp, nonce);
    assert p[..8] == LeU64(index);
    assert p[|p| - 16..|p| - 8] == LeI64(timestamp);
    assert p[|p| - 8..] == LeU64(nonce);
    U64RoundTrip(index);
    I64RoundTrip(timestamp);
    U64RoundTrip(nonce);
  }

  /** Blocks that differ only in their nonce are hashed over different preimages. */
  lemma NonceSeparatesPreimages(index: U64, transactions: seq<S.SignedTransaction>, previousHash: Str, timestamp: I64, n: U64, m: U64)
    requires n != m
    ensures Preimage(index, transactions, previousHash, timestamp, n) != Preimage(index, transactions, previousHash, timestamp, m)
  {
    PreimageLayout(index, transactions, previousHash, timestamp, n);
    PreimageLayout(index, transactions, previousHash, timestamp, m);
  }

  /** `Block::calculate_hash`: the hex text of SHA-256 over the preimage, 64 lowercase hex characters. */
  function CalculateHash(index: U64, transactions: seq<S.SignedTransaction>, previousHash: Str, timestamp: I64, nonce: U64, sha256: Sha256): (h: Str)
    ensures |h| == 64 && IsLowerHex(h)
  {
    Hex(sha256(Preimage(index, transactions, previousHash, timestamp, nonce)))
  }

  /** The fields of a block, as one value. */
  datatype BlockValue = BlockValue(index: U64, transactions: seq<S.SignedTransaction>, previousHash: Str,
                                   hash: Str, timestamp: I64, nonce: U64)

  /** The hash recomputed from a block's current fields (`Block::as_hash`). */
  function Recomputed(v: BlockValue, sha256: Sha256): Str
  {
    CalculateHash(v.index, v.transactions, v.previousHash, v.timestamp, v.nonce, sha256)
  }

  /** The condition `Block::is_valid` checks: the stored hash is the recomputed one. */
  predicate HashTracksFields(v: BlockValue, sha256: Sha256)
  {
    v.hash == Recomputed(v, sha256)
  }

  /**
    The fields after `update_nonce(nonce)`: the nonce is set, the index,
    transactions, previous hash and timestamp are kept, and the hash tracks
    the fields whatever it was before.
   */
  function WithNonce(v: BlockValue, nonce: U64, sha256: Sha256): (w: BlockValue)
    ensures w.nonce == nonce && w.index == v.index && w.transactions == v.transactions
    ensures w.previousHash == v.previousHash && w.timestamp == v.timestamp
    ensures HashTracksFields(w, sha256)
  {
    var w := v.(nonce := nonce);
    w.(hash := Recomputed(w, sha256))
  }

  /** Updating to the same nonce twice is the same as updating once. */
  lemma WithNonceIdempotent(v: BlockValue, nonce: U64, sha256: Sha256)
    ensures WithNonce(WithNonce(v, nonce, sha256), nonce, sha256) == WithNonce(v, nonce, sha256)
  {
  }

  /** Of all the hashes a block could store, only the recomputed one passes `is_valid`. */
  lemma OnlyRecomputedHashValid(v: BlockValue, hash: Str, sha256: Sha256)
    ensures HashTracksFields(v.(hash := hash), sha256) <==> hash == Recomputed(v, sha256)
  {
  }

  class Block {
    var transactions: seq<S.SignedTransaction>
    var index: U64
    var previousHash: Str
    var hash: Str
    var timestamp: I64
    var nonce: U64

    ghost function Value(): BlockValue
      reads this
    {
      BlockValue(index, transactions, previousHash, hash, timestamp, nonce)
    }

    /** `Block::new`: stores the given fields and the hash computed from exactly those fields. */
    constructor New(index: U64, transactions: seq<S.SignedTransaction>, previousHash: Str, timestamp: I64, nonce: U64, sha256: Sha256)
      ensures Value() == BlockValue(index, transactions, previousHash,
                                    CalculateHash(index, transactions, previousHash, timestamp, nonce, sha256),
                                    timestamp, nonce)
      ensures IsValid(sha256)
    {
      var h := CalculateHash(index, transactions, previousHash, timestamp, nonce, sha256);
      this.index := index;
      this.transactions := transactions;
      this.previousHash := previousHash;
      this.hash := h;
      this.timestamp := timestamp;
      this.nonce := nonce;
    }

    /** `Block::create`: like `new`, hashing and storing the one clock reading `now`. */
    constructor Create(index: U64, transactions: seq<S.SignedTransaction>, previousHash: Str, nonce: U64, now: I64, sha256: Sha256)
      ensures Value() == BlockValue(index, transactions, previousHash,
                                    CalculateHash(index, transactions, previousHash, now, nonce, sha256),
                                    now, nonce)
      ensures IsValid(sha256)
    {
      var h := CalculateHash(index, transactions, previousHash, now, nonce, sha256);
      this.index := index;
      this.transactions := transactions;
      this.previousHash := previousHash;
      this.hash := h;
      this.timestamp := now;
      this.nonce := nonce;
    }

    /** `Block::as_hash`: the hash of the current fields. */
    function AsHash(sha256: Sha256): (h: Str)
      reads this
      ensures h == Recomputed(Value(), sha256)
      ensures |h| == 64 && IsLowerHex(h)
    {
      CalculateHash(index, transactions, previousHash, timestamp, nonce, sha256)
    }

    /** `Block::is_valid`: the stored hash equals the recomputed one. */
    predicate IsValid(sha256: Sha256)
      reads this
      ensures IsValid(sha256) <==> HashTracksFields(Value(), sha256)
      ensures IsValid(sha256) ==> |hash| == 64 && IsLowerHex(hash)
    {
      hash == AsHash(sha256)
    }

    /** `Block::update_nonce`: sets the nonce, then rehashes the block. */
    method UpdateNonce(nonce: U64, sha256: Sha256)
      modifies this
      ensures Value() == WithNonce(old(Value()), nonce, sha256)
      ensures IsValid(sha256)
    {
      this.nonce := nonce;
      this.hash := AsHash(sha256);
    }
  }
}
