/**
  A transaction bound to a signature and a content hash. The content hash
  is the lowercase hex text of SHA-256 over the transaction's encoding
  followed by the signature's bytes; `is_valid` recomputes it and asks the
  signature verifier about the transaction's hash.
 */
module SignedTransactions {
  import opened Codec
  import opened Crypto
  import T = Transactions

  datatype SignedTransaction = SignedTransaction(transaction: T.Transaction, signature: Str, hash: Str)

  /** The amount a reward transaction credits. */
  const REWARD_AMOUNT: I64 := 10

  /** `SignedTransaction::new`: stores every field verbatim, the hash included, without computing or checking it. */
  function New(to: Str, from: Str, timestamp: I64, amount: I64, signature: Str, hash: Str): (st: SignedTransaction)
    ensures st.transaction == T.New(to, from, timestamp, amount)
    ensures st.signature == signature && st.hash == hash
  {
    SignedTransaction(T.New(to, from, timestamp, amount), signature, hash)
  }

  /**
    The content hash that `create` and `create_reward` store and `is_valid`
    recomputes: the hex text of SHA-256 over the transaction's bytes
    followed by the signature's bytes.
   */
  function ContentHash(t: T.Transaction, signature: Str, sha256: Sha256): (h: Str)
    ensures |h| == 64 && IsLowerHex(h)
  {
    Hex(sha256(T.Encoding(t) + signature))
  }

  /** The hash-equality conjunct of `is_valid`. */
  predicate HashMatches(st: SignedTransaction, sha256: Sha256)
  {
    ContentHash(st.transaction, st.signature, sha256) == st.hash
  }

  /** `SignedTransaction::create`: signs the transaction's hash and stores the content hash over that signature. */
  function Create(t: T.Transaction, sign: Signer, sha256: Sha256): (st: SignedTransaction)
    ensures st.transaction == t
    ensures st.signature == sign(T.AsHash(t, sha256))
    ensures HashMatches(st, sha256)
  {
    var signature := sign(T.AsHash(t, sha256));
    SignedTransaction(t, signature, ContentHash(t, signature, sha256))
  }

  /**
    `SignedTransaction::create_reward`: a transaction of `REWARD_AMOUNT`
    from the sentinel address "0" to `rewardAddress`, stamped with the clock
    reading `now`, carrying the sentinel signature "0" and the content hash
    over it.
   */
  function CreateReward(rewardAddress: Str, now: I64, sha256: Sha256): (st: SignedTransaction)
    ensures st.transaction == T.Create(rewardAddress, ZERO_STR, REWARD_AMOUNT, now)
    ensures st.transaction.to == rewardAddress && st.transaction.from == ZERO_STR
    ensures st.transaction.amount == 10
    ensures st.signature == ZERO_STR
    ensures HashMatches(st, sha256)
  {
    var t := T.Create(rewardAddress, ZERO_STR, REWARD_AMOUNT, now);
    SignedTransaction(t, ZERO_STR, ContentHash(t, ZERO_STR, sha256))
  }

  /**
    `SignedTransaction::is_valid` (and its older copy `validate`): the
    recomputed content hash must equal the stored one, and the signature
    must verify against the sender's address read as a public key. The
    verifier runs whatever the hash comparison gives, so an unreadable key
    or signature panics.
   */
  function IsValid(st: SignedTransaction, sha256: Sha256, verify: Verifier): (r: Outcome<bool>)
    ensures r == Returns(true) ==> HashMatches(st, sha256)
    ensures r == Panics <==> verify(st.transaction.from, st.signature, T.AsHash(st.transaction, sha256)) == None
  {
    match verify(st.transaction.from, st.signature, T.AsHash(st.transaction, sha256))
    case None => Panics
    case Some(verified) => Returns(HashMatches(st, sha256) && verified)
  }

  /**
    `is_valid` holds exactly when the stored hash is the recomputed one and
    the signature verifies; it panics exactly when the verifier cannot read
    the key or the signature.
   */
  lemma IsValidExactly(st: SignedTransaction, sha256: Sha256, verify: Verifier)
    ensures IsValid(st, sha256, verify) == Returns(true) <==>
              HashMatches(st, sha256) && verify(st.transaction.from, st.signature, T.AsHash(st.transaction, sha256)) == Some(true)
    ensures IsValid(st, sha256, verify) == Panics <==>
              verify(st.transaction.from, st.signature, T.AsHash(st.transaction, sha256)) == None
  {
  }

  /** A transaction signed by the key its sender address names is valid. */
  lemma CreatedIsValid(t: T.Transaction, sign: Signer, sha256: Sha256, verify: Verifier)
    requires verify(t.from, sign(T.AsHash(t, sha256)), T.AsHash(t, sha256)) == Some(true)
    ensures IsValid(Create(t, sign, sha256), sha256, verify) == Returns(true)
  {
  }

  /**
    On a reward transaction the hash check always passes, so `is_valid`
    gives the verifier's verdict on the sentinel key and signature "0",
    or panics when the verifier cannot read them.
   */
  lemma RewardVerdict(rewardAddress: Str, now: I64, sha256: Sha256, verify: Verifier)
    ensures var st := CreateReward(rewardAddress, now, sha256);
            IsValid(st, sha256, verify) ==
              match verify(ZERO_STR, ZERO_STR, T.AsHash(st.transaction, sha256))
              case None => Panics
              case Some(verified) => Returns(verified)
  {
  }

  /** Storing any hash other than the recomputed one makes `is_valid` fail. */
  lemma OtherHashRejected(st: SignedTransaction, hash: Str, sha256: Sha256, verify: Verifier)
    requires HashMatches(st, sha256) && hash != st.hash
    ensures !HashMatches(st.(hash := hash), sha256)
    ensures IsValid(st.(hash := hash), sha256, verify) != Returns(true)
  {
  }

  /**
    Replacing the signature is detected by the hash check whenever SHA-256
    separates the two preimages.
   */
  lemma OtherSignatureRejected(st: SignedTransaction, signature: Str, sha256: Sha256, verify: Verifier)
    requires HashMatches(st, sha256)
    requires sha256(T.Encoding(st.transaction) + signature) != sha256(T.Encoding(st.transaction) + st.signature)
    ensures !HashMatches(st.(signature := signature), sha256)
    ensures IsValid(st.(signature := signature), sha256, verify) != Returns(true)
  {
    HexInjective(sha256(T.Encoding(st.transaction) + signature), sha256(T.Encoding(st.transaction) + st.signature));
  }

  /**
    Changing only the amount leaves `is_valid` as it was: neither the
    hashed bytes nor the signed message contain it.
   */
  lemma AmountDoesNotAffectValidity(st: SignedTransaction, amount: I64, sha256: Sha256, verify: Verifier)
    ensures IsValid(st.(transaction := st.transaction.(amount := amount)), sha256, verify) == IsValid(st, sha256, verify)
  {
    T.AmountNotEncoded(st.transaction, amount);
  }

  /** `SignedTransaction::as_bytes`: the transaction's bytes, then the signature's, then the stored hash's. */
  function AsBytes(st: SignedTransaction): (r: Bytes)
    ensures |r| == |T.Encoding(st.transaction)| + |st.signature| + |st.hash|
    ensures r[..|T.Encoding(st.transaction)|] == T.Encoding(st.transaction)
  {
    T.Encoding(st.transaction) + st.signature + st.hash
  }

  /** The three parts of `as_bytes`, in order, and nothing else. */
  lemma AsBytesLayout(st: SignedTransaction)
    ensures var e, n := T.Encoding(st.transaction), |T.Encoding(st.transaction)|;
            |AsBytes(st)| == n + |st.signature| + |st.hash| &&
            AsBytes(st)[..n] == e &&
            AsBytes(st)[n..n + |st.signature|] == st.signature &&
            AsBytes(st)[n + |st.signature|..] == st.hash
  {
  }

  /** `SignedTransaction::as_hash`: SHA-256 of `as_bytes`, 32 bytes. */
  function AsHash(st: SignedTransaction, sha256: Sha256): (d: Digest)
    ensures d == sha256(T.Encoding(st.transaction) + st.signature + st.hash)
  {
    sha256(AsBytes(st))
  }

  /** The hash of a signed transaction is a function of its bytes alone. */
  lemma AsHashDeterminedByBytes(st: SignedTransaction, su: SignedTransaction, sha256: Sha256)
    requires AsBytes(st) == AsBytes(su)
    ensures AsHash(st, sha256) == AsHash(su, sha256)
  {
  }
}
