/**
  The ledger's balance query, with the older copies of the transaction
  code that `src/blockchain.rs` carries. Its `Transaction` and
  `SignedTransaction` structs have the same fields as those of the split
  modules, so they are the datatypes of `Transactions` and
  `SignedTransactions`; its own `as_bytes`, `create` and `validate` are written out
  below and proved to agree with the split modules' versions. Its `Block`
  struct is the datatype below; the balance reads only its transactions.
 */
module Ledger {
  import opened Codec
  import opened Crypto
  import T = Transactions
  import S = SignedTransactions

  /**
    The older `Transaction::as_bytes`: the same two writes into the
    `amount` buffer, and a `timestamp` buffer left at zero, so the same
    bytes as `Transactions.AsBytes`.
   */
  method TransactionAsBytes(t: T.Transaction) returns (bytes: Bytes)
    ensures bytes == T.Encoding(t)
  {
    var amount := new Byte[8](_ => 0);
    WriteI64Le(amount, t.amount);
    var timestamp := new Byte[8](_ => 0);
    WriteI64Le(amount, t.timestamp);
    bytes := t.to + t.from + amount[..] + timestamp[..];
  }

  /**
    The older `SignedTransaction::create`: signs the transaction's hash,
    hashes the transaction's bytes followed by the signature's, and stores
    the hex text of that hash; the same value as `SignedTransactions.Create`.
   */
  function CreateSignedTransaction(t: T.Transaction, sign: Signer, sha256: Sha256): (st: S.SignedTransaction)
    ensures st == S.Create(t, sign, sha256)
  {
    var signature := sign(sha256(T.Encoding(t)));
    var hash := sha256(T.Encoding(t) + signature);
    S.SignedTransaction(t, signature, Hex(hash))
  }

  /**
    The older `SignedTransaction::validate`: recomputes the content hash,
    asks the verifier, and returns the conjunction of the two checks, the
    same verdict as `is_valid`.
   */
  function ValidateSignedTransaction(st: S.SignedTransaction, sha256: Sha256, verify: Verifier): (r: Outcome<bool>)
    ensures r == S.IsValid(st, sha256, verify)
  {
    var hash := Hex(sha256(T.Encoding(st.transaction) + st.signature));
    match verify(st.transaction.from, st.signature, sha256(T.Encoding(st.transaction)))
    case None => Panics
    case Some(isVerified) => Returns(hash == st.hash && isVerified)
  }

  /** The `Block` struct of `src/blockchain.rs`. */
  datatype Block = Block(index: U64, transactions: seq<S.SignedTransaction>, previousHash: Str,
                         currentHash: Str, timestamp: I64, nonce: I64)

  datatype Blockchain = Blockchain(blocks: seq<Block>)

  /**
    What one transaction does to the balance of `address`: the amount is
    taken off when `address` sent it and, only otherwise, added when
    `address` received it.
   */
  function Contribution(st: S.SignedTransaction, address: Str): (r: int)
    ensures r != 0 ==> st.transaction.from == address || st.transaction.to == address
    ensures st.transaction.from == address ==> r == -(st.transaction.amount as int)
    ensures st.transaction.from != address && st.transaction.to == address ==> r == st.transaction.amount
  {
    if st.transaction.from == address then -(st.transaction.amount as int)
    else if st.transaction.to == address then st.transaction.amount
    else 0
  }

  /** The contributions of a sequence of transactions, summed in order. */
  function TransactionsContribution(transactions: seq<S.SignedTransaction>, address: Str): int
  {
    if transactions == [] then 0
    else Contribution(transactions[0], address) + TransactionsContribution(transactions[1..], address)
  }

  /** The balance of `address`: the contributions of every block's transactions, in chain order. */
  function Balance(blocks: seq<Block>, address: Str): (r: int)
    ensures (forall i :: 0 <= i < |blocks| ==> blocks[i].transactions == []) ==> r == 0
  {
    if blocks == [] then 0
    else TransactionsContribution(blocks[0].transactions, address) + Balance(blocks[1..], address)
  }

  /** Every transaction in the chain, block by block, in order. */
  function AllTransactions(blocks: seq<Block>): seq<S.SignedTransaction>
  {
    if blocks == [] then [] else blocks[0].transactions + AllTransactions(blocks[1..])
  }

  lemma {:induction false} TransactionsContributionConcat(a: seq<S.SignedTransaction>, b: seq<S.SignedTransaction>, address: Str)
    ensures TransactionsContribution(a + b, address) == TransactionsContribution(a, address) + TransactionsContribution(b, address)
  {
    if a == [] {
      assert a + b == b;
    } else {
      assert (a + b)[1..] == a[1..] + b;
      TransactionsContributionConcat(a[1..], b, address);
    }
  }

  /** The balance over a chain extended by one block adds exactly that block's contribution. */
  lemma {:induction false} BalanceAppend(blocks: seq<Block>, b: Block, address: Str)
    ensures Balance(blocks + [b], address) == Balance(blocks, address) + TransactionsContribution(b.transactions, address)
  {
    if blocks == [] {
      assert [b][1..] == [];
    } else {
      assert (blocks + [b])[1..] == blocks[1..] + [b];
      BalanceAppend(blocks[1..], b, address);
    }
  }

  /** The balance is the sum over the chain's transactions taken as one flat sequence. */
  lemma {:induction false} BalanceIsFlatSum(blocks: seq<Block>, address: Str)
    ensures Balance(blocks, address) == TransactionsContribution(AllTransactions(blocks), address)
  {
    if blocks != [] {
      BalanceIsFlatSum(blocks[1..], address);
      TransactionsContributionConcat(blocks[0].transactions, AllTransactions(blocks[1..]), address);
    }
  }

  /** An address that no transaction names as sender or receiver has balance 0. */
  lemma {:induction false} UninvolvedAddressHasZeroBalance(blocks: seq<Block>, address: Str)
    requires forall st :: st in AllTransactions(blocks) ==> st.transaction.from != address && st.transaction.to != address
    ensures Balance(blocks, address) == 0
  {
    BalanceIsFlatSum(blocks, address);
    ZeroWhenUninvolved(AllTransactions(blocks), address);
  }

  lemma {:induction false} ZeroWhenUninvolved(transactions: seq<S.SignedTransaction>, address: Str)
    requires forall st :: st in transactions ==> st.transaction.from != address && st.transaction.to != address
    ensures TransactionsContribution(transactions, address) == 0
  {
    if transactions != [] {
      assert transactions[0] in transactions;
      ZeroWhenUninvolved(transactions[1..], address);
    }
  }

  /** A chain whose blocks hold no transactions gives every address balance 0. */
  lemma {:induction false} EmptyBlocksGiveZero(blocks: seq<Block>, address: Str)
    requires forall i :: 0 <= i < |blocks| ==> blocks[i].transactions == []
    ensures Balance(blocks, address) == 0
  {
    if blocks != [] {
      EmptyBlocksGiveZero(blocks[1..], address);
    }
  }

  /**
    A transfer from `address` to itself lowers its balance by the amount:
    the sender branch is taken and the receiver branch never is.
   */
  lemma SelfTransferDebits(st: S.SignedTransaction, address: Str)
    requires st.transaction.from == address && st.transaction.to == address
    ensures Contribution(st, address) == -(st.transaction.amount as int)
  {
  }

  /**
    `Blockchain::calculate_balance`: walks every block and every
    transaction in order, lowering the running balance by the amount of each
    transaction sent by `address` and otherwise raising it by the amount of
    each transaction received by `address`. Reads the chain and changes
    nothing.
   */
  method CalculateBalance(chain: Blockchain, address: Str) returns (balance: int)
    ensures balance == Balance(chain.blocks, address)
  {
    var blocks := chain.blocks;
    balance := 0;
    var i := 0;
    while i < |blocks|
      invariant 0 <= i <= |blocks|
      invariant balance == Balance(blocks[..i], address)
    {
      var transactions := blocks[i].transactions;
      var j := 0;
      while j < |transactions|
        invariant 0 <= j <= |transactions|
        invariant balance == Balance(blocks[..i], address) + TransactionsContribution(transactions[..j], address)
      {
        var t := transactions[j].transaction;
        if t.from == address {
          balance := balance - t.amount;
        } else if t.to == address {
          balance := balance + t.amount;
        }
        assert transactions[..j + 1] == transactions[..j] + [transactions[j]];
        TransactionsContributionConcat(transactions[..j], [transactions[j]], address);
        j := j + 1;
      }
      assert transactions[..j] == transactions;
      assert blocks[..i + 1] == blocks[..i] + [blocks[i]];
      BalanceAppend(blocks[..i], blocks[i], address);
      i := i + 1;
    }
    assert blocks[..i] == blocks;
  }
}
