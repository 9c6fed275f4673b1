/**
  An unsigned transfer record and its canonical byte encoding.

  As the code stands, `as_bytes` writes the amount into its `amount`
  buffer, then writes the timestamp into that same buffer, and never writes
  its `timestamp` buffer. The encoding is therefore
  `to ‖ from ‖ LE8(timestamp) ‖ 8 zero bytes`, and the amount takes no
  part in the encoding or the hash. This module follows the code.
 */
module Transactions {
  import opened Codec
  import opened Crypto

  datatype Transaction = Transaction(from: Str, to: Str, timestamp: I64, amount: I64)

  /** `Transaction::new`: stores the four fields as given. */
  function New(to: Str, from: Str, timestamp: I64, amount: I64): (t: Transaction)
    ensures t.to == to && t.from == from
    ensures t.timestamp == timestamp && t.amount == amount
  {
    Transaction(from, to, timestamp, amount)
  }

  /** `Transaction::create`: `new`, stamped with the clock reading `now` (seconds since the epoch, UTC). */
  function Create(to: Str, from: Str, amount: I64, now: I64): (t: Transaction)
    ensures t == New(to, from, now, amount)
  {
    Transaction(from, to, now, amount)
  }

  /** The bytes `as_bytes` returns: the net effect of its buffer writes. */
  function Encoding(t: Transaction): (e: Bytes)
    ensures |e| == |t.to| + |t.from| + 16
    ensures e[..|t.to|] == t.to && e[|t.to|..|t.to| + |t.from|] == t.from
  {
    t.to + t.from + LeI64(t.timestamp) + Zeros(8)
  }

  /**
    `Transaction::as_bytes`, buffer by buffer: the `amount` buffer receives
    the amount and is then overwritten with the timestamp; the `timestamp`
    buffer keeps its initial zeros.
   */
  method AsBytes(t: Transaction) returns (bytes: Bytes)
    ensures bytes == Encoding(t)
  {
    var amount := new Byte[8](_ => 0);
    WriteI64Le(amount, t.amount);
    var timestamp := new Byte[8](_ => 0);
    WriteI64Le(amount, t.timestamp);
    bytes := t.to + t.from + amount[..] + timestamp[..];
  }

  /**
    The layout of the encoding: the bytes of `to`, then those of `from`,
    then eight bytes that decode to the timestamp, then eight zero bytes.
   */
  lemma EncodingLayout(t: Transaction)
    ensures |Encoding(t)| == |t.to| + |t.from| + 16
    ensures Encoding(t)[..|t.to|] == t.to
    ensures Encoding(t)[|t.to|..|t.to| + |t.from|] == t.from
    ensures DecodeI64(Encoding(t)[|t.to| + |t.from|..|t.to| + |t.from| + 8]) == t.timestamp
    ensures Encoding(t)[|t.to| + |t.from| + 8..] == Zeros(8)
  {
    var e, n := Encoding(t), |t.to| + |t.from|;
    assert e[n..n + 8] == LeI64(t.timestamp);
    I64RoundTrip(t.timestamp);
  }

  /** Two transactions that differ only in their amount have the same encoding. */
  lemma AmountNotEncoded(t: Transaction, amount: I64)
    ensures Encoding(t.(amount := amount)) == Encoding(t)
  {
  }

  /** With the same addresses, distinct timestamps give distinct encodings. */
  lemma TimestampEncoded(t: Transaction, u: Transaction)
    requires t.to == u.to && t.from == u.from
    requires Encoding(t) == Encoding(u)
    ensures t.timestamp == u.timestamp
  {
    var n := |t.to| + |t.from|;
    assert Encoding(t)[n..n + 8] == LeI64(t.timestamp);
    assert Encoding(u)[n..n + 8] == LeI64(u.timestamp);
    I64Injective(t.timestamp, u.timestamp);
  }

  /** `Transaction::as_hash`: SHA-256 of the encoding, 32 bytes. */
  function AsHash(t: Transaction, sha256: Sha256): (d: Digest)
    ensures d == sha256(t.to + t.from + LeI64(t.timestamp) + Zeros(8))
  {
    sha256(Encoding(t))
  }

  /** The hash is a function of the encoding alone. */
  lemma AsHashDeterminedByEncoding(t: Transaction, u: Transaction, sha256: Sha256)
    requires Encoding(t) == Encoding(u)
    ensures AsHash(t, sha256) == AsHash(u, sha256)
  {
  }

  /** The hash ignores the amount, like the encoding it is taken of. */
  lemma AsHashIgnoresAmount(t: Transaction, amount: I64, sha256: Sha256)
    ensures AsHash(t.(amount := amount), sha256) == AsHash(t, sha256)
  {
    AmountNotEncoded(t, amount);
  }
}
