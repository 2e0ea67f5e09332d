/** The block cipher under the modes: any permutation of 16-octet blocks. */
module BlockCiphers {
  import opened Bytes

  /** A block cipher under a fixed key: a permutation of 16-octet blocks with its inverse. */
  datatype BlockCipher = BlockCipher(encrypt: seq<byte> -> seq<byte>, decrypt: seq<byte> -> seq<byte>)

  ghost predicate Permutation(c: BlockCipher) {
    forall b: seq<byte> :: |b| == 16 ==>
      && |c.encrypt(b)| == 16 && |c.decrypt(b)| == 16
      && c.decrypt(c.encrypt(b)) == b && c.encrypt(c.decrypt(b)) == b
  }

  lemma CipherLength(c: BlockCipher, b: seq<byte>)
    requires Permutation(c) && |b| == 16
    ensures |c.encrypt(b)| == 16 && |c.decrypt(b)| == 16
  {
  }
}
