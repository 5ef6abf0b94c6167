/** An incremental SHA-256 hasher: the digest is that of everything fed, in order. */
module Hashing {
  import opened Types

  class Hasher {
    var fed: seq<Byte>

    constructor ()
      ensures fed == []
    {
      fed := [];
    }

    method Update(bytes: seq<Byte>)
      modifies this
      ensures fed == old(fed) + bytes
    {
      fed := fed + bytes;
    }

    method Finalize(crypto: Crypto) returns (digest: Hash32)
      ensures digest == crypto.sha256(fed)
    {
      digest := crypto.sha256(fed);
    }
  }
}
