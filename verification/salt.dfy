/**
 * Short-ID salt of BIP-330: both peers contribute a 64-bit salt, and the pair is
 * hashed in ascending order so that the two ends of a connection derive the same key.
 */
module Salt {
  import opened Common

  /**
   * The tagged SHA-256 ("Tx Relay Salting") of two serialised 64-bit salts. Its internals
   * are not modelled: any function of the ordered pair will do.
   */
  type SaltHasher = (nat, nat) -> nat

  /** Combines the local and the remote salt: the smaller one is always hashed first. */
  function ComputeSalt(localSalt: nat, remoteSalt: nat, hash: SaltHasher): (full: nat)
    ensures localSalt <= remoteSalt ==> full == hash(localSalt, remoteSalt)
    ensures remoteSalt <= localSalt ==> full == hash(remoteSalt, localSalt)
  {
    var salt1 := if localSalt > remoteSalt then remoteSalt else localSalt;
    var salt2 := if localSalt > remoteSalt then localSalt else remoteSalt;
    hash(salt1, salt2)
  }

  /** Both ends of a connection compute the same key, whichever salt is "local". */
  lemma ComputeSaltSymmetric(a: nat, b: nat, hash: SaltHasher)
    ensures ComputeSalt(a, b, hash) == ComputeSalt(b, a, hash)
  {
  }

  /** `GetUint64(i)` of the 256-bit digest: its i-th little-endian 64-bit word. */
  function Uint64Word(full: nat, i: nat): (w: nat)
    requires i < 4
    ensures w < U64
  {
    if i == 0 then full % U64 else Uint64Word(full / U64, i - 1)
  }
}
