/** The `locker` package's `Seal(pt, key)` and `Open(ct, key)`, which the symmetric and
    asymmetric token packages call; the cryptography behind them is not part of this
    model, so a locker is a pair of functions and what it guarantees is stated as
    hypotheses. */
module Lockers {
  import opened Errors

  datatype Locker = Locker(
    seal: (seq<bv8>, seq<bv8>) -> Result<seq<bv8>>,
    open: (seq<bv8>, seq<bv8>) -> Result<seq<bv8>>)

  /** Whatever `locker` seals under `sealKey` opens under `openKey` to the same
      plaintext: one shared key for a symmetric locker, a matching key pair for an
      asymmetric one. */
  ghost predicate OpensSealed(locker: Locker, sealKey: seq<bv8>, openKey: seq<bv8>)
  {
    forall pt :: locker.seal(pt, sealKey).Success? ==>
      locker.open(locker.seal(pt, sealKey).value, openKey) == Success(pt)
  }

  /** Nothing `locker` seals under `sealKey` opens under `otherKey`. */
  ghost predicate RejectsSealed(locker: Locker, sealKey: seq<bv8>, otherKey: seq<bv8>)
  {
    forall pt :: locker.seal(pt, sealKey).Success? ==>
      locker.open(locker.seal(pt, sealKey).value, otherKey).Failure?
  }
}
