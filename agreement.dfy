/** How the two verification pipelines relate: over the same locker they return the same
    token and agree on whether there is an error; they differ only in how a failure
    before expiry is reported. */
module WrapperAgreement {
  import opened Errors
  import SymmetricToken
  import AsymmetricToken
  import opened Lockers

  /** The symmetric pipeline collapses each failure the asymmetric one passes on into
      `ErrDecrypt` or `ErrUnmarshal`, and reports expiry identically. */
  lemma SymmetricCollapsesErrors(locker: Locker, ct: seq<bv8>, key: seq<bv8>, now: int)
    ensures var s := SymmetricToken.Verify(locker, ct, key, now);
            var a := AsymmetricToken.Verify(locker, ct, key, now);
      && s.token == a.token
      && (s.err == None <==> a.err == None)
      && (a.token.Some? ==> s.err == a.err)
      && (a.token.None? ==> a.err.Some? && s.err in {Some(ErrDecrypt), Some(ErrUnmarshal)})
  {
  }
}
