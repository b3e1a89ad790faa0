/**
 * The two addresses every component compares against.  Addresses are their
 * textual form; resolving a name to an address is the identity where it
 * succeeds (see `Membership.View.AddAddrByName`).
 */
module Addresses {

  /** `NetUtils.nullIP`, also spelled out in `View.addAddr`: the placeholder for "no server". */
  const NullIP: string := "0.0.0.0"

  /**
   * `NetUtils.getIP()`: this instance's own address.  The lookup runs an
   * external program, so the model fixes it to the fallback that lookup
   * returns, `127.0.0.1`; the proofs use only that it differs from `NullIP`
   * and holds neither `_` nor `/`.
   */
  const OwnIP: string := "127.0.0.1"
}
