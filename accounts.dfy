/** The account records both the background controller and the popup's
    store read from the stored wallet. */
module Accounts {

  /** One wallet identity.  `balance` is in Qa, the chain's smallest unit. */
  datatype Identity = Identity(address: string, publicKey: string, balance: nat)
}
