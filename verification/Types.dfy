/** Names shared by the signer's parts. */
module Types {
  type ModuleId = string

  /** A consensus public key. */
  type Pubkey = nat
}
