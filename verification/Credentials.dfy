/** Signer credentials (crates/perch-recovery-interface/src/credential.rs), shared by
    documents, whose addresses are strkeys, and the wire, whose addresses are resolved. */
module Credentials {
  import opened Base
  import opened Text
  import opened Doc

  datatype Credential<+A> = DelegatedTo(address: A) | ExternalKey(verifier: A, key: seq<byte>)

  /** The credential a document declares, unless its key is not hex. Two spellings of one
      key, in upper and lower case, are one credential. */
  function CredentialOf(how: SignerMethod): Option<Credential<string>> {
    match how
    case External(verifier, key) =>
      (match HexDecode(key) case Some(bytes) => Some(ExternalKey(verifier, bytes)) case None => None)
    case Delegated(address) => Some(DelegatedTo(address))
  }
}
