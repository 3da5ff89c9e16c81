/**
Content fingerprints and symbol records.

The artifact reader hashes a domain name and a payload into 16 bytes. Both are
length-prefixed, so under a collision-free hash a fingerprint is an injective,
domain-separated term; `Fingerprint` is that term. `Payload.dfy` proves that the
byte payloads really determine the arguments of `Initial`, `Round` and `Copy`.
*/
module Fingerprints {
  import opened Wrappers

  datatype UnresolvedCall = IndirectTable | ExternalImport | NativeIndirect | MissingRelocation

  datatype Fingerprint =
    | Content(domain: string, bytes: seq<nat>)
      // an identity a format backend hashed from the symbol itself
    | ArchiveSymbol(member: Fingerprint, child: Fingerprint)
    | Initial(content: Fingerprint, rooted: bool, size: nat, body: Option<Fingerprint>)
    | Round(own: Fingerprint, callers: multiset<Fingerprint>, callees: multiset<Fingerprint>,
            unresolved: set<UnresolvedCall>)
    | Copy(content: Fingerprint, colour: Fingerprint, number: Option<nat>)
  {
    /** An identity `assign_identities` did not make itself. */
    predicate Backend() {
      Content? || ArchiveSymbol?
    }
  }

  /** One parsed symbol; `rest` stands for the fields identity assignment never reads. */
  datatype Symbol = Symbol(
    fingerprint: Fingerprint,
    exported: bool,
    size: nat,
    body: Option<Fingerprint>,
    content: Option<Fingerprint>,
    identityByOrder: bool,
    rest: nat)
  {
    /** What two builds are matched on: the recorded content if there is one. */
    function ContentIdentity(): Fingerprint {
      if content.Some? then content.value else fingerprint
    }
  }

  /** One call as a backend finds it, when symbols are still known by where they stand. */
  datatype PositionalCall = PositionalCall(
    caller: nat,
    target: Option<nat>,
    unresolved: Option<UnresolvedCall>)

  /** A call by fingerprint, as it is recorded in the artifact. */
  datatype ArtifactCall = ArtifactCall(
    caller: Fingerprint,
    target: Option<Fingerprint>,
    unresolved: Option<UnresolvedCall>)
}
