/** The token data model the V1 codec reads and writes, with only the fields it
    uses. Text fields hold the UTF-8 bytes of a Rust `String`. */
module Macaroons {
  import opened Wrappers

  /** A caveat: its predicate or third-party identifier, and for third-party
      caveats the verifier id and the third party's location. */
  datatype Caveat = Caveat(id: seq<Byte>, verifierId: Option<seq<Byte>>, location: Option<seq<Byte>>)

  /** A macaroon: location, identifier, ordered caveats and signature. */
  datatype Macaroon = Macaroon(location: seq<Byte>, identifier: seq<Byte>, caveats: seq<Caveat>, signature: seq<Byte>)

  /** `Caveat::default()`: empty id, no verifier id, no location. */
  const DefaultCaveat: Caveat := Caveat([], None, None)

  /** `Macaroon::default()`: empty texts, no caveats, empty signature. */
  const DefaultMacaroon: Macaroon := Macaroon([], [], [], [])

  /** Length of a signature the codec carries. */
  const SIGNATURE_SIZE: nat := 32
}
