/** Format V1: `serialize_v1` writes a macaroon as a run of packets, and
    `deserialize_v1` parses the packets back and folds them into a macaroon with
    one "caveat being built" accumulator. The base64 envelope around the packet
    bytes is not part of this module: the serializer's result is the buffer
    handed to `to_base64`, the deserializer's input the buffer `from_base64`
    returned. */
module SerializationV1 {
  import opened Wrappers
  import opened Utf8Text
  import opened Hex
  import opened Packets
  import opened Macaroons

  const LOCATION: seq<Byte> := [0x6C, 0x6F, 0x63, 0x61, 0x74, 0x69, 0x6F, 0x6E]               // "location"
  const IDENTIFIER: seq<Byte> := [0x69, 0x64, 0x65, 0x6E, 0x74, 0x69, 0x66, 0x69, 0x65, 0x72]  // "identifier"
  const SIGNATURE: seq<Byte> := [0x73, 0x69, 0x67, 0x6E, 0x61, 0x74, 0x75, 0x72, 0x65]         // "signature"
  const CID: seq<Byte> := [0x63, 0x69, 0x64]                                                   // "cid"
  const VID: seq<Byte> := [0x76, 0x69, 0x64]                                                   // "vid"
  const CL: seq<Byte> := [0x63, 0x6C]                                                          // "cl"

  predicate IsV1Tag(key: seq<Byte>)
  {
    key == LOCATION || key == IDENTIFIER || key == SIGNATURE || key == CID || key == VID || key == CL
  }

  // ---------------------------------------------------------------------------
  // Serializer
  // ---------------------------------------------------------------------------

  /** The packets of one caveat: `cid`, then `vid` if it has a verifier id,
      then `cl` if it has a location. */
  function CaveatPackets(c: Caveat): seq<Packet>
  {
    [Packet(CID, c.id)]
    + (match c.verifierId case Some(v) => [Packet(VID, v)] case None => [])
    + (match c.location case Some(l) => [Packet(CL, l)] case None => [])
  }

  function CaveatsPackets(cs: seq<Caveat>): seq<Packet>
  {
    if cs == [] then [] else CaveatPackets(cs[0]) + CaveatsPackets(cs[1..])
  }

  /** The packets `serialize_v1` writes, in order. */
  function V1Packets(m: Macaroon): seq<Packet>
  {
    [Packet(LOCATION, m.location), Packet(IDENTIFIER, m.identifier)]
    + CaveatsPackets(m.caveats)
    + [Packet(SIGNATURE, m.signature)]
  }

  /** The buffer `serialize_v1` base64-encodes. */
  function V1Bytes(m: Macaroon): seq<Byte>
  {
    Frame(V1Packets(m))
  }

  lemma {:induction false} CaveatsPacketsAppend(cs: seq<Caveat>, c: Caveat)
    ensures CaveatsPackets(cs + [c]) == CaveatsPackets(cs) + CaveatPackets(c)
  {
    if cs == [] {
      assert [c][1..] == [];
      assert cs + [c] == [c];
    } else {
      assert (cs + [c])[1..] == cs[1..] + [c];
      CaveatsPacketsAppend(cs[1..], c);
    }
  }

  /** Extending the output by one more packet. */
  lemma FrameSnoc(ps: seq<Packet>, p: Packet)
    ensures Frame(ps + [p]) == Frame(ps) + PacketBytes(p.key, p.value)
  {
    FrameAppend(ps, [p]);
    assert Frame([p]) == PacketBytes(p.key, p.value) + Frame([]);
  }

  /** The body of the caveat loop of `serialize_v1`: the `cid` packet, then
      the `vid` and `cl` packets of the fields that are present. */
  method SerializeCaveat(caveat: Caveat) returns (serialized: seq<Byte>)
    ensures serialized == Frame(CaveatPackets(caveat))
  {
    ghost var written: seq<Packet> := [Packet(CID, caveat.id)];
    serialized := SerializeAsPacket(CID, caveat.id);
    assert serialized == Frame(written) by {
      FrameSnoc([], Packet(CID, caveat.id));
      assert [] + [Packet(CID, caveat.id)] == written;
    }
    match caveat.verifierId {
      case Some(verifierId) =>
        var packet := SerializeAsPacket(VID, verifierId);
        FrameSnoc(written, Packet(VID, verifierId));
        serialized, written := serialized + packet, written + [Packet(VID, verifierId)];
      case None =>
    }
    match caveat.location {
      case Some(location) =>
        var packet := SerializeAsPacket(CL, location);
        FrameSnoc(written, Packet(CL, location));
        serialized, written := serialized + packet, written + [Packet(CL, location)];
      case None =>
    }
    assert written == CaveatPackets(caveat);
  }

  /** `serialize_v1`: append the location and identifier packets, the packets
      of each caveat in order, and the signature packet. */
  method SerializeV1(m: Macaroon) returns (serialized: seq<Byte>)
    ensures serialized == V1Bytes(m)
  {
    ghost var written: seq<Packet> := [Packet(LOCATION, m.location)];
    serialized := SerializeAsPacket(LOCATION, m.location);
    assert serialized == Frame(written) by {
      FrameSnoc([], Packet(LOCATION, m.location));
      assert [] + [Packet(LOCATION, m.location)] == written;
    }
    var packet := SerializeAsPacket(IDENTIFIER, m.identifier);
    FrameSnoc(written, Packet(IDENTIFIER, m.identifier));
    serialized, written := serialized + packet, written + [Packet(IDENTIFIER, m.identifier)];
    ghost var head := written;
    for i := 0 to |m.caveats|
      invariant written == head + CaveatsPackets(m.caveats[..i])
      invariant serialized == Frame(written)
    {
      var caveat := m.caveats[i];
      packet := SerializeCaveat(caveat);
      ghost var next := written + CaveatPackets(caveat);
      assert serialized + packet == Frame(next) by {
        FrameAppend(written, CaveatPackets(caveat));
      }
      assert next == head + CaveatsPackets(m.caveats[..i + 1]) by {
        assert m.caveats[..i + 1] == m.caveats[..i] + [caveat];
        CaveatsPacketsAppend(m.caveats[..i], caveat);
      }
      serialized, written := serialized + packet, next;
    }
    assert m.caveats[..|m.caveats|] == m.caveats;
    packet := SerializeAsPacket(SIGNATURE, m.signature);
    FrameSnoc(written, Packet(SIGNATURE, m.signature));
    serialized, written := serialized + packet, written + [Packet(SIGNATURE, m.signature)];
    assert written == V1Packets(m);
  }

  // ---------------------------------------------------------------------------
  // Caveat assembler
  // ---------------------------------------------------------------------------

  /** Which `cid` rule the assembler follows: the code as written, or the
      corrected one (see `Step`). */
  datatype Rules = AsWritten | Corrected

  /** The state `deserialize_v1` threads through its loop: the macaroon being
      built and the caveat being built. */
  datatype Assembly = Assembly(macaroon: Macaroon, caveat: Caveat)

  const Start: Assembly := Assembly(DefaultMacaroon, DefaultCaveat)

  /** `String::from(try_utf8!(value).trim())`. */
  function TextOf(value: seq<Byte>): (r: Outcome<seq<Byte>>)
  {
    if ValidUtf8(value) then Ok(Trim(value)) else Err(Utf8Error)
  }

  /** 1 when the accumulator holds a caveat (a non-empty id), else 0. */
  function Open(c: Caveat): nat
  {
    if c.id != [] then 1 else 0
  }

  /** The caveats finalized so far followed by the open one, if any. */
  function Flushed(st: Assembly): seq<Caveat>
  {
    st.macaroon.caveats + (if st.caveat.id != [] then [st.caveat] else [])
  }

  /** One iteration of the `deserialize_v1` loop. Under `AsWritten`, a `cid`
      arriving while a caveat is open finalizes it and leaves the accumulator at
      its default, dropping the new id; under `Corrected` the new caveat starts
      with that id. */
  function Step(rules: Rules, st: Assembly, p: Packet): Outcome<Assembly>
  {
    var m, c := st.macaroon, st.caveat;
    if p.key == LOCATION then
      match TextOf(p.value)
      case Ok(text) => Ok(Assembly(m.(location := text), c))
      case Err(e) => Err(e)
      case Panic(cause) => Panic(cause)
    else if p.key == IDENTIFIER then
      match TextOf(p.value)
      case Ok(text) => Ok(Assembly(m.(identifier := text), c))
      case Err(e) => Err(e)
      case Panic(cause) => Panic(cause)
    else if p.key == SIGNATURE then
      var flushed := if c.id != [] then Assembly(m.(caveats := m.caveats + [c]), DefaultCaveat) else st;
      if |p.value| < SIGNATURE_SIZE then Panic(SignatureTooShort)
      else Ok(flushed.(macaroon := flushed.macaroon.(signature := p.value[..SIGNATURE_SIZE])))
    else if p.key == CID then
      if c.id == [] then
        match TextOf(p.value)
        case Ok(text) => Ok(Assembly(m, c.(id := text)))
        case Err(e) => Err(e)
        case Panic(cause) => Panic(cause)
      else if rules == AsWritten then
        Ok(Assembly(m.(caveats := m.caveats + [c]), DefaultCaveat))
      else
        match TextOf(p.value)
        case Ok(text) => Ok(Assembly(m.(caveats := m.caveats + [c]), DefaultCaveat.(id := text)))
        case Err(e) => Err(e)
        case Panic(cause) => Panic(cause)
    else if p.key == VID then
      match TextOf(p.value)
      case Ok(text) => Ok(Assembly(m, c.(verifierId := Some(text))))
      case Err(e) => Err(e)
      case Panic(cause) => Panic(cause)
    else if p.key == CL then
      match TextOf(p.value)
      case Ok(text) => Ok(Assembly(m, c.(location := Some(text))))
      case Err(e) => Err(e)
      case Panic(cause) => Panic(cause)
    else Err(UnknownKey)
  }

  /** How one packet can end the call, and what the signature packet does. */
  lemma StepOutcomes(rules: Rules, st: Assembly, p: Packet)
    ensures !IsV1Tag(p.key) ==> Step(rules, st, p) == Err(UnknownKey)
    ensures (p.key == LOCATION || p.key == IDENTIFIER || p.key == VID || p.key == CL) && !ValidUtf8(p.value)
            ==> Step(rules, st, p) == Err(Utf8Error)
    ensures p.key == CID && (st.caveat.id == [] || rules == Corrected) && !ValidUtf8(p.value)
            ==> Step(rules, st, p) == Err(Utf8Error)
    ensures p.key == CID && st.caveat.id != [] && rules == AsWritten ==> Step(rules, st, p).Ok?
    ensures Step(rules, st, p).Ok?
            <==> IsV1Tag(p.key)
                 && (p.key == SIGNATURE ==> |p.value| >= SIGNATURE_SIZE)
                 && (p.key != SIGNATURE && !(p.key == CID && st.caveat.id != [] && rules == AsWritten) ==> ValidUtf8(p.value))
    ensures p.key == LOCATION && ValidUtf8(p.value)
            ==> Step(rules, st, p) == Ok(st.(macaroon := st.macaroon.(location := Trim(p.value))))
    ensures p.key == IDENTIFIER && ValidUtf8(p.value)
            ==> Step(rules, st, p) == Ok(st.(macaroon := st.macaroon.(identifier := Trim(p.value))))
    ensures p.key == VID && ValidUtf8(p.value)
            ==> Step(rules, st, p) == Ok(st.(caveat := st.caveat.(verifierId := Some(Trim(p.value)))))
    ensures p.key == CL && ValidUtf8(p.value)
            ==> Step(rules, st, p) == Ok(st.(caveat := st.caveat.(location := Some(Trim(p.value)))))
    ensures p.key == SIGNATURE && |p.value| < SIGNATURE_SIZE ==> Step(rules, st, p) == Panic(SignatureTooShort)
    ensures p.key == SIGNATURE && |p.value| >= SIGNATURE_SIZE ==>
              Step(rules, st, p)
              == Ok(Assembly(st.macaroon.(caveats := Flushed(st), signature := p.value[..SIGNATURE_SIZE]),
                             if st.caveat.id != [] then DefaultCaveat else st.caveat))
  {
    assert st.macaroon.caveats + [] == st.macaroon.caveats;
  }

  /** A step finalizes at most the open caveat, and only one with an id. */
  lemma StepAppendsOpenCaveat(rules: Rules, st: Assembly, p: Packet)
    requires Step(rules, st, p).Ok?
    ensures var caveats := Step(rules, st, p).value.macaroon.caveats;
            caveats == st.macaroon.caveats || (st.caveat.id != [] && caveats == st.macaroon.caveats + [st.caveat])
    ensures p.key != CID ==> Open(Step(rules, st, p).value.caveat) + |Step(rules, st, p).value.macaroon.caveats|
                             <= Open(st.caveat) + |st.macaroon.caveats|
    ensures p.key == CID ==> Open(Step(rules, st, p).value.caveat) + |Step(rules, st, p).value.macaroon.caveats|
                             <= Open(st.caveat) + |st.macaroon.caveats| + 1
  {
  }

  /** Number of `cid` packets. */
  function CidCount(ps: seq<Packet>): nat
  {
    if ps == [] then 0 else (if ps[0].key == CID then 1 else 0) + CidCount(ps[1..])
  }

  predicate AllIdsSet(cs: seq<Caveat>)
  {
    forall k :: 0 <= k < |cs| ==> cs[k].id != []
  }

  /** The `for packet in ...` loop of `deserialize_v1`: stops at the first
      error or panic. Finalized caveats are only ever appended, each has a
      non-empty id, and there are never more of them (counting the open one)
      than `cid` packets. */
  function Assemble(rules: Rules, ps: seq<Packet>, st: Assembly): Outcome<Assembly>
    decreases |ps|
  {
    if ps == [] then Ok(st)
    else match Step(rules, st, ps[0])
      case Ok(st') => Assemble(rules, ps[1..], st')
      case Err(e) => Err(e)
      case Panic(cause) => Panic(cause)
  }

  /** Caveats are only ever appended, each with a non-empty id, and no more of
      them (counting the open one) than there are `cid` packets. */
  lemma {:induction false} AssembleAppendsCaveats(rules: Rules, ps: seq<Packet>, st: Assembly)
    requires Assemble(rules, ps, st).Ok?
    ensures var r := Assemble(rules, ps, st).value;
            && st.macaroon.caveats <= r.macaroon.caveats
            && |r.macaroon.caveats| + Open(r.caveat) <= |st.macaroon.caveats| + Open(st.caveat) + CidCount(ps)
            && (AllIdsSet(st.macaroon.caveats) ==> AllIdsSet(r.macaroon.caveats))
  {
    if ps != [] {
      var st' := Step(rules, st, ps[0]).value;
      StepAppendsOpenCaveat(rules, st, ps[0]);
      AssembleAppendsCaveats(rules, ps[1..], st');
    }
  }

  /** `deserialize_v1` after base64 decoding: parse the packets, fold them from
      the default macaroon and default caveat, and return the macaroon; a caveat
      still open at the end is not part of it. */
  function DecodeWith(rules: Rules, data: seq<Byte>): Outcome<Macaroon>
  {
    match ParsePackets(data)
    case Err(e) => Err(e)
    case Panic(cause) => Panic(cause)
    case Ok(ps) => MacaroonOf(Assemble(rules, ps, Start))
  }

  /** The macaroon of a finished fold; the open caveat is not part of it. */
  function MacaroonOf(o: Outcome<Assembly>): Outcome<Macaroon>
  {
    match o
    case Ok(st) => Ok(st.macaroon)
    case Err(e) => Err(e)
    case Panic(cause) => Panic(cause)
  }

  /** A decoded macaroon has no more caveats than its buffer has `cid`
      packets, and each of them has an id. */
  lemma DecodedCaveats(rules: Rules, data: seq<Byte>)
    requires DecodeWith(rules, data).Ok?
    ensures ParsePackets(data).Ok?
    ensures var caveats := DecodeWith(rules, data).value.caveats;
            |caveats| <= CidCount(ParsePackets(data).value) && AllIdsSet(caveats)
  {
    AssembleAppendsCaveats(rules, ParsePackets(data).value, Start);
  }

  function DecodeV1(data: seq<Byte>): Outcome<Macaroon>
  {
    DecodeWith(AsWritten, data)
  }

  /** The assembler with the `cid` rule corrected. */
  function DecodeV1Corrected(data: seq<Byte>): Outcome<Macaroon>
  {
    DecodeWith(Corrected, data)
  }

  /** `deserialize_v1` (after `base64_decode`): the loop over the parsed
      packets, updating the macaroon and the caveat accumulator in place. */
  method DeserializeV1(data: seq<Byte>) returns (r: Outcome<Macaroon>)
    ensures r == DecodeV1(data)
  {
    var parsed := DeserializeAsPackets(data, []);
    if parsed.Err? {
      return Err(parsed.error);
    } else if parsed.Panic? {
      return Panic(parsed.cause);
    }
    var packets := parsed.value;
    var macaroon := DefaultMacaroon;
    var caveat := DefaultCaveat;
    for i := 0 to |packets|
      invariant Assemble(AsWritten, packets, Start) == Assemble(AsWritten, packets[i..], Assembly(macaroon, caveat))
    {
      var packet := packets[i];
      ghost var before := Assembly(macaroon, caveat);
      assert packets[i..][1..] == packets[i + 1..];
      if packet.key == LOCATION {
        if !ValidUtf8(packet.value) {
          return Err(Utf8Error);
        }
        macaroon := macaroon.(location := Trim(packet.value));
      } else if packet.key == IDENTIFIER {
        if !ValidUtf8(packet.value) {
          return Err(Utf8Error);
        }
        macaroon := macaroon.(identifier := Trim(packet.value));
      } else if packet.key == SIGNATURE {
        if caveat.id != [] {
          macaroon := macaroon.(caveats := macaroon.caveats + [caveat]);
          caveat := DefaultCaveat;
        }
        if |packet.value| < SIGNATURE_SIZE {
          return Panic(SignatureTooShort);
        }
        macaroon := macaroon.(signature := packet.value[..SIGNATURE_SIZE]);
      } else if packet.key == CID {
        if caveat.id == [] {
          if !ValidUtf8(packet.value) {
            return Err(Utf8Error);
          }
          caveat := caveat.(id := Trim(packet.value));
        } else {
          macaroon := macaroon.(caveats := macaroon.caveats + [caveat]);
          caveat := DefaultCaveat;
        }
      } else if packet.key == VID {
        if !ValidUtf8(packet.value) {
          return Err(Utf8Error);
        }
        caveat := caveat.(verifierId := Some(Trim(packet.value)));
      } else if packet.key == CL {
        if !ValidUtf8(packet.value) {
          return Err(Utf8Error);
        }
        caveat := caveat.(location := Some(Trim(packet.value)));
      } else {
        return Err(UnknownKey);
      }
      assert Step(AsWritten, before, packet) == Ok(Assembly(macaroon, caveat));
    }
    return Ok(macaroon);
  }
}
