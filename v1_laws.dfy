/** What the V1 codec promises, stated over the functions of `SerializationV1`:
    how the assembler's outcome is decided, what a serialized macaroon reads
    back as, and the two test fixtures. */
module V1Laws {
  import opened Wrappers
  import opened Utf8Text
  import opened Hex
  import opened Packets
  import opened Macaroons
  import opened SerializationV1

  // ---------------------------------------------------------------------------
  // Folding packets
  // ---------------------------------------------------------------------------

  /** The fold over `a + b` is the fold over `a` continued with `b`; an error or
      panic in `a` ends it. */
  lemma {:induction false} AssembleAppend(rules: Rules, a: seq<Packet>, b: seq<Packet>, st: Assembly)
    ensures Assemble(rules, a + b, st)
            == match Assemble(rules, a, st)
               case Ok(mid) => Assemble(rules, b, mid)
               case Err(e) => Err(e)
               case Panic(cause) => Panic(cause)
  {
    if a == [] {
      assert a + b == b;
    } else {
      assert (a + b)[0] == a[0];
      assert (a + b)[1..] == a[1..] + b;
      match Step(rules, st, a[0])
      case Ok(st') => AssembleAppend(rules, a[1..], b, st');
      case Err(e) =>
      case Panic(cause) =>
    }
  }

  /** Whole-call errors: once the packets before `p` were folded without error,
      a packet `p` whose step fails decides the outcome of the whole call,
      whatever follows it; no partial macaroon comes back. */
  lemma FirstFailureDecides(rules: Rules, ps: seq<Packet>, p: Packet, rest: seq<Packet>, st: Assembly)
    requires Assemble(rules, ps, st).Ok?
    requires !Step(rules, Assemble(rules, ps, st).value, p).Ok?
    ensures Assemble(rules, ps + [p] + rest, st) == Step(rules, Assemble(rules, ps, st).value, p)
  {
    var mid := Assemble(rules, ps, st).value;
    AssembleAppend(rules, ps, [p] + rest, st);
    assert ps + [p] + rest == ps + ([p] + rest);
    assert ([p] + rest)[0] == p;
  }

  /** A packet whose tag is none of the six V1 tags makes the call fail. */
  lemma {:induction false} UnknownKeyRejected(rules: Rules, ps: seq<Packet>, st: Assembly, i: nat)
    requires i < |ps| && !IsV1Tag(ps[i].key)
    ensures !Assemble(rules, ps, st).Ok?
  {
    if i == 0 {
      StepOutcomes(rules, st, ps[0]);
    } else {
      match Step(rules, st, ps[0])
      case Ok(st') =>
        assert ps[1..][i - 1] == ps[i];
        UnknownKeyRejected(rules, ps[1..], st', i - 1);
      case Err(e) =>
      case Panic(cause) =>
    }
  }

  /** The value of the last packet carrying `tag`, if any. */
  function LastValue(ps: seq<Packet>, tag: seq<Byte>): (r: Option<seq<Byte>>)
    ensures r.Some? ==> exists i :: 0 <= i < |ps| && ps[i] == Packet(tag, r.value)
  {
    if ps == [] then None
    else match LastValue(ps[1..], tag)
      case Some(v) =>
        var i :| 0 <= i < |ps[1..]| && ps[1..][i] == Packet(tag, v);
        assert ps[i + 1] == Packet(tag, v);
        Some(v)
      case None => if ps[0].key == tag then Some(ps[0].value) else None
  }

  /** Later packets overwrite earlier ones: after a successful fold the
      location and identifier are the trimmed values of the last such packets,
      and the signature is the first 32 bytes of the last signature packet's
      value (which has at least 32). Without such a packet the field keeps the
      value it had, so a stream with no `signature` packet leaves the
      signature at its default. */
  lemma {:induction false} LastPacketWins(rules: Rules, ps: seq<Packet>, st: Assembly)
    requires Assemble(rules, ps, st).Ok?
    ensures var m := Assemble(rules, ps, st).value.macaroon;
            && m.location == (match LastValue(ps, LOCATION) case Some(v) => Trim(v) case None => st.macaroon.location)
            && m.identifier == (match LastValue(ps, IDENTIFIER) case Some(v) => Trim(v) case None => st.macaroon.identifier)
            && (LastValue(ps, SIGNATURE).None? ==> m.signature == st.macaroon.signature)
            && (LastValue(ps, SIGNATURE).Some? ==>
                  var v := LastValue(ps, SIGNATURE).value;
                  |v| >= SIGNATURE_SIZE && m.signature == v[..SIGNATURE_SIZE])
  {
    if ps != [] {
      var st' := Step(rules, st, ps[0]).value;
      StepFields(rules, st, ps[0]);
      LastPacketWins(rules, ps[1..], st');
    }
  }

  /** What one successful step does to the location, identifier and
      signature. */
  lemma StepFields(rules: Rules, st: Assembly, p: Packet)
    requires Step(rules, st, p).Ok?
    ensures var m, m' := st.macaroon, Step(rules, st, p).value.macaroon;
            && m'.location == (if p.key == LOCATION then Trim(p.value) else m.location)
            && m'.identifier == (if p.key == IDENTIFIER then Trim(p.value) else m.identifier)
            && (p.key == SIGNATURE ==> |p.value| >= SIGNATURE_SIZE && m'.signature == p.value[..SIGNATURE_SIZE])
            && (p.key != SIGNATURE ==> m'.signature == m.signature)
  {
  }

  /** What one successful step does to the caveat accumulator and to the
      finalized caveats, for any state and any value. A `cid` on an empty id
      sets the trimmed id and keeps any orphan verifier id or location; a `cid`
      on an open caveat finalizes it and, as written, resets the accumulator
      without reading the value; `vid` and `cl` overwrite their field whatever
      it held; `signature` finalizes an open caveat; `location` and
      `identifier` leave both alone. */
  lemma StepCaveat(rules: Rules, st: Assembly, p: Packet)
    requires Step(rules, st, p).Ok?
    ensures var c, c' := st.caveat, Step(rules, st, p).value.caveat;
            var cs, cs' := st.macaroon.caveats, Step(rules, st, p).value.macaroon.caveats;
            && (p.key == CID && c.id == [] ==> c' == c.(id := Trim(p.value)) && cs' == cs)
            && (p.key == CID && c.id != [] && rules == AsWritten ==> c' == DefaultCaveat && cs' == cs + [c])
            && (p.key == CID && c.id != [] && rules == Corrected ==>
                  c' == DefaultCaveat.(id := Trim(p.value)) && cs' == cs + [c])
            && (p.key == VID ==> c' == c.(verifierId := Some(Trim(p.value))) && cs' == cs)
            && (p.key == CL ==> c' == c.(location := Some(Trim(p.value))) && cs' == cs)
            && (p.key == SIGNATURE && c.id != [] ==> c' == DefaultCaveat && cs' == cs + [c])
            && (p.key == SIGNATURE && c.id == [] ==> c' == c && cs' == cs)
            && (p.key == LOCATION || p.key == IDENTIFIER ==> c' == c && cs' == cs)
  {
    TagsDistinct();
  }

  // ---------------------------------------------------------------------------
  // What `serialize_v1` writes reads back as
  // ---------------------------------------------------------------------------

  /** A text field that survives the trip: valid UTF-8 (every Rust `String` is)
      with no white space at either end, which `trim` would remove. */
  predicate IsText(s: seq<Byte>)
  {
    ValidUtf8(s) && NoOuterSpace(s)
  }

  predicate WellFormedCaveat(c: Caveat)
  {
    IsText(c.id) && c.id != []
    && (c.verifierId.Some? ==> IsText(c.verifierId.value))
    && (c.location.Some? ==> IsText(c.location.value))
  }

  /** Every packet of the macaroon fits the four-digit length header. */
  predicate Fits(m: Macaroon)
  {
    forall p :: p in V1Packets(m) ==> PacketSize(p.key, p.value) <= MAX_PACKET_SIZE
  }

  /** A macaroon `serialize_v1` can write and `deserialize_v1` should give back. */
  predicate WellFormed(m: Macaroon)
  {
    IsText(m.location) && IsText(m.identifier) && |m.signature| == SIGNATURE_SIZE
    && (forall k :: 0 <= k < |m.caveats| ==> WellFormedCaveat(m.caveats[k]))
    && Fits(m)
  }

  lemma TagsAreAscii(key: seq<Byte>)
    requires IsV1Tag(key)
    ensures IsAscii(key) && SPACE !in key
  {
  }

  /** The six tags differ from one another. */
  lemma TagsDistinct()
    ensures LOCATION != IDENTIFIER && LOCATION != SIGNATURE && LOCATION != CID && LOCATION != VID && LOCATION != CL
    ensures IDENTIFIER != SIGNATURE && IDENTIFIER != CID && IDENTIFIER != VID && IDENTIFIER != CL
    ensures SIGNATURE != CID && SIGNATURE != VID && SIGNATURE != CL
    ensures CID != VID && CID != CL && VID != CL
  {
    assert |LOCATION| == 8 && |IDENTIFIER| == 10 && |SIGNATURE| == 9 && |CID| == 3 && |VID| == 3 && |CL| == 2;
    assert CID[0] != VID[0];
  }

  /** The six tags are text without a space. */
  lemma TagsAreFramable(key: seq<Byte>)
    requires IsV1Tag(key)
    ensures ValidUtf8(key) && SPACE !in key
  {
    TagsAreAscii(key);
    AsciiIsValid(key);
  }

  lemma {:induction false} CaveatsPacketsTags(cs: seq<Caveat>)
    ensures forall p :: p in CaveatsPackets(cs) ==> IsV1Tag(p.key)
  {
    if cs != [] {
      CaveatsPacketsTags(cs[1..]);
    }
  }

  lemma V1PacketsTags(m: Macaroon)
    ensures forall p :: p in V1Packets(m) ==> IsV1Tag(p.key)
  {
    CaveatsPacketsTags(m.caveats);
  }

  /** Every packet of a macaroon that fits can be framed. */
  lemma V1PacketsFramable(m: Macaroon)
    requires Fits(m)
    ensures forall i :: 0 <= i < |V1Packets(m)| ==> Framable(V1Packets(m)[i])
  {
    V1PacketsTags(m);
    forall i | 0 <= i < |V1Packets(m)| ensures Framable(V1Packets(m)[i]) {
      var p := V1Packets(m)[i];
      assert p in V1Packets(m);
      TagsAreFramable(p.key);
    }
  }

  /** The packet stream of a macaroon that fits reads back packet for packet,
      each value followed by the newline that ends its packet. */
  lemma V1PacketsReadBack(m: Macaroon)
    requires Fits(m)
    ensures ParsePackets(V1Bytes(m)) == Ok(Received(V1Packets(m)))
  {
    V1PacketsFramable(m);
    FrameReadsBack(V1Packets(m));
  }

  lemma ReceivedAppend(a: seq<Packet>, b: seq<Packet>)
    ensures Received(a + b) == Received(a) + Received(b)
  {
  }

  /** A text field, with its packet's newline, reads back unchanged. */
  lemma TextReadsBack(s: seq<Byte>)
    requires IsText(s)
    ensures TextOf(s + [NEWLINE]) == Ok(s)
  {
    assert IsAscii([NEWLINE]);
    AsciiIsValid([NEWLINE]);
    ConcatIsValid(s, [NEWLINE]);
    TrimDropsNewline(s);
  }

  /** Folding a one-packet list is one step. */
  lemma AssembleOne(rules: Rules, p: Packet, st: Assembly)
    ensures Assemble(rules, [p], st) == Step(rules, st, p)
  {
    assert [p][1..] == [];
  }

  /** Folding a packet in front of others is one step, then the rest. */
  lemma AssembleCons(rules: Rules, p: Packet, rest: seq<Packet>, st: Assembly)
    requires Step(rules, st, p).Ok?
    ensures Assemble(rules, [p] + rest, st) == Assemble(rules, rest, Step(rules, st, p).value)
  {
    assert ([p] + rest)[0] == p;
    assert ([p] + rest)[1..] == rest;
  }

  function VidPackets(c: Caveat): seq<Packet>
  {
    match c.verifierId case Some(v) => [Packet(VID, v)] case None => []
  }

  function ClPackets(c: Caveat): seq<Packet>
  {
    match c.location case Some(l) => [Packet(CL, l)] case None => []
  }

  /** The accumulator after the `vid` and `cl` packets of caveat `c`: each
      field `c` has overwrites the one of `acc`, and the others stay. */
  function Overlaid(c: Caveat, acc: Caveat): Caveat
  {
    Caveat(acc.id,
           if c.verifierId.Some? then c.verifierId else acc.verifierId,
           if c.location.Some? then c.location else acc.location)
  }

  /** The `vid` and `cl` packets of a caveat overwrite those two fields of any
      accumulator, and change nothing else. */
  lemma OptionalFieldsOverwrite(rules: Rules, c: Caveat, st: Assembly)
    requires WellFormedCaveat(c)
    ensures Assemble(rules, Received(VidPackets(c) + ClPackets(c)), st)
            == Ok(st.(caveat := Overlaid(c, st.caveat)))
  {
    TagsDistinct();
    ReceivedAppend(VidPackets(c), ClPackets(c));
    var st1 := st.(caveat := st.caveat.(verifierId := Overlaid(c, st.caveat).verifierId));
    match c.verifierId {
      case Some(v) =>
        TextReadsBack(v);
        assert Received(VidPackets(c)) == [Packet(VID, v + [NEWLINE])];
        assert Step(rules, st, Packet(VID, v + [NEWLINE])) == Ok(st1);
        AssembleOne(rules, Packet(VID, v + [NEWLINE]), st);
      case None =>
        assert Received(VidPackets(c)) == [];
    }
    assert Assemble(rules, Received(VidPackets(c)), st) == Ok(st1);
    var st2 := st.(caveat := Overlaid(c, st.caveat));
    match c.location {
      case Some(l) =>
        TextReadsBack(l);
        assert Received(ClPackets(c)) == [Packet(CL, l + [NEWLINE])];
        assert Step(rules, st1, Packet(CL, l + [NEWLINE])) == Ok(st2);
        AssembleOne(rules, Packet(CL, l + [NEWLINE]), st1);
      case None =>
        assert Received(ClPackets(c)) == [];
    }
    assert Assemble(rules, Received(ClPackets(c)), st1) == Ok(st2);
    AssembleAppend(rules, Received(VidPackets(c)), Received(ClPackets(c)), st);
  }

  /** The `vid` and `cl` packets of a caveat set those two fields of an
      accumulator that has neither, and nothing else. */
  lemma OptionalFieldsRead(rules: Rules, c: Caveat, st: Assembly)
    requires WellFormedCaveat(c)
    requires st.caveat.verifierId.None? && st.caveat.location.None?
    ensures Assemble(rules, Received(VidPackets(c) + ClPackets(c)), st)
            == Ok(st.(caveat := st.caveat.(verifierId := c.verifierId, location := c.location)))
  {
    OptionalFieldsOverwrite(rules, c, st);
  }

  /** The packets of one well-formed caveat, read with no caveat open (or, under
      the corrected rule, with any caveat open): the open caveat is finalized
      and the accumulator becomes exactly the caveat that was written. */
  lemma CaveatReadsBack(rules: Rules, c: Caveat, st: Assembly)
    requires WellFormedCaveat(c)
    requires st.caveat == DefaultCaveat || (rules == Corrected && st.caveat.id != [])
    ensures Assemble(rules, Received(CaveatPackets(c)), st)
            == Ok(Assembly(st.macaroon.(caveats := Flushed(st)), c))
  {
    var cid := Packet(CID, c.id);
    assert CaveatPackets(c) == [cid] + (VidPackets(c) + ClPackets(c));
    ReceivedAppend([cid], VidPackets(c) + ClPackets(c));
    TextReadsBack(c.id);
    var st1 := Assembly(st.macaroon.(caveats := Flushed(st)), Caveat(c.id, None, None));
    if st.caveat == DefaultCaveat {
      assert st.macaroon.caveats + [] == st.macaroon.caveats;
    }
    assert Step(rules, st, Packet(CID, c.id + [NEWLINE])) == Ok(st1);
    AssembleOne(rules, Packet(CID, c.id + [NEWLINE]), st);
    assert Received([cid]) == [Packet(CID, c.id + [NEWLINE])];
    AssembleAppend(rules, Received([cid]), Received(VidPackets(c) + ClPackets(c)), st);
    OptionalFieldsRead(rules, c, st1);
  }

  /** Under the as-written rule, the packets of a well-formed caveat read while
      another caveat is open: the open one is finalized, the new id is lost, and
      the accumulator keeps only the new caveat's verifier id and location. */
  lemma CaveatAfterOpenCaveatAsWritten(c: Caveat, st: Assembly)
    requires WellFormedCaveat(c)
    requires st.caveat.id != []
    ensures Assemble(AsWritten, Received(CaveatPackets(c)), st)
            == Ok(Assembly(st.macaroon.(caveats := st.macaroon.caveats + [st.caveat]),
                           Caveat([], c.verifierId, c.location)))
  {
    var cid := Packet(CID, c.id);
    assert CaveatPackets(c) == [cid] + (VidPackets(c) + ClPackets(c));
    ReceivedAppend([cid], VidPackets(c) + ClPackets(c));
    var st1 := Assembly(st.macaroon.(caveats := st.macaroon.caveats + [st.caveat]), DefaultCaveat);
    AssembleOne(AsWritten, Packet(CID, c.id + [NEWLINE]), st);
    assert Received([cid]) == [Packet(CID, c.id + [NEWLINE])];
    AssembleAppend(AsWritten, Received([cid]), Received(VidPackets(c) + ClPackets(c)), st);
    OptionalFieldsRead(AsWritten, c, st1);
  }

  /** Under the corrected rule, the packets of any number of well-formed
      caveats, read with the accumulator empty or holding a caveat: each caveat
      but the last is finalized in order, and the last stays open. */
  lemma {:induction false} CaveatsReadBackCorrected(cs: seq<Caveat>, st: Assembly)
    requires forall k :: 0 <= k < |cs| ==> WellFormedCaveat(cs[k])
    requires st.caveat == DefaultCaveat || st.caveat.id != []
    ensures cs == [] ==> Assemble(Corrected, Received(CaveatsPackets(cs)), st) == Ok(st)
    ensures cs != [] ==> Assemble(Corrected, Received(CaveatsPackets(cs)), st)
                         == Ok(Assembly(st.macaroon.(caveats := Flushed(st) + cs[..|cs| - 1]), cs[|cs| - 1]))
  {
    if cs == [] {
      assert Received(CaveatsPackets(cs)) == [];
    } else {
      var c := cs[0];
      var st1 := Assembly(st.macaroon.(caveats := Flushed(st)), c);
      var a, b := Received(CaveatPackets(c)), Received(CaveatsPackets(cs[1..]));
      assert Received(CaveatsPackets(cs)) == a + b by {
        ReceivedAppend(CaveatPackets(c), CaveatsPackets(cs[1..]));
      }
      assert Assemble(Corrected, a, st) == Ok(st1) by {
        CaveatReadsBack(Corrected, c, st);
      }
      assert Assemble(Corrected, a + b, st) == Assemble(Corrected, b, st1) by {
        AssembleAppend(Corrected, a, b, st);
      }
      assert forall k :: 0 <= k < |cs[1..]| ==> WellFormedCaveat(cs[1..][k]) by {
        forall k | 0 <= k < |cs[1..]| ensures WellFormedCaveat(cs[1..][k]) { assert cs[1..][k] == cs[k + 1]; }
      }
      CaveatsReadBackCorrected(cs[1..], st1);
      var expected := Assembly(st.macaroon.(caveats := Flushed(st) + cs[..|cs| - 1]), cs[|cs| - 1]);
      if |cs| > 1 {
        var tail := cs[1..];
        assert Assemble(Corrected, b, st1)
               == Ok(Assembly(st1.macaroon.(caveats := Flushed(st1) + tail[..|tail| - 1]), tail[|tail| - 1]));
        assert Flushed(st1) == Flushed(st) + [c];
        FrontOfTail(Flushed(st), cs);
        assert Flushed(st1) + tail[..|tail| - 1] == Flushed(st) + cs[..|cs| - 1];
        assert tail[|tail| - 1] == cs[|cs| - 1];
        assert st1.macaroon.(caveats := Flushed(st1) + tail[..|tail| - 1]) == expected.macaroon;
      } else {
        assert cs[1..] == [];
        assert Assemble(Corrected, b, st1) == Ok(st1);
        assert |cs| - 1 == 0;
        assert cs[..|cs| - 1] == [];
        assert Flushed(st) + cs[..|cs| - 1] == Flushed(st);
        assert expected.caveat == c;
        assert expected.macaroon == st1.macaroon;
      }
    }
  }

  lemma FrontOfTail<T>(prefix: seq<T>, cs: seq<T>)
    requires |cs| > 1
    ensures prefix + [cs[0]] + cs[1..][..|cs| - 2] == prefix + cs[..|cs| - 1]
    ensures cs[1..][|cs| - 2] == cs[|cs| - 1]
  {
    assert [cs[0]] + cs[1..][..|cs| - 2] == cs[..|cs| - 1];
  }

  /** The location and identifier packets, read from the start. */
  lemma HeadReadsBack(rules: Rules, m: Macaroon)
    requires IsText(m.location) && IsText(m.identifier)
    ensures Assemble(rules, Received([Packet(LOCATION, m.location), Packet(IDENTIFIER, m.identifier)]), Start)
            == Ok(Assembly(Macaroon(m.location, m.identifier, [], []), DefaultCaveat))
  {
    TagsDistinct();
    TextReadsBack(m.location);
    TextReadsBack(m.identifier);
    var r := Received([Packet(LOCATION, m.location), Packet(IDENTIFIER, m.identifier)]);
    assert r == [Packet(LOCATION, m.location + [NEWLINE]), Packet(IDENTIFIER, m.identifier + [NEWLINE])];
    var st1 := Assembly(DefaultMacaroon.(location := m.location), DefaultCaveat);
    assert Step(rules, Start, r[0]) == Ok(st1);
    assert r[1..] == [Packet(IDENTIFIER, m.identifier + [NEWLINE])];
    AssembleOne(rules, r[1], st1);
  }

  /** The signature packet of a 32-byte signature finalizes the open caveat and
      stores the signature. */
  lemma SignatureReadsBack(rules: Rules, sig: seq<Byte>, st: Assembly)
    requires |sig| == SIGNATURE_SIZE
    ensures Assemble(rules, Received([Packet(SIGNATURE, sig)]), st)
            == Ok(Assembly(st.macaroon.(caveats := Flushed(st), signature := sig),
                           if st.caveat.id != [] then DefaultCaveat else st.caveat))
  {
    assert Received([Packet(SIGNATURE, sig)]) == [Packet(SIGNATURE, sig + [NEWLINE])];
    assert (sig + [NEWLINE])[..SIGNATURE_SIZE] == sig;
    StepOutcomes(rules, st, Packet(SIGNATURE, sig + [NEWLINE]));
    AssembleOne(rules, Packet(SIGNATURE, sig + [NEWLINE]), st);
  }

  /** The packets a well-formed macaroon reads back as: its location and
      identifier packets, then those of its caveats and its signature. */
  lemma ReceivedV1(m: Macaroon)
    requires WellFormed(m)
    ensures ParsePackets(V1Bytes(m))
            == Ok(Received([Packet(LOCATION, m.location), Packet(IDENTIFIER, m.identifier)])
                  + (Received(CaveatsPackets(m.caveats)) + Received([Packet(SIGNATURE, m.signature)])))
  {
    var head := [Packet(LOCATION, m.location), Packet(IDENTIFIER, m.identifier)];
    var tail := CaveatsPackets(m.caveats) + [Packet(SIGNATURE, m.signature)];
    V1PacketsReadBack(m);
    assert V1Packets(m) == head + tail;
    ReceivedAppend(head, tail);
    ReceivedAppend(CaveatsPackets(m.caveats), [Packet(SIGNATURE, m.signature)]);
  }

  /** Folding the location and identifier packets first. */
  lemma HeadThenRest(rules: Rules, m: Macaroon, rest: seq<Packet>)
    requires IsText(m.location) && IsText(m.identifier)
    ensures Assemble(rules, Received([Packet(LOCATION, m.location), Packet(IDENTIFIER, m.identifier)]) + rest, Start)
            == Assemble(rules, rest, Assembly(Macaroon(m.location, m.identifier, [], []), DefaultCaveat))
  {
    HeadReadsBack(rules, m);
    AssembleAppend(rules, Received([Packet(LOCATION, m.location), Packet(IDENTIFIER, m.identifier)]), rest, Start);
  }

  /** What every round-trip proof starts from: a well-formed macaroon decodes
      as the fold of its caveat and signature packets from a macaroon holding
      its location and identifier. */
  lemma DecodeSplit(rules: Rules, m: Macaroon)
    requires WellFormed(m)
    ensures DecodeWith(rules, V1Bytes(m))
            == MacaroonOf(Assemble(rules, Received(CaveatsPackets(m.caveats)) + Received([Packet(SIGNATURE, m.signature)]),
                                   Assembly(Macaroon(m.location, m.identifier, [], []), DefaultCaveat)))
  {
    ReceivedV1(m);
    HeadThenRest(rules, m, Received(CaveatsPackets(m.caveats)) + Received([Packet(SIGNATURE, m.signature)]));
  }

  lemma CaveatsPacketsOfOne(c: Caveat)
    ensures CaveatsPackets([c]) == CaveatPackets(c)
  {
    assert [c][1..] == [];
    assert CaveatPackets(c) + [] == CaveatPackets(c);
  }

  lemma CaveatsPacketsOfTwo(c0: Caveat, c1: Caveat)
    ensures CaveatsPackets([c0, c1]) == CaveatPackets(c0) + CaveatPackets(c1)
  {
    assert [c0, c1][1..] == [c1];
    CaveatsPacketsOfOne(c1);
  }

  /** The signature packet closes the fold: with the finalized caveats of `st`
      being those of `m`, the result is `m` itself. */
  lemma SignatureCloses(rules: Rules, m: Macaroon, st: Assembly)
    requires |m.signature| == SIGNATURE_SIZE
    requires st.macaroon.location == m.location && st.macaroon.identifier == m.identifier
    requires Flushed(st) == m.caveats
    ensures MacaroonOf(Assemble(rules, Received([Packet(SIGNATURE, m.signature)]), st)) == Ok(m)
  {
    SignatureReadsBack(rules, m.signature, st);
  }

  /** Under the as-written rule, the packets of at most one well-formed
      caveat, read from a macaroon holding no caveat, leave exactly that
      caveat open, and the other fields alone. */
  lemma CaveatReadFromEmpty(cs: seq<Caveat>, st: Assembly)
    requires |cs| <= 1 && forall k :: 0 <= k < |cs| ==> WellFormedCaveat(cs[k])
    requires st.caveat == DefaultCaveat && st.macaroon.caveats == []
    ensures var r := Assemble(AsWritten, Received(CaveatsPackets(cs)), st);
            r.Ok? && Flushed(r.value) == cs
            && r.value.macaroon.location == st.macaroon.location
            && r.value.macaroon.identifier == st.macaroon.identifier
  {
    if cs == [] {
      assert Received(CaveatsPackets(cs)) == [];
    } else {
      assert cs == [cs[0]];
      CaveatsPacketsOfOne(cs[0]);
      CaveatReadsBack(AsWritten, cs[0], st);
      assert Flushed(st) == [];
    }
  }

  /** Round trip under the code as written: a well-formed macaroon with at most
      one caveat comes back unchanged. */
  lemma RoundTripV1(m: Macaroon)
    requires WellFormed(m) && |m.caveats| <= 1
    ensures DecodeV1(V1Bytes(m)) == Ok(m)
  {
    var st := Assembly(Macaroon(m.location, m.identifier, [], []), DefaultCaveat);
    var cav, sigs := Received(CaveatsPackets(m.caveats)), Received([Packet(SIGNATURE, m.signature)]);
    DecodeSplit(AsWritten, m);
    CaveatReadFromEmpty(m.caveats, st);
    AssembleAppend(AsWritten, cav, sigs, st);
    SignatureCloses(AsWritten, m, Assemble(AsWritten, cav, st).value);
  }

  /** Under the as-written rule, the packets of two well-formed caveats, read
      from a macaroon holding no caveat: the first is finalized when the second
      `cid` arrives, and the accumulator keeps only the second caveat's
      verifier id and location, under an empty id. */
  lemma TwoCaveatsRead(c0: Caveat, c1: Caveat, st: Assembly)
    requires WellFormedCaveat(c0) && WellFormedCaveat(c1)
    requires st.caveat == DefaultCaveat && st.macaroon.caveats == []
    ensures Assemble(AsWritten, Received(CaveatsPackets([c0, c1])), st)
            == Ok(Assembly(st.macaroon.(caveats := [c0]), Caveat([], c1.verifierId, c1.location)))
  {
    var st1 := Assembly(st.macaroon, c0);
    var a, b := Received(CaveatPackets(c0)), Received(CaveatPackets(c1));
    CaveatsPacketsOfTwo(c0, c1);
    ReceivedAppend(CaveatPackets(c0), CaveatPackets(c1));
    assert Assemble(AsWritten, a, st) == Ok(st1) by {
      CaveatReadsBack(AsWritten, c0, st);
      assert Flushed(st) == [];
    }
    assert Assemble(AsWritten, b, st1)
           == Ok(Assembly(st.macaroon.(caveats := [c0]), Caveat([], c1.verifierId, c1.location))) by {
      CaveatAfterOpenCaveatAsWritten(c1, st1);
      assert [] + [c0] == [c0];
    }
    AssembleAppend(AsWritten, a, b, st);
  }

  /** Finding, as written: a well-formed macaroon with two caveats comes back
      with only the first; the second caveat's id is dropped when its `cid`
      packet arrives, and its remaining fields are never finalized. */
  lemma TwoCaveatsLoseSecond(m: Macaroon)
    requires WellFormed(m) && |m.caveats| == 2
    ensures DecodeV1(V1Bytes(m)) == Ok(m.(caveats := m.caveats[..1]))
    ensures DecodeV1(V1Bytes(m)) != Ok(m)
  {
    var st := Assembly(Macaroon(m.location, m.identifier, [], []), DefaultCaveat);
    var cav, sigs := Received(CaveatsPackets(m.caveats)), Received([Packet(SIGNATURE, m.signature)]);
    var c0, c1 := m.caveats[0], m.caveats[1];
    var st2 := Assembly(st.macaroon.(caveats := [c0]), Caveat([], c1.verifierId, c1.location));
    assert Assemble(AsWritten, cav, st) == Ok(st2) by {
      assert m.caveats == [c0, c1];
      TwoCaveatsRead(c0, c1, st);
    }
    assert MacaroonOf(Assemble(AsWritten, cav + sigs, st)) == Ok(m.(caveats := m.caveats[..1])) by {
      AssembleAppend(AsWritten, cav, sigs, st);
      assert Flushed(st2) == m.caveats[..1];
      SignatureCloses(AsWritten, m.(caveats := m.caveats[..1]), st2);
    }
    DecodeSplit(AsWritten, m);
    assert |m.caveats[..1]| != |m.caveats|;
  }

  /** The packets of a well-formed caveat read into an accumulator with no
      id: the `cid` packet sets the id, and the caveat's own verifier id and
      location overwrite whatever the accumulator carried. */
  lemma CaveatOverCarry(rules: Rules, c: Caveat, st: Assembly)
    requires WellFormedCaveat(c)
    requires st.caveat.id == []
    ensures Assemble(rules, Received(CaveatPackets(c)), st)
            == Ok(st.(caveat := Overlaid(c, st.caveat.(id := c.id))))
  {
    var cid := Packet(CID, c.id);
    var st1 := st.(caveat := st.caveat.(id := c.id));
    assert CaveatPackets(c) == [cid] + (VidPackets(c) + ClPackets(c));
    ReceivedAppend([cid], VidPackets(c) + ClPackets(c));
    assert Received([cid]) == [Packet(CID, c.id + [NEWLINE])];
    assert Assemble(rules, Received([cid]), st) == Ok(st1) by {
      TextReadsBack(c.id);
      AssembleOne(rules, Packet(CID, c.id + [NEWLINE]), st);
    }
    AssembleAppend(rules, Received([cid]), Received(VidPackets(c) + ClPackets(c)), st);
    OptionalFieldsOverwrite(rules, c, st1);
  }

  /** As written, two well-formed caveats read from an accumulator with no id:
      the first, over what the accumulator carried, is finalized when the
      second `cid` arrives, and only the second's verifier id and location
      are carried on. */
  lemma CaveatPairAsWritten(c: Caveat, d: Caveat, rest: seq<Packet>, st: Assembly)
    requires WellFormedCaveat(c) && WellFormedCaveat(d)
    requires st.caveat.id == []
    ensures Assemble(AsWritten, Received(CaveatPackets(c)) + (Received(CaveatPackets(d)) + rest), st)
            == Assemble(AsWritten, rest,
                        Assembly(st.macaroon.(caveats := st.macaroon.caveats + [Overlaid(c, st.caveat.(id := c.id))]),
                                 Caveat([], d.verifierId, d.location)))
  {
    var a, b := Received(CaveatPackets(c)), Received(CaveatPackets(d));
    var st1 := st.(caveat := Overlaid(c, st.caveat.(id := c.id)));
    var st2 := Assembly(st.macaroon.(caveats := st.macaroon.caveats + [st1.caveat]), Caveat([], d.verifierId, d.location));
    assert Assemble(AsWritten, a, st) == Ok(st1) by {
      CaveatOverCarry(AsWritten, c, st);
    }
    assert Assemble(AsWritten, b, st1) == Ok(st2) by {
      CaveatAfterOpenCaveatAsWritten(d, st1);
    }
    AssembleAppend(AsWritten, a, b + rest, st);
    AssembleAppend(AsWritten, b, rest, st1);
  }

  /** The caveats `deserialize_v1` as written makes of the packets of `cs`,
      read from an accumulator carrying `carry`: the first of each pair is
      kept, over the fields carried into it, and the second loses its id and
      passes its verifier id and location on to the next pair. */
  function KeptAsWritten(cs: seq<Caveat>, carry: Caveat): seq<Caveat>
    decreases |cs|
  {
    if cs == [] then []
    else
      var first := Overlaid(cs[0], carry.(id := cs[0].id));
      if |cs| == 1 then [first]
      else [first] + KeptAsWritten(cs[2..], Caveat([], cs[1].verifierId, cs[1].location))
  }

  /** Half of the caveats, rounded up, are kept: the first, third, fifth and
      so on, each under its own id. */
  lemma {:induction false} KeptAsWrittenShape(cs: seq<Caveat>, carry: Caveat)
    ensures |KeptAsWritten(cs, carry)| == (|cs| + 1) / 2
    ensures forall k :: 0 <= k < |KeptAsWritten(cs, carry)| ==> KeptAsWritten(cs, carry)[k].id == cs[2 * k].id
  {
    if |cs| >= 2 {
      var carry' := Caveat([], cs[1].verifierId, cs[1].location);
      KeptAsWrittenShape(cs[2..], carry');
      var rest := KeptAsWritten(cs[2..], carry');
      assert KeptAsWritten(cs, carry) == [Overlaid(cs[0], carry.(id := cs[0].id))] + rest;
      forall k | 1 <= k < |KeptAsWritten(cs, carry)|
        ensures KeptAsWritten(cs, carry)[k].id == cs[2 * k].id
      {
        assert KeptAsWritten(cs, carry)[k] == rest[k - 1];
        assert cs[2..][2 * (k - 1)] == cs[2 * k];
      }
    }
  }

  /** The first two caveats of a list, read as written: the fold continues
      on the rest from the state `CaveatPairAsWritten` gives. */
  lemma CaveatsPairStep(cs: seq<Caveat>, st: Assembly)
    requires |cs| >= 2 && WellFormedCaveat(cs[0]) && WellFormedCaveat(cs[1])
    requires st.caveat.id == []
    ensures Assemble(AsWritten, Received(CaveatsPackets(cs)), st)
            == Assemble(AsWritten, Received(CaveatsPackets(cs[2..])),
                        Assembly(st.macaroon.(caveats := st.macaroon.caveats + [Overlaid(cs[0], st.caveat.(id := cs[0].id))]),
                                 Caveat([], cs[1].verifierId, cs[1].location)))
  {
    var c, d, tail := cs[0], cs[1], cs[2..];
    assert cs[1..][1..] == tail;
    assert CaveatsPackets(cs) == CaveatPackets(c) + (CaveatPackets(d) + CaveatsPackets(tail));
    ReceivedAppend(CaveatPackets(c), CaveatPackets(d) + CaveatsPackets(tail));
    ReceivedAppend(CaveatPackets(d), CaveatsPackets(tail));
    CaveatPairAsWritten(c, d, Received(CaveatsPackets(tail)), st);
  }

  /** The fold state the caveat packets of `cs` leave, as written, from an
      accumulator with no id: each pair finalizes its first caveat and
      carries the second's verifier id and location on. */
  function StateAsWritten(cs: seq<Caveat>, st: Assembly): Assembly
    decreases |cs|
  {
    if cs == [] then st
    else
      var first := Overlaid(cs[0], st.caveat.(id := cs[0].id));
      if |cs| == 1 then st.(caveat := first)
      else StateAsWritten(cs[2..], Assembly(st.macaroon.(caveats := st.macaroon.caveats + [first]),
                                            Caveat([], cs[1].verifierId, cs[1].location)))
  }

  /** As written, the caveat packets of well-formed caveats read from an
      accumulator with no id end in `StateAsWritten`. */
  lemma {:induction false} CaveatsReadAsWritten(cs: seq<Caveat>, st: Assembly)
    requires forall k :: 0 <= k < |cs| ==> WellFormedCaveat(cs[k])
    requires st.caveat.id == []
    ensures Assemble(AsWritten, Received(CaveatsPackets(cs)), st) == Ok(StateAsWritten(cs, st))
  {
    if cs == [] {
      assert Received(CaveatsPackets(cs)) == [];
    } else if |cs| == 1 {
      assert cs == [cs[0]];
      CaveatsPacketsOfOne(cs[0]);
      CaveatOverCarry(AsWritten, cs[0], st);
    } else {
      var st2 := Assembly(st.macaroon.(caveats := st.macaroon.caveats + [Overlaid(cs[0], st.caveat.(id := cs[0].id))]),
                          Caveat([], cs[1].verifierId, cs[1].location));
      assert forall k :: 0 <= k < |cs[2..]| ==> WellFormedCaveat(cs[2..][k]) by {
        forall k | 0 <= k < |cs[2..]| ensures WellFormedCaveat(cs[2..][k]) { assert cs[2..][k] == cs[k + 2]; }
      }
      CaveatsReadAsWritten(cs[2..], st2);
      CaveatsPairStep(cs, st);
    }
  }

  /** The state `StateAsWritten` leaves holds, finalized or open, exactly the
      caveats `KeptAsWritten` names after those already finalized, and every
      other field of the macaroon as it was. */
  lemma {:induction false} StateAsWrittenKeeps(cs: seq<Caveat>, st: Assembly)
    requires st.caveat.id == []
    requires forall k :: 0 <= k < |cs| ==> cs[k].id != []
    ensures StateAsWritten(cs, st).macaroon == st.macaroon.(caveats := StateAsWritten(cs, st).macaroon.caveats)
    ensures Flushed(StateAsWritten(cs, st)) == st.macaroon.caveats + KeptAsWritten(cs, st.caveat)
  {
    if cs == [] {
      assert st.macaroon.caveats + [] == st.macaroon.caveats;
    } else if |cs| >= 2 {
      var first := Overlaid(cs[0], st.caveat.(id := cs[0].id));
      var st2 := Assembly(st.macaroon.(caveats := st.macaroon.caveats + [first]), Caveat([], cs[1].verifierId, cs[1].location));
      assert forall k :: 0 <= k < |cs[2..]| ==> cs[2..][k].id != [] by {
        forall k | 0 <= k < |cs[2..]| ensures cs[2..][k].id != [] { assert cs[2..][k] == cs[k + 2]; }
      }
      StateAsWrittenKeeps(cs[2..], st2);
      assert KeptAsWritten(cs, st.caveat) == [first] + KeptAsWritten(cs[2..], st2.caveat);
      assert (st.macaroon.caveats + [first]) + KeptAsWritten(cs[2..], st2.caveat)
             == st.macaroon.caveats + ([first] + KeptAsWritten(cs[2..], st2.caveat));
    }
  }

  /** As written, every well-formed macaroon decodes to itself with its
      caveats replaced by those `KeptAsWritten` names. */
  lemma DecodeKeepsAlternateCaveats(m: Macaroon)
    requires WellFormed(m)
    ensures DecodeV1(V1Bytes(m)) == Ok(m.(caveats := KeptAsWritten(m.caveats, DefaultCaveat)))
  {
    var st := Assembly(Macaroon(m.location, m.identifier, [], []), DefaultCaveat);
    var cav, sigs := Received(CaveatsPackets(m.caveats)), Received([Packet(SIGNATURE, m.signature)]);
    DecodeSplit(AsWritten, m);
    CaveatsReadAsWritten(m.caveats, st);
    assert forall k :: 0 <= k < |m.caveats| ==> m.caveats[k].id != [] by {
      forall k | 0 <= k < |m.caveats| ensures m.caveats[k].id != [] { assert WellFormedCaveat(m.caveats[k]); }
    }
    StateAsWrittenKeeps(m.caveats, st);
    AssembleAppend(AsWritten, cav, sigs, st);
    assert [] + KeptAsWritten(m.caveats, DefaultCaveat) == KeptAsWritten(m.caveats, DefaultCaveat);
    SignatureCloses(AsWritten, m.(caveats := KeptAsWritten(m.caveats, DefaultCaveat)), Assemble(AsWritten, cav, st).value);
  }

  /** Finding, as written, for any number of caveats: a well-formed macaroon
      with two or more caveats decodes with only half of them, rounded up, so
      it never comes back unchanged. */
  lemma CaveatsLostAsWritten(m: Macaroon)
    requires WellFormed(m) && |m.caveats| >= 2
    ensures DecodeV1(V1Bytes(m)).Ok?
    ensures |DecodeV1(V1Bytes(m)).value.caveats| == (|m.caveats| + 1) / 2
    ensures DecodeV1(V1Bytes(m)) != Ok(m)
  {
    DecodeKeepsAlternateCaveats(m);
    KeptAsWrittenShape(m.caveats, DefaultCaveat);
  }

  /** As written, the fields of a lost caveat move on: in `cid a, cid b,
      vid v, cid c` the second `cid` finalizes `a` and drops `b`, the `vid`
      lands on the empty accumulator, and the third `cid` then opens caveat
      `c` carrying `b`'s verifier id. */
  lemma LostCaveatFieldsMoveOn(a: seq<Byte>, b: seq<Byte>, v: seq<Byte>, c: seq<Byte>, st: Assembly)
    requires ValidUtf8(a) && Trim(a) != [] && ValidUtf8(v) && ValidUtf8(c)
    requires st.caveat == DefaultCaveat
    ensures Assemble(AsWritten, [Packet(CID, a), Packet(CID, b), Packet(VID, v), Packet(CID, c)], st)
            == Ok(Assembly(st.macaroon.(caveats := st.macaroon.caveats + [Caveat(Trim(a), None, None)]),
                           Caveat(Trim(c), Some(Trim(v)), None)))
  {
    var m2 := st.macaroon.(caveats := st.macaroon.caveats + [Caveat(Trim(a), None, None)]);
    var st1 := Assembly(st.macaroon, Caveat(Trim(a), None, None));
    var st2 := Assembly(m2, DefaultCaveat);
    var st3 := Assembly(m2, Caveat([], Some(Trim(v)), None));
    var st4 := Assembly(m2, Caveat(Trim(c), Some(Trim(v)), None));
    var tail := [Packet(CID, c)];
    assert Assemble(AsWritten, tail, st3) == Ok(st4) by {
      assert Step(AsWritten, st3, Packet(CID, c)) == Ok(st4) by { TagsDistinct(); }
      AssembleOne(AsWritten, Packet(CID, c), st3);
    }
    assert Assemble(AsWritten, [Packet(VID, v)] + tail, st2) == Ok(st4) by {
      assert Step(AsWritten, st2, Packet(VID, v)) == Ok(st3) by { TagsDistinct(); }
      AssembleCons(AsWritten, Packet(VID, v), tail, st2);
    }
    assert Assemble(AsWritten, [Packet(CID, b)] + ([Packet(VID, v)] + tail), st1) == Ok(st4) by {
      assert Step(AsWritten, st1, Packet(CID, b)) == Ok(st2) by { TagsDistinct(); }
      AssembleCons(AsWritten, Packet(CID, b), [Packet(VID, v)] + tail, st1);
    }
    assert Step(AsWritten, st, Packet(CID, a)) == Ok(st1) by { TagsDistinct(); }
    AssembleCons(AsWritten, Packet(CID, a), [Packet(CID, b)] + ([Packet(VID, v)] + tail), st);
    assert [Packet(CID, a)] + ([Packet(CID, b)] + ([Packet(VID, v)] + tail))
           == [Packet(CID, a), Packet(CID, b), Packet(VID, v), Packet(CID, c)];
  }

  /** Under the corrected rule, the caveat packets of a well-formed macaroon,
      read from a macaroon holding no caveat, leave exactly its caveats
      finalized or open, and the other fields alone. */
  lemma CaveatsReadFromEmpty(cs: seq<Caveat>, st: Assembly)
    requires forall k :: 0 <= k < |cs| ==> WellFormedCaveat(cs[k])
    requires st.caveat == DefaultCaveat && st.macaroon.caveats == []
    ensures var r := Assemble(Corrected, Received(CaveatsPackets(cs)), st);
            r.Ok? && Flushed(r.value) == cs
            && r.value.macaroon.location == st.macaroon.location
            && r.value.macaroon.identifier == st.macaroon.identifier
  {
    CaveatsReadBackCorrected(cs, st);
    if cs != [] {
      assert WellFormedCaveat(cs[|cs| - 1]);
      LastCaveatOpen(cs, st);
    }
  }

  /** Closing the fold of a non-empty caveat list started from no caveats
      gives back the list. */
  lemma LastCaveatOpen(cs: seq<Caveat>, st: Assembly)
    requires cs != [] && cs[|cs| - 1].id != [] && st.caveat == DefaultCaveat && st.macaroon.caveats == []
    ensures Flushed(Assembly(st.macaroon.(caveats := Flushed(st) + cs[..|cs| - 1]), cs[|cs| - 1])) == cs
  {
    assert Flushed(st) == [];
    assert [] + cs[..|cs| - 1] + [cs[|cs| - 1]] == cs;
  }

  /** Round trip under the corrected rule: every well-formed macaroon comes
      back unchanged, whatever the number of caveats. */
  lemma RoundTripCorrected(m: Macaroon)
    requires WellFormed(m)
    ensures DecodeV1Corrected(V1Bytes(m)) == Ok(m)
  {
    var st := Assembly(Macaroon(m.location, m.identifier, [], []), DefaultCaveat);
    var cav, sigs := Received(CaveatsPackets(m.caveats)), Received([Packet(SIGNATURE, m.signature)]);
    DecodeSplit(Corrected, m);
    CaveatsReadFromEmpty(m.caveats, st);
    AssembleAppend(Corrected, cav, sigs, st);
    SignatureCloses(Corrected, m, Assemble(Corrected, cav, st).value);
  }

  // ---------------------------------------------------------------------------
  // Streams the as-written assembler accepts although they are malformed
  // ---------------------------------------------------------------------------

  /** A stream without a `signature` packet is accepted: the signature stays
      empty, and the caveat still open at the end is dropped. */
  lemma UnsignedStreamAccepted(location: seq<Byte>, identifier: seq<Byte>, id: seq<Byte>)
    requires IsText(location) && IsText(identifier) && IsText(id) && id != []
    requires PacketSize(LOCATION, location) <= MAX_PACKET_SIZE && PacketSize(IDENTIFIER, identifier) <= MAX_PACKET_SIZE
    requires PacketSize(CID, id) <= MAX_PACKET_SIZE
    ensures DecodeV1(Frame([Packet(LOCATION, location), Packet(IDENTIFIER, identifier), Packet(CID, id)]))
            == Ok(Macaroon(location, identifier, [], []))
  {
    var m := Macaroon(location, identifier, [], []);
    var head := [Packet(LOCATION, location), Packet(IDENTIFIER, identifier)];
    var ps := head + [Packet(CID, id)];
    assert ps == [Packet(LOCATION, location), Packet(IDENTIFIER, identifier), Packet(CID, id)];
    UnsignedPacketsReadBack(head, Packet(CID, id));
    HeadThenRest(AsWritten, m, Received([Packet(CID, id)]));
    OneCaveatLeftOpen(m, id);
  }

  lemma UnsignedPacketsReadBack(head: seq<Packet>, cid: Packet)
    requires forall i :: 0 <= i < |head| ==> IsV1Tag(head[i].key) && PacketSize(head[i].key, head[i].value) <= MAX_PACKET_SIZE
    requires IsV1Tag(cid.key) && PacketSize(cid.key, cid.value) <= MAX_PACKET_SIZE
    ensures ParsePackets(Frame(head + [cid])) == Ok(Received(head) + Received([cid]))
  {
    var ps := head + [cid];
    forall i | 0 <= i < |ps| ensures Framable(ps[i]) { TagsAreFramable(ps[i].key); }
    FrameReadsBack(ps);
    ReceivedAppend(head, [cid]);
  }

  lemma OneCaveatLeftOpen(m: Macaroon, id: seq<Byte>)
    requires IsText(id) && id != [] && m.caveats == []
    ensures Assemble(AsWritten, Received([Packet(CID, id)]), Assembly(m, DefaultCaveat))
            == Ok(Assembly(m, Caveat(id, None, None)))
  {
    assert CaveatPackets(Caveat(id, None, None)) == [Packet(CID, id)];
    CaveatReadsBack(AsWritten, Caveat(id, None, None), Assembly(m, DefaultCaveat));
  }

  /** A `vid` packet with no `cid` before it is accepted; the caveat it starts
      has an empty id, so the `signature` packet does not finalize it and it is
      silently dropped. */
  lemma OrphanVerifierIdDropped(v: seq<Byte>, sig: seq<Byte>)
    requires ValidUtf8(v) && |sig| == SIGNATURE_SIZE
    ensures Assemble(AsWritten, [Packet(VID, v), Packet(SIGNATURE, sig)], Start)
            == Ok(Assembly(Macaroon([], [], [], sig), Caveat([], Some(Trim(v)), None)))
  {
    TagsDistinct();
    var ps := [Packet(VID, v), Packet(SIGNATURE, sig)];
    var st1 := Assembly(DefaultMacaroon, Caveat([], Some(Trim(v)), None));
    assert Step(AsWritten, Start, ps[0]) == Ok(st1);
    assert ps[1..] == [Packet(SIGNATURE, sig)];
    assert sig[..SIGNATURE_SIZE] == sig;
    StepOutcomes(AsWritten, st1, Packet(SIGNATURE, sig));
    AssembleOne(AsWritten, Packet(SIGNATURE, sig), st1);
  }

  // ---------------------------------------------------------------------------
  // The two fixtures of the test module, base64-decoded
  // ---------------------------------------------------------------------------

  const FIXTURE_LOCATION: seq<Byte> :=   // "http://example.org/"
    [0x68, 0x74, 0x74, 0x70, 0x3A, 0x2F, 0x2F, 0x65, 0x78, 0x61, 0x6D, 0x70, 0x6C, 0x65, 0x2E, 0x6F, 0x72, 0x67, 0x2F]
  const FIXTURE_IDENTIFIER: seq<Byte> := [0x6B, 0x65, 0x79, 0x69, 0x64]   // "keyid"
  const FIXTURE_CAVEAT_ID: seq<Byte> :=  // "account = 3735928559"
    [0x61, 0x63, 0x63, 0x6F, 0x75, 0x6E, 0x74, 0x20, 0x3D, 0x20, 0x33, 0x37, 0x33, 0x35, 0x39, 0x32, 0x38, 0x35, 0x35, 0x39]

  const SIGNATURE_V1: seq<Byte> :=
    [124, 222, 231, 146, 81, 28, 91, 198, 245, 40, 72, 88, 5, 223, 233, 178,
     78, 120, 94, 40, 226, 169, 147, 1, 249, 215, 17, 198, 9, 227, 142, 247]
  const SIGNATURE_V1_WITH_CAVEAT: seq<Byte> :=
    [245, 72, 7, 246, 220, 110, 223, 136, 191, 15, 115, 6, 179, 130, 37, 98,
     163, 98, 83, 61, 191, 115, 57, 186, 97, 118, 93, 164, 189, 37, 157, 135]

  /** The packets of the two fixtures, in the order they appear. */
  const LOCATION_PACKET: seq<Byte> :=     // "0021location http://example.org/\n"
    [48, 48, 50, 49, 108, 111, 99, 97, 116, 105, 111, 110, 32, 104, 116, 116, 112, 58, 47, 47,
     101, 120, 97, 109, 112, 108, 101, 46, 111, 114, 103, 47, 10]
  const IDENTIFIER_PACKET: seq<Byte> :=   // "0015identifier keyid\n"
    [48, 48, 49, 53, 105, 100, 101, 110, 116, 105, 102, 105, 101, 114, 32, 107, 101, 121, 105, 100, 10]
  const CID_PACKET: seq<Byte> :=          // "001dcid account = 3735928559\n"
    [48, 48, 49, 100, 99, 105, 100, 32, 97, 99, 99, 111, 117, 110, 116, 32, 61, 32, 51, 55,
     51, 53, 57, 50, 56, 53, 53, 57, 10]
  const SIGNATURE_PACKET_PREFIX: seq<Byte> :=   // "002fsignature "
    [48, 48, 50, 102, 115, 105, 103, 110, 97, 116, 117, 114, 101, 32]

  /** `SERIALIZED_V1` after base64 decoding: 101 bytes. */
  const SERIALIZED_V1: seq<Byte> :=
    LOCATION_PACKET + IDENTIFIER_PACKET + (SIGNATURE_PACKET_PREFIX + SIGNATURE_V1 + [10])

  /** `SERIALIZED_V1_WITH_CAVEAT` after base64 decoding: 130 bytes. */
  const SERIALIZED_V1_WITH_CAVEAT: seq<Byte> :=
    LOCATION_PACKET + IDENTIFIER_PACKET + CID_PACKET + (SIGNATURE_PACKET_PREFIX + SIGNATURE_V1_WITH_CAVEAT + [10])

  lemma FrameOfThree(a: Packet, b: Packet, c: Packet)
    ensures Frame([a, b, c]) == PacketBytes(a.key, a.value) + PacketBytes(b.key, b.value) + PacketBytes(c.key, c.value)
  {
    FrameSnoc([a, b], c);
    FrameSnoc([a], b);
    FrameSnoc([], a);
    assert [] + [a] == [a];
    assert [a] + [b] == [a, b];
    assert [a, b] + [c] == [a, b, c];
  }

  lemma FrameOfFour(a: Packet, b: Packet, c: Packet, d: Packet)
    ensures Frame([a, b, c, d])
            == PacketBytes(a.key, a.value) + PacketBytes(b.key, b.value) + PacketBytes(c.key, c.value) + PacketBytes(d.key, d.value)
  {
    FrameOfThree(a, b, c);
    FrameSnoc([a, b, c], d);
    assert [a, b, c] + [d] == [a, b, c, d];
  }

  /** A packet whose header is known is the header, tag, space, value and
      newline. */
  lemma PacketBytesWithHeader(tag: seq<Byte>, value: seq<Byte>, header: seq<Byte>)
    requires Header(PacketSize(tag, value)) == header
    ensures PacketBytes(tag, value) == header + tag + [SPACE] + value + [NEWLINE]
  {
  }

  lemma HeaderOf33() ensures Header(33) == [48, 48, 50, 49] { }
  lemma HeaderOf21() ensures Header(21) == [48, 48, 49, 53] { }
  lemma HeaderOf29() ensures Header(29) == [48, 48, 49, 100] { }
  lemma HeaderOf47() ensures Header(47) == [48, 48, 50, 102] { }

  lemma LocationPacketBytes()
    ensures PacketBytes(LOCATION, FIXTURE_LOCATION) == LOCATION_PACKET
  {
    HeaderOf33();
    PacketBytesWithHeader(LOCATION, FIXTURE_LOCATION, [48, 48, 50, 49]);
  }

  lemma IdentifierPacketBytes()
    ensures PacketBytes(IDENTIFIER, FIXTURE_IDENTIFIER) == IDENTIFIER_PACKET
  {
    HeaderOf21();
    PacketBytesWithHeader(IDENTIFIER, FIXTURE_IDENTIFIER, [48, 48, 49, 53]);
  }

  lemma CidPacketBytes()
    ensures PacketBytes(CID, FIXTURE_CAVEAT_ID) == CID_PACKET
  {
    HeaderOf29();
    PacketBytesWithHeader(CID, FIXTURE_CAVEAT_ID, [48, 48, 49, 100]);
  }

  lemma SignaturePacketBytes(sig: seq<Byte>)
    requires |sig| == SIGNATURE_SIZE
    ensures PacketBytes(SIGNATURE, sig) == SIGNATURE_PACKET_PREFIX + sig + [10]
  {
    HeaderOf47();
    PacketBytesWithHeader(SIGNATURE, sig, [48, 48, 50, 102]);
  }

  lemma AsciiIsText(s: seq<Byte>)
    requires IsAscii(s) && NoOuterSpace(s)
    ensures IsText(s)
  {
    AsciiIsValid(s);
  }

  lemma FixtureLocationIsText() ensures IsText(FIXTURE_LOCATION) { AsciiIsText(FIXTURE_LOCATION); }
  lemma FixtureIdentifierIsText() ensures IsText(FIXTURE_IDENTIFIER) { AsciiIsText(FIXTURE_IDENTIFIER); }
  lemma FixtureCaveatIdIsText() ensures IsText(FIXTURE_CAVEAT_ID) { AsciiIsText(FIXTURE_CAVEAT_ID); }

  /** The macaroons the two fixtures encode. */
  const EXPECTED_V1: Macaroon := Macaroon(FIXTURE_LOCATION, FIXTURE_IDENTIFIER, [], SIGNATURE_V1)
  const EXPECTED_V1_WITH_CAVEAT: Macaroon :=
    Macaroon(FIXTURE_LOCATION, FIXTURE_IDENTIFIER, [Caveat(FIXTURE_CAVEAT_ID, None, None)], SIGNATURE_V1_WITH_CAVEAT)

  /** `serialize_v1` of the first expected macaroon writes the first fixture. */
  lemma SerializesToFixture()
    ensures V1Bytes(EXPECTED_V1) == SERIALIZED_V1
  {
    var m := EXPECTED_V1;
    var ps := [Packet(LOCATION, FIXTURE_LOCATION), Packet(IDENTIFIER, FIXTURE_IDENTIFIER), Packet(SIGNATURE, SIGNATURE_V1)];
    assert V1Packets(m) == ps by {
      assert CaveatsPackets([]) == [];
    }
    FrameOfThree(ps[0], ps[1], ps[2]);
    LocationPacketBytes();
    IdentifierPacketBytes();
    SignaturePacketBytes(SIGNATURE_V1);
  }

  /** `serialize_v1` of the second expected macaroon writes the second fixture. */
  lemma SerializesToFixtureWithCaveat()
    ensures V1Bytes(EXPECTED_V1_WITH_CAVEAT) == SERIALIZED_V1_WITH_CAVEAT
  {
    var m := EXPECTED_V1_WITH_CAVEAT;
    var c := Caveat(FIXTURE_CAVEAT_ID, None, None);
    var ps := [Packet(LOCATION, FIXTURE_LOCATION), Packet(IDENTIFIER, FIXTURE_IDENTIFIER),
               Packet(CID, FIXTURE_CAVEAT_ID), Packet(SIGNATURE, SIGNATURE_V1_WITH_CAVEAT)];
    assert V1Packets(m) == ps by {
      CaveatsPacketsOfOne(c);
      assert CaveatPackets(c) == [Packet(CID, FIXTURE_CAVEAT_ID)];
    }
    FrameOfFour(ps[0], ps[1], ps[2], ps[3]);
    LocationPacketBytes();
    IdentifierPacketBytes();
    CidPacketBytes();
    SignaturePacketBytes(SIGNATURE_V1_WITH_CAVEAT);
  }

  lemma ExpectedV1Fits()
    ensures Fits(EXPECTED_V1)
  {
    var m := EXPECTED_V1;
    assert CaveatsPackets([]) == [];
    assert V1Packets(m) == [Packet(LOCATION, FIXTURE_LOCATION), Packet(IDENTIFIER, FIXTURE_IDENTIFIER),
                            Packet(SIGNATURE, SIGNATURE_V1)];
  }

  lemma ExpectedV1WithCaveatFits()
    ensures Fits(EXPECTED_V1_WITH_CAVEAT)
  {
    var m := EXPECTED_V1_WITH_CAVEAT;
    var c := Caveat(FIXTURE_CAVEAT_ID, None, None);
    CaveatsPacketsOfOne(c);
    assert CaveatPackets(c) == [Packet(CID, FIXTURE_CAVEAT_ID)];
    assert V1Packets(m) == [Packet(LOCATION, FIXTURE_LOCATION), Packet(IDENTIFIER, FIXTURE_IDENTIFIER),
                            Packet(CID, FIXTURE_CAVEAT_ID), Packet(SIGNATURE, SIGNATURE_V1_WITH_CAVEAT)];
  }

  /** The fixture macaroons' texts are texts, and the caveat is well formed. */
  lemma ExpectedV1Texts()
    ensures var m := EXPECTED_V1;
            && IsText(m.location) && IsText(m.identifier) && |m.signature| == SIGNATURE_SIZE
            && forall k :: 0 <= k < |m.caveats| ==> WellFormedCaveat(m.caveats[k])
  {
    FixtureLocationIsText();
    FixtureIdentifierIsText();
  }

  lemma ExpectedV1WithCaveatTexts()
    ensures var m := EXPECTED_V1_WITH_CAVEAT;
            && IsText(m.location) && IsText(m.identifier) && |m.signature| == SIGNATURE_SIZE
            && forall k :: 0 <= k < |m.caveats| ==> WellFormedCaveat(m.caveats[k])
  {
    FixtureLocationIsText();
    FixtureIdentifierIsText();
    FixtureCaveatWellFormed();
  }

  lemma FixtureCaveatWellFormed()
    ensures WellFormedCaveat(Caveat(FIXTURE_CAVEAT_ID, None, None))
  {
    FixtureCaveatIdIsText();
  }

  /** `test_deserialize_v1`, first fixture: location "http://example.org/",
      identifier "keyid", no caveat and the fixture's signature. */
  lemma FixtureWithoutCaveat()
    ensures DecodeV1(SERIALIZED_V1) == Ok(EXPECTED_V1)
  {
    SerializesToFixture();
    ExpectedV1Texts();
    ExpectedV1Fits();
    RoundTripV1(EXPECTED_V1);
  }

  /** `test_deserialize_v1`, second fixture: the same with one caveat whose id
      is "account = 3735928559", with no verifier id and no location, and the
      second fixture's signature. */
  lemma FixtureWithCaveat()
    ensures DecodeV1(SERIALIZED_V1_WITH_CAVEAT) == Ok(EXPECTED_V1_WITH_CAVEAT)
  {
    SerializesToFixtureWithCaveat();
    ExpectedV1WithCaveatTexts();
    ExpectedV1WithCaveatFits();
    RoundTripV1(EXPECTED_V1_WITH_CAVEAT);
  }
}
