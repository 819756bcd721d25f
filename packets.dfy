/** The V1 packet framer: one packet is `HHHH` (the packet's size in four hex
    digits) + tag + space + value + newline, and a buffer is a run of packets. */
module Packets {
  import opened Wrappers
  import opened Utf8Text
  import opened Hex

  const SPACE: Byte := 0x20

  /** `struct Packet`: the tag (checked to be UTF-8) and the raw bytes that
      followed the first space of the packet body. */
  datatype Packet = Packet(key: seq<Byte>, value: seq<Byte>)

  /** The size the serializer declares: `HEADER_SIZE + 2 + tag.len() + value.len()`. */
  function PacketSize(tag: seq<Byte>, value: seq<Byte>): nat
  {
    HEADER_SIZE + 2 + |tag| + |value|
  }

  /** The bytes `serialize_as_packet(tag, value)` produces. */
  function PacketBytes(tag: seq<Byte>, value: seq<Byte>): (p: seq<Byte>)
    ensures |p| == PacketSize(tag, value)
  {
    Header(PacketSize(tag, value)) + tag + [SPACE] + value + [NEWLINE]
  }

  /** `packet_header`: four pushes of `to_hex_char`, one per nibble. */
  method PacketHeader(size: nat) returns (header: seq<Byte>)
    ensures header == Header(size)
    ensures |header| == HEADER_SIZE
    ensures ParseHeader(header) == Ok(size % 0x10000)
  {
    header := [];
    header := header + [ToHexChar((size / 0x1000) % 16)];
    header := header + [ToHexChar((size / 0x100) % 16)];
    header := header + [ToHexChar((size / 0x10) % 16)];
    header := header + [ToHexChar(size % 16)];
    HeaderRoundTrip(size);
  }

  /** `serialize_as_packet`: the header, then the tag, a space, the value and a
      newline, appended in turn. The header wraps sizes above 0xFFFF. */
  method SerializeAsPacket(tag: seq<Byte>, value: seq<Byte>) returns (packet: seq<Byte>)
    ensures packet == PacketBytes(tag, value)
    ensures |packet| == PacketSize(tag, value)
  {
    var size := HEADER_SIZE + 2 + |tag| + |value|;
    packet := [];
    var header := PacketHeader(size);
    packet := packet + header;
    packet := packet + tag;
    packet := packet + [SPACE];
    packet := packet + value;
    packet := packet + [NEWLINE];
  }

  /** `Iterator::position`: the index of the first occurrence of `b` in `s`. */
  function Position(s: seq<Byte>, b: Byte): (r: Option<nat>)
    ensures r.None? <==> b !in s
    ensures r.Some? ==> r.value < |s| && s[r.value] == b && b !in s[..r.value]
    decreases |s|
  {
    if |s| == 0 then None
    else if s[0] == b then Some(0)
    else match Position(s[1..], b)
      case None => None
      case Some(i) =>
        assert s[..i + 1] == [s[0]] + s[1..][..i];
        Some(i + 1)
  }

  /** `get_split_index`: where the first space of a packet body is, or the
      key/value error when it has none. */
  function SplitIndex(body: seq<Byte>): (r: Outcome<nat>)
    ensures !r.Panic?
    ensures r.Err? <==> SPACE !in body
    ensures r.Err? ==> r.error == KeyValueError
    ensures r.Ok? ==> r.value < |body| && body[r.value] == SPACE && SPACE !in body[..r.value]
  {
    match Position(body, SPACE)
    case Some(i) => Ok(i)
    case None => Err(KeyValueError)
  }

  /** `deserialize_as_packets(data, packets)`: parse the packets of `data`,
      appending them to `packets`. */
  function ParsePacketsFrom(data: seq<Byte>, packets: seq<Packet>): Outcome<seq<Packet>>
    decreases |data|
  {
    if |data| == 0 then Ok(packets)
    else if |data| < HEADER_SIZE then Panic(HeaderTooShort)
    else match ParseHeader(data[..HEADER_SIZE])
      case Err(e) => Err(e)
      case Ok(size) =>
        if size < HEADER_SIZE || size > |data| then Panic(SizeOutOfRange)
        else
          var body := data[HEADER_SIZE..size];
          match SplitIndex(body)
          case Err(e) => Err(e)
          case Ok(index) =>
            var key := body[..index];
            if !ValidUtf8(key) then Err(Utf8Error)
            else ParsePacketsFrom(data[size..], packets + [Packet(key, body[index + 1..])])
  }

  /** How a parse step can end: an empty buffer is done, a short one or a size
      out of range panics, a bad header, a body without a space or a tag that
      is not UTF-8 is an error; otherwise the packet is appended and parsing
      goes on after it. */
  lemma ParseOutcomes(data: seq<Byte>, packets: seq<Packet>)
    ensures data == [] ==> ParsePacketsFrom(data, packets) == Ok(packets)
    ensures 0 < |data| < HEADER_SIZE ==> ParsePacketsFrom(data, packets) == Panic(HeaderTooShort)
    ensures |data| >= HEADER_SIZE && ParseHeader(data[..HEADER_SIZE]).Err? ==>
              ParsePacketsFrom(data, packets) == Err(ParseHeader(data[..HEADER_SIZE]).error)
    ensures |data| >= HEADER_SIZE && ParseHeader(data[..HEADER_SIZE]).Ok? ==>
              var size := ParseHeader(data[..HEADER_SIZE]).value;
              (size < HEADER_SIZE || size > |data| ==> ParsePacketsFrom(data, packets) == Panic(SizeOutOfRange))
              && (HEADER_SIZE <= size <= |data| && SPACE !in data[HEADER_SIZE..size] ==>
                    ParsePacketsFrom(data, packets) == Err(KeyValueError))
              && (HEADER_SIZE <= size <= |data| && SPACE in data[HEADER_SIZE..size] ==>
                    var body := data[HEADER_SIZE..size];
                    var index := SplitIndex(body).value;
                    (!ValidUtf8(body[..index]) ==> ParsePacketsFrom(data, packets) == Err(Utf8Error))
                    && (ValidUtf8(body[..index]) ==>
                          ParsePacketsFrom(data, packets)
                          == ParsePacketsFrom(data[size..], packets + [Packet(body[..index], body[index + 1..])])))
  {
  }

  /** Parsing only appends, and each packet parsed consumes its declared size,
      at least five bytes (header, a tag possibly empty, the space), so `data`
      holds at most `|data| / 5` packets. */
  lemma {:induction false} ParseCountBound(data: seq<Byte>, packets: seq<Packet>)
    requires ParsePacketsFrom(data, packets).Ok?
    ensures var r := ParsePacketsFrom(data, packets).value;
            packets <= r && 5 * (|r| - |packets|) <= |data|
    decreases |data|
  {
    if |data| != 0 {
      var size := ParseHeader(data[..HEADER_SIZE]).value;
      var body := data[HEADER_SIZE..size];
      var index := SplitIndex(body).value;
      ParseCountBound(data[size..], packets + [Packet(body[..index], body[index + 1..])]);
    }
  }

  /** Parse a whole buffer: `deserialize_as_packets(data, Vec::new())`. */
  function ParsePackets(data: seq<Byte>): Outcome<seq<Packet>>
  {
    ParsePacketsFrom(data, [])
  }

  /** `deserialize_as_packets`, its tail recursion run as a loop over the bytes
      not yet consumed. */
  method DeserializeAsPackets(data: seq<Byte>, packets: seq<Packet>) returns (r: Outcome<seq<Packet>>)
    ensures r == ParsePacketsFrom(data, packets)
  {
    var rest, parsed := data, packets;
    while |rest| != 0
      invariant ParsePacketsFrom(rest, parsed) == ParsePacketsFrom(data, packets)
      decreases |rest|
    {
      if |rest| < HEADER_SIZE {
        return Panic(HeaderTooShort);
      }
      var header := ParseHeader(rest[..HEADER_SIZE]);
      if header.Err? {
        return Err(header.error);
      }
      var size := header.value;
      if size < HEADER_SIZE || size > |rest| {
        return Panic(SizeOutOfRange);
      }
      var body := rest[HEADER_SIZE..size];
      var index := SplitIndex(body);
      if index.Err? {
        return Err(index.error);
      }
      var key := body[..index.value];
      if !ValidUtf8(key) {
        return Err(Utf8Error);
      }
      parsed := parsed + [Packet(key, body[index.value + 1..])];
      rest := rest[size..];
    }
    return Ok(parsed);
  }

  // ---------------------------------------------------------------------------
  // Framing a list of packets and parsing it back
  // ---------------------------------------------------------------------------

  /** A packet the framer writes so that it reads back: its tag is text without
      a space, and its size fits the four-digit header. */
  predicate Framable(p: Packet)
  {
    ValidUtf8(p.key) && SPACE !in p.key && PacketSize(p.key, p.value) <= MAX_PACKET_SIZE
  }

  /** The concatenation of `serialize_as_packet(tag_i, value_i)`. */
  function Frame(ps: seq<Packet>): seq<Byte>
  {
    if ps == [] then [] else PacketBytes(ps[0].key, ps[0].value) + Frame(ps[1..])
  }

  /** What the parser returns for a framed packet: the value keeps the newline
      that ends the packet, since it is everything after the first space. */
  function Received(ps: seq<Packet>): (r: seq<Packet>)
    ensures |r| == |ps|
  {
    seq(|ps|, i requires 0 <= i < |ps| => Packet(ps[i].key, ps[i].value + [NEWLINE]))
  }

  lemma {:induction false} FrameAppend(a: seq<Packet>, b: seq<Packet>)
    ensures Frame(a + b) == Frame(a) + Frame(b)
  {
    if a == [] {
      assert a + b == b;
    } else {
      assert (a + b)[1..] == a[1..] + b;
      FrameAppend(a[1..], b);
    }
  }

  /** The pieces of a framed packet followed by anything. */
  lemma PacketPieces(p: Packet, rest: seq<Byte>)
    ensures var data := PacketBytes(p.key, p.value) + rest;
            var size := PacketSize(p.key, p.value);
            && data[..HEADER_SIZE] == Header(size)
            && data[HEADER_SIZE..size] == p.key + [SPACE] + (p.value + [NEWLINE])
            && data[size..] == rest
  {
  }

  /** A body whose key has no space splits at the end of the key. */
  lemma SplitAfterKey(key: seq<Byte>, value: seq<Byte>)
    requires SPACE !in key
    ensures var body := key + [SPACE] + value;
            SplitIndex(body) == Ok(|key|) && body[..|key|] == key && body[|key| + 1..] == value
  {
    var body := key + [SPACE] + value;
    assert body[|key|] == SPACE;
    assert body[..|key|] == key;
    assert body[|key| + 1..] == value;
  }

  /** Parsing one framed packet followed by anything consumes exactly that
      packet. */
  lemma ParseOnePacket(p: Packet, rest: seq<Byte>, packets: seq<Packet>)
    requires Framable(p)
    ensures ParsePacketsFrom(PacketBytes(p.key, p.value) + rest, packets)
            == ParsePacketsFrom(rest, packets + [Packet(p.key, p.value + [NEWLINE])])
  {
    var size := PacketSize(p.key, p.value);
    PacketPieces(p, rest);
    HeaderRoundTrip(size);
    SplitAfterKey(p.key, p.value + [NEWLINE]);
  }

  /** Packet round trip: parsing the concatenation of framed packets yields
      them all, in order, each value with its newline. */
  lemma {:induction false} FrameRoundTrip(ps: seq<Packet>, packets: seq<Packet>)
    requires forall i :: 0 <= i < |ps| ==> Framable(ps[i])
    ensures ParsePacketsFrom(Frame(ps), packets) == Ok(packets + Received(ps))
  {
    if ps == [] {
      assert packets + Received(ps) == packets;
    } else {
      var p, tail := ps[0], ps[1..];
      var packets' := packets + [Packet(p.key, p.value + [NEWLINE])];
      assert ParsePacketsFrom(Frame(ps), packets) == ParsePacketsFrom(Frame(tail), packets') by {
        ParseOnePacket(p, Frame(tail), packets);
      }
      assert ParsePacketsFrom(Frame(tail), packets') == Ok(packets' + Received(tail)) by {
        assert forall i :: 0 <= i < |tail| ==> tail[i] == ps[i + 1];
        FrameRoundTrip(tail, packets');
      }
      assert packets' + Received(tail) == packets + Received(ps);
    }
  }

  /** The round trip from an empty packet list: a buffer of framed packets
      parses back to exactly those packets, values with their newline. */
  lemma FrameReadsBack(ps: seq<Packet>)
    requires forall i :: 0 <= i < |ps| ==> Framable(ps[i])
    ensures ParsePackets(Frame(ps)) == Ok(Received(ps))
  {
    FrameRoundTrip(ps, []);
    assert [] + Received(ps) == Received(ps);
  }
}
