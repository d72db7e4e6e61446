/** AAC packets in ADTS framing (ISO/IEC 14496-3 Subpart 1, Annex 1.A): the writer that wraps the
    packets of a CAF file, and the parser that finds the packets of an ADTS stream again. */
module Adts {
  import opened Common

  type Byte = b: nat | b < 0x100

  const SAMPLE_RATES: seq<nat> :=
    [96000, 88200, 64000, 48000, 44100, 32000, 24000, 22050, 16000, 12000, 11025, 8000, 7350]

  /** `offsets` holds the start of every packet and then the end of the last. */
  datatype AacPackets = AacPackets(sampleRate: nat, channels: nat, bytes: seq<Byte>, offsets: seq<int>) {

    /** Start and size of a packet. */
    function PacketInfo(index: nat): Option<(int, int)> {
      if index + 1 >= |offsets| then None else Some((offsets[index], offsets[index + 1] - offsets[index]))
    }
  }

  // ----- Headers -----

  /** Shifts and masks of disjoint bits are written as quotients, remainders and sums. */
  function Header(rateIndex: nat, channels: nat, payload: nat): (header: seq<Byte>)
    requires rateIndex < 13 && 1 <= channels <= 7 && payload + 7 <= 0x1FFF
    ensures |header| == 7
  {
    var length := payload + 7;
    [ 0xFF,
      0xF1,
      0x40 + rateIndex * 4 + channels / 4,
      channels % 4 * 0x40 + length / 0x800 % 4,
      length / 8 % 0x100,
      length % 8 * 0x20 + 0x1F,
      0xFC ]
  }

  predicate Synchronised(bytes: seq<Byte>, pos: nat)
    requires pos + 7 <= |bytes|
  {
    bytes[pos] == 0xFF && bytes[pos + 1] / 0x10 == 0xF
  }

  function HeaderSize(bytes: seq<Byte>, pos: nat): nat
    requires pos + 7 <= |bytes|
  {
    if bytes[pos + 1] % 2 == 1 then 7 else 9
  }

  function FrameLength(bytes: seq<Byte>, pos: nat): nat
    requires pos + 7 <= |bytes|
  {
    bytes[pos + 3] as int % 4 * 0x800 + bytes[pos + 4] as int * 8 + bytes[pos + 5] as int / 0x20
  }

  function SampleRate(bytes: seq<Byte>, pos: nat): nat
    requires pos + 7 <= |bytes|
  {
    var index := bytes[pos + 2] as int / 4 % 0x10;
    if index < |SAMPLE_RATES| then SAMPLE_RATES[index] else 44100
  }

  function Channels(bytes: seq<Byte>, pos: nat): nat
    requires pos + 7 <= |bytes|
  {
    var config := bytes[pos + 2] as int % 2 * 4 + bytes[pos + 3] as int / 0x40;
    if config == 0 then 2 else config
  }

  lemma HeaderReadsBack(rateIndex: nat, channels: nat, payload: nat, bytes: seq<Byte>, pos: nat)
    requires rateIndex < 13 && 1 <= channels <= 7 && payload + 7 <= 0x1FFF
    requires pos + 7 <= |bytes| && bytes[pos..pos + 7] == Header(rateIndex, channels, payload)
    ensures Synchronised(bytes, pos) && HeaderSize(bytes, pos) == 7
    ensures FrameLength(bytes, pos) == payload + 7
    ensures SampleRate(bytes, pos) == SAMPLE_RATES[rateIndex] && Channels(bytes, pos) == channels
  {
    var header := bytes[pos..pos + 7];
    assert forall i :: 0 <= i < 7 ==> bytes[pos + i] == header[i];
    assert bytes[pos] == header[0] && bytes[pos + 1] == header[1] && bytes[pos + 2] == header[2];
    assert bytes[pos + 3] == header[3] && bytes[pos + 4] == header[4] && bytes[pos + 5] == header[5];
    LengthFields(payload + 7);
    assert channels / 4 * 4 + channels % 4 == channels;
    assert header[2] / 4 % 0x10 == rateIndex && header[2] % 2 == channels / 4;
  }

  lemma LengthFields(length: nat)
    requires length <= 0x1FFF
    ensures length / 0x800 % 4 * 0x800 + length / 8 % 0x100 * 8 + length % 8 == length
  {
  }

  // ----- The format -----

  /** The fields of a header in the order of the standard (tables 1.A.6 and 1.A.7 of Annex 1.A), which has them follow
      each other bit by bit. `flags` are the four bits between the channels and the frame length. */
  datatype Fields = Fields(id: nat, layer: nat, protectionAbsent: nat, profile: nat, rateIndex: nat, privateBit: nat,
                           channels: nat, flags: nat, frameLength: nat, fullness: nat, blocks: nat)
  {
    predicate Fit() {
      && id < 2 && layer < 4 && protectionAbsent < 2 && profile < 4 && rateIndex < 16 && privateBit < 2
      && channels < 8 && flags < 16 && frameLength < 0x2000 && fullness < 0x800 && blocks < 4
    }

    /** All 56 bits, with 12 bits of synchronisation in front. */
    function Bits(): nat {
      var fixed := (((((0xFFF * 2 + id) * 4 + layer) * 2 + protectionAbsent) * 4 + profile) * 16 + rateIndex) * 2 + privateBit;
      (((fixed * 8 + channels) * 16 + flags) * 0x2000 + frameLength) * 0x800 * 4 + fullness * 4 + blocks
    }
  }

  function Shifted(bits: nat, b: Byte): nat {
    bits * 0x100 + b
  }

  /** Seven bytes, the first one in front. */
  function BitsOf(b0: Byte, b1: Byte, b2: Byte, b3: Byte, b4: Byte, b5: Byte, b6: Byte): nat {
    Shifted(Shifted(Shifted(Shifted(Shifted(Shifted(b0, b1), b2), b3), b4), b5), b6)
  }

  function BitsAt(bytes: seq<Byte>, pos: nat): nat
    requires pos + 7 <= |bytes|
  {
    BitsOf(bytes[pos], bytes[pos + 1], bytes[pos + 2], bytes[pos + 3], bytes[pos + 4], bytes[pos + 5], bytes[pos + 6])
  }

  /** The header that is written: MPEG-4 without a checksum, the low complexity profile, a variable rate and one block. */
  lemma HeaderIsAdts(rateIndex: nat, channels: nat, payload: nat)
    requires rateIndex < 13 && 1 <= channels <= 7 && payload + 7 <= 0x1FFF
    ensures BitsAt(Header(rateIndex, channels, payload), 0) ==
            Fields(0, 0, 1, 1, rateIndex, 0, channels, 0, payload + 7, 0x7FF, 0).Bits()
  {
    LengthFields(payload + 7);
  }

  lemma LastByte(x: nat, b: Byte, y: nat, c: Byte)
    requires Shifted(x, b) == Shifted(y, c)
    ensures x == y && b == c
  {
  }

  lemma SameBytes(b0: Byte, b1: Byte, b2: Byte, b3: Byte, b4: Byte, b5: Byte, b6: Byte,
                  c0: Byte, c1: Byte, c2: Byte, c3: Byte, c4: Byte, c5: Byte, c6: Byte)
    requires BitsOf(b0, b1, b2, b3, b4, b5, b6) == BitsOf(c0, c1, c2, c3, c4, c5, c6)
    ensures b0 == c0 && b1 == c1 && b2 == c2 && b3 == c3 && b4 == c4 && b5 == c5 && b6 == c6
  {
    hide Shifted;
    var b, c := Shifted(b0, b1), Shifted(c0, c1);
    var b', c' := Shifted(b, b2), Shifted(c, c2);
    var b'', c'' := Shifted(b', b3), Shifted(c', c3);
    var b''', c''' := Shifted(b'', b4), Shifted(c'', c4);
    LastByte(Shifted(b''', b5), b6, Shifted(c''', c5), c6);
    LastByte(b''', b5, c''', c5);
    LastByte(b'', b4, c'', c4);
    LastByte(b', b3, c', c3);
    LastByte(b, b2, c, c2);
    LastByte(b0, b1, c0, c1);
  }

  function ByteOf(f: Fields, i: nat): Byte
    requires f.Fit() && i < 7
  {
    if i == 0 then 0xFF
    else if i == 1 then 0xF0 + f.id * 8 + f.layer * 2 + f.protectionAbsent
    else if i == 2 then f.profile * 0x40 + f.rateIndex * 4 + f.privateBit * 2 + f.channels / 4
    else if i == 3 then f.channels % 4 * 0x40 + f.flags * 4 + f.frameLength / 0x800
    else if i == 4 then f.frameLength / 8 % 0x100
    else if i == 5 then f.frameLength % 8 * 0x20 + f.fullness / 0x40
    else f.fullness % 0x40 * 4 + f.blocks
  }

  lemma BytesOfFields(f: Fields)
    requires f.Fit()
    ensures f.Bits() == BitsOf(ByteOf(f, 0), ByteOf(f, 1), ByteOf(f, 2), ByteOf(f, 3), ByteOf(f, 4), ByteOf(f, 5), ByteOf(f, 6))
  {
    Divided(f.channels, f.frameLength);
    DividedFullness(f.fullness);
    BitsOfParts(f, f.channels / 4, f.channels % 4, f.frameLength / 0x800, f.frameLength / 8 % 0x100, f.frameLength % 8,
                f.fullness / 0x40, f.fullness % 0x40);
  }

  /** The fields that lie across bytes, by the parts that they have in each. */
  lemma BitsOfParts(f: Fields, c1: nat, c0: nat, l2: nat, l1: nat, l0: nat, u1: nat, u0: nat)
    requires f.Fit() && c1 < 2 && c0 < 4 && l2 < 4 && l1 < 0x100 && l0 < 8 && u1 < 0x20 && u0 < 0x40
    requires f.channels == c1 * 4 + c0 && f.frameLength == l2 * 0x800 + l1 * 8 + l0 && f.fullness == u1 * 0x40 + u0
    ensures f.Bits() == BitsOf(0xFF, 0xF0 + f.id * 8 + f.layer * 2 + f.protectionAbsent,
                               f.profile * 0x40 + f.rateIndex * 4 + f.privateBit * 2 + c1, c0 * 0x40 + f.flags * 4 + l2, l1,
                               l0 * 0x20 + u1, u0 * 4 + f.blocks)
  {
  }

  lemma DividedFullness(fullness: nat)
    requires fullness < 0x800
    ensures fullness / 0x40 < 0x20 && fullness / 0x40 * 0x40 + fullness % 0x40 == fullness
  {
  }

  lemma FieldsOfBytes(f: Fields)
    requires f.Fit()
    ensures ByteOf(f, 1) / 0x10 == 0xF && ByteOf(f, 1) % 2 == f.protectionAbsent
    ensures ByteOf(f, 2) / 4 % 0x10 == f.rateIndex && ByteOf(f, 2) % 2 * 4 + ByteOf(f, 3) / 0x40 == f.channels
    ensures ByteOf(f, 3) % 4 * 0x800 + ByteOf(f, 4) * 8 + ByteOf(f, 5) / 0x20 == f.frameLength
  {
    Byte1(f.id, f.layer, f.protectionAbsent);
    Byte2(f.profile, f.rateIndex, f.privateBit, f.channels / 4);
    Byte3(f.channels % 4, f.flags, f.frameLength / 0x800);
    Byte5(f.frameLength % 8, f.fullness / 0x40);
    Divided(f.channels, f.frameLength);
  }

  /** From any header that has these bits, the parser takes what the standard has there. */
  lemma ParserReadsFields(bytes: seq<Byte>, pos: nat, fields: Fields)
    requires pos + 7 <= |bytes| && fields.Fit() && BitsAt(bytes, pos) == fields.Bits()
    ensures Synchronised(bytes, pos) && FrameLength(bytes, pos) == fields.frameLength
    ensures HeaderSize(bytes, pos) == if fields.protectionAbsent == 1 then 7 else 9
    ensures SampleRate(bytes, pos) == if fields.rateIndex < 13 then SAMPLE_RATES[fields.rateIndex] else 44100
    ensures Channels(bytes, pos) == if fields.channels == 0 then 2 else fields.channels
  {
    BytesOfFields(fields);
    FieldsOfBytes(fields);
    hide BitsOf, Fields.Bits;
    assert ByteOf(fields, 0) == 0xFF;
    hide ByteOf;
    SameBytes(bytes[pos], bytes[pos + 1], bytes[pos + 2], bytes[pos + 3], bytes[pos + 4], bytes[pos + 5], bytes[pos + 6],
              ByteOf(fields, 0), ByteOf(fields, 1), ByteOf(fields, 2), ByteOf(fields, 3), ByteOf(fields, 4), ByteOf(fields, 5),
              ByteOf(fields, 6));
  }

  lemma Byte1(id: nat, layer: nat, protectionAbsent: nat)
    requires id < 2 && layer < 4 && protectionAbsent < 2
    ensures (0xF0 + id * 8 + layer * 2 + protectionAbsent) / 0x10 == 0xF
    ensures (0xF0 + id * 8 + layer * 2 + protectionAbsent) % 2 == protectionAbsent
  {
  }

  lemma Byte2(profile: nat, rateIndex: nat, privateBit: nat, high: nat)
    requires profile < 4 && rateIndex < 16 && privateBit < 2 && high < 2
    ensures (profile * 0x40 + rateIndex * 4 + privateBit * 2 + high) / 4 % 0x10 == rateIndex
    ensures (profile * 0x40 + rateIndex * 4 + privateBit * 2 + high) % 2 == high
  {
    assert (profile * 0x40 + rateIndex * 4 + privateBit * 2 + high) / 4 == profile * 0x10 + rateIndex;
  }

  lemma Byte3(low: nat, flags: nat, high: nat)
    requires low < 4 && flags < 16 && high < 4
    ensures (low * 0x40 + flags * 4 + high) / 0x40 == low && (low * 0x40 + flags * 4 + high) % 4 == high
  {
  }

  lemma Byte5(low: nat, fullness: nat)
    requires low < 8 && fullness < 0x20
    ensures (low * 0x20 + fullness) / 0x20 == low
  {
  }

  lemma Divided(channels: nat, length: nat)
    requires channels < 8 && length < 0x2000
    ensures channels / 4 < 2 && channels / 4 * 4 + channels % 4 == channels
    ensures length / 0x800 < 4 && length / 0x800 * 0x800 + length / 8 % 0x100 * 8 + length % 8 == length
  {
  }

  // ----- Frames -----

  /** A whole frame starts at `pos`. */
  ghost predicate FrameAt(bytes: seq<Byte>, pos: nat) {
    && pos + 7 <= |bytes| && Synchronised(bytes, pos)
    && HeaderSize(bytes, pos) <= FrameLength(bytes, pos) <= |bytes| - pos
  }

  /** Where the frames from `pos` on start, and where the last one ends. */
  ghost function FrameOffsets(bytes: seq<Byte>, pos: nat): (offsets: seq<int>)
    requires pos <= |bytes|
    ensures offsets != [] && offsets[0] == pos && forall i :: 0 <= i < |offsets| ==> pos <= offsets[i] <= |bytes|
    decreases |bytes| - pos
  {
    [pos] + if FrameAt(bytes, pos) then FrameOffsets(bytes, pos + FrameLength(bytes, pos)) else []
  }

  /** The offsets tile a prefix of the input with whole frames, and no further frame follows. */
  lemma {:induction false} OffsetsTile(bytes: seq<Byte>, pos: nat)
    requires pos <= |bytes|
    ensures var offsets := FrameOffsets(bytes, pos);
            && (forall i :: 0 <= i < |offsets| - 1 ==>
                  FrameAt(bytes, offsets[i]) && offsets[i + 1] == offsets[i] + FrameLength(bytes, offsets[i]))
            && !FrameAt(bytes, offsets[|offsets| - 1])
    decreases |bytes| - pos
  {
    if FrameAt(bytes, pos) {
      OffsetsTile(bytes, pos + FrameLength(bytes, pos));
    }
  }

  lemma FrameStep(bytes: seq<Byte>, pos: nat)
    requires FrameAt(bytes, pos)
    ensures var next := pos + FrameLength(bytes, pos);
            && pos + 7 <= next <= |bytes| && FrameOffsets(bytes, pos) == [pos] + FrameOffsets(bytes, next)
            && bytes[..pos] + bytes[pos..next] == bytes[..next]
  {
  }

  lemma FrameStop(bytes: seq<Byte>, pos: nat)
    requires pos <= |bytes| && !FrameAt(bytes, pos)
    ensures FrameOffsets(bytes, pos) == [pos]
  {
  }

  // ----- Streams -----

  ghost predicate Packable(payloads: seq<seq<Byte>>) {
    forall i :: 0 <= i < |payloads| ==> |payloads[i]| + 7 <= 0x1FFF
  }

  ghost function Frame(rateIndex: nat, channels: nat, payload: seq<Byte>): (frame: seq<Byte>)
    requires rateIndex < 13 && 1 <= channels <= 7 && |payload| + 7 <= 0x1FFF
    ensures |frame| == 7 + |payload|
  {
    Header(rateIndex, channels, |payload|) + payload
  }

  ghost function Stream(rateIndex: nat, channels: nat, payloads: seq<seq<Byte>>): seq<Byte>
    requires rateIndex < 13 && 1 <= channels <= 7 && Packable(payloads)
  {
    if payloads == [] then [] else Frame(rateIndex, channels, payloads[0]) + Stream(rateIndex, channels, payloads[1..])
  }

  /** Where the frames of a stream that starts at `from` start, and where the last one ends. */
  ghost function StreamOffsets(from: nat, payloads: seq<seq<Byte>>): (offsets: seq<int>)
    ensures |offsets| == |payloads| + 1 && offsets[0] == from
    decreases |payloads|
  {
    [from] + if payloads == [] then [] else StreamOffsets(from + 7 + |payloads[0]|, payloads[1..])
  }

  lemma EmptyStream(rateIndex: nat, channels: nat)
    requires rateIndex < 13 && 1 <= channels <= 7
    ensures Stream(rateIndex, channels, []) == [] && StreamOffsets(0, []) == [0]
  {
  }

  lemma {:induction false} StreamAppend(rateIndex: nat, channels: nat, payloads: seq<seq<Byte>>, last: seq<Byte>)
    requires rateIndex < 13 && 1 <= channels <= 7 && Packable(payloads) && |last| + 7 <= 0x1FFF
    ensures Stream(rateIndex, channels, payloads + [last]) ==
            Stream(rateIndex, channels, payloads) + Frame(rateIndex, channels, last)
  {
    hide Frame, Header;
    if payloads == [] {
      assert payloads + [last] == [last];
      assert [last][1..] == [];
    } else {
      assert (payloads + [last])[1..] == payloads[1..] + [last];
      StreamAppend(rateIndex, channels, payloads[1..], last);
    }
  }

  lemma {:induction false} OffsetsAppend(from: nat, payloads: seq<seq<Byte>>, last: seq<Byte>)
    ensures var offsets := StreamOffsets(from, payloads);
            StreamOffsets(from, payloads + [last]) == offsets + [offsets[|payloads|] + 7 + |last|]
    decreases |payloads|
  {
    if payloads == [] {
      assert payloads + [last] == [last] && [last][1..] == [];
    } else {
      var next, rest := from + 7 + |payloads[0]|, payloads[1..];
      assert (payloads + [last])[1..] == rest + [last];
      OffsetsAppend(next, rest, last);
      assert StreamOffsets(from, payloads) == [from] + StreamOffsets(next, rest);
      assert StreamOffsets(from, payloads + [last]) == [from] + StreamOffsets(next, rest + [last]);
    }
  }

  lemma {:induction false} LastOffset(rateIndex: nat, channels: nat, from: nat, payloads: seq<seq<Byte>>)
    requires rateIndex < 13 && 1 <= channels <= 7 && Packable(payloads)
    ensures StreamOffsets(from, payloads)[|payloads|] == from + |Stream(rateIndex, channels, payloads)|
    decreases |payloads|
  {
    hide Frame, Header;
    if payloads == [] {
    } else {
      var next, rest := from + 7 + |payloads[0]|, payloads[1..];
      LastOffset(rateIndex, channels, next, rest);
      assert StreamOffsets(from, payloads) == [from] + StreamOffsets(next, rest);
      assert |Stream(rateIndex, channels, payloads)| == 7 + |payloads[0]| + |Stream(rateIndex, channels, rest)|;
    }
  }

  /** Parsing a written stream, after whatever comes before it, finds exactly the frames that were written. */
  lemma {:induction false} OffsetsOfStream(rateIndex: nat, channels: nat, before: seq<Byte>, payloads: seq<seq<Byte>>)
    requires rateIndex < 13 && 1 <= channels <= 7 && Packable(payloads)
    ensures FrameOffsets(before + Stream(rateIndex, channels, payloads), |before|) == StreamOffsets(|before|, payloads)
    decreases |payloads|
  {
    hide Frame, Header, FrameAt, FrameLength, SampleRate, Channels;
    if payloads == [] {
      assert Stream(rateIndex, channels, payloads) == [];
      NoFrameAtEnd(before);
    } else {
      var frame, rest := Frame(rateIndex, channels, payloads[0]), Stream(rateIndex, channels, payloads[1..]);
      FrameReadsBack(rateIndex, channels, before, payloads[0], rest);
      assert before + (frame + rest) == (before + frame) + rest;
      OffsetsOfStream(rateIndex, channels, before + frame, payloads[1..]);
    }
  }

  lemma NoFrameAtEnd(bytes: seq<Byte>)
    ensures !FrameAt(bytes, |bytes|)
    ensures bytes + [] == bytes
  {
  }

  lemma FrameReadsBack(rateIndex: nat, channels: nat, before: seq<Byte>, payload: seq<Byte>, rest: seq<Byte>)
    requires rateIndex < 13 && 1 <= channels <= 7 && |payload| + 7 <= 0x1FFF
    ensures var bytes := before + (Frame(rateIndex, channels, payload) + rest);
            && FrameAt(bytes, |before|) && FrameLength(bytes, |before|) == 7 + |payload|
            && SampleRate(bytes, |before|) == SAMPLE_RATES[rateIndex] && Channels(bytes, |before|) == channels
  {
    hide Header;
    var bytes := before + (Frame(rateIndex, channels, payload) + rest);
    assert bytes[|before|..|before| + 7] == Header(rateIndex, channels, |payload|);
    HeaderReadsBack(rateIndex, channels, |payload|, bytes, |before|);
  }

  lemma {:induction false} FrameOfStream(rateIndex: nat, channels: nat, before: seq<Byte>, payloads: seq<seq<Byte>>, i: nat)
    requires rateIndex < 13 && 1 <= channels <= 7 && Packable(payloads) && i < |payloads|
    ensures var bytes, offsets := before + Stream(rateIndex, channels, payloads), StreamOffsets(|before|, payloads);
            && 0 <= offsets[i] < offsets[i + 1] <= |bytes|
            && bytes[offsets[i]..offsets[i + 1]] == Frame(rateIndex, channels, payloads[i])
    decreases |payloads|
  {
    hide Frame, Header;
    var frame, rest := Frame(rateIndex, channels, payloads[0]), Stream(rateIndex, channels, payloads[1..]);
    assert before + (frame + rest) == (before + frame) + rest;
    if i > 0 {
      FrameOfStream(rateIndex, channels, before + frame, payloads[1..], i - 1);
    }
  }

  /** What the writer makes of any non-empty list of packets, the parser recovers: all offsets up to the end of the
      stream, the sample rate and the channel count. */
  lemma RoundTrip(rateIndex: nat, channels: nat, payloads: seq<seq<Byte>>)
    requires rateIndex < 13 && 1 <= channels <= 7 && Packable(payloads) && payloads != []
    ensures var stream := Stream(rateIndex, channels, payloads);
            && FrameAt(stream, 0) && FrameOffsets(stream, 0) == StreamOffsets(0, payloads)
            && StreamOffsets(0, payloads)[|payloads|] == |stream|
            && SampleRate(stream, 0) == SAMPLE_RATES[rateIndex] && Channels(stream, 0) == channels
  {
    hide Header, Frame, FrameAt, FrameLength, SampleRate, Channels;
    assert [] + Stream(rateIndex, channels, payloads) == Stream(rateIndex, channels, payloads);
    FrameReadsBack(rateIndex, channels, [], payloads[0], Stream(rateIndex, channels, payloads[1..]));
    OffsetsOfStream(rateIndex, channels, [], payloads);
    LastOffset(rateIndex, channels, 0, payloads);
  }

  /** Packet `i` is found at its offset: a header and then the payload. */
  lemma PacketHoldsPayload(rateIndex: nat, channels: nat, payloads: seq<seq<Byte>>, packets: AacPackets, i: nat)
    requires rateIndex < 13 && 1 <= channels <= 7 && Packable(payloads) && i < |payloads|
    requires packets.bytes == Stream(rateIndex, channels, payloads) && packets.offsets == StreamOffsets(0, payloads)
    ensures var info := packets.PacketInfo(i);
            && info.Some? && info.value.1 == 7 + |payloads[i]|
            && 0 <= info.value.0 <= info.value.0 + info.value.1 <= |packets.bytes|
            && packets.bytes[info.value.0..info.value.0 + info.value.1] == Frame(rateIndex, channels, payloads[i])
  {
    hide Header, Frame;
    assert [] + packets.bytes == packets.bytes;
    FrameOfStream(rateIndex, channels, [], payloads, i);
  }

  // ----- The writer and the parser -----

  method RateIndex(rate: nat) returns (index: Option<nat>)
    ensures index.Some? <==> rate in SAMPLE_RATES
    ensures index.Some? ==> index.value < |SAMPLE_RATES| && SAMPLE_RATES[index.value] == rate
  {
    for i := 0 to |SAMPLE_RATES|
      invariant rate !in SAMPLE_RATES[..i]
    {
      if SAMPLE_RATES[i] == rate {
        return Some(i);
      }
    }
    return None;
  }

  /** Wraps the packets of a CAF file; `payloads` is what its packet reader yields. */
  method WritePackets(rate: nat, channels: nat, payloads: seq<seq<Byte>>) returns (r: Option<AacPackets>)
    ensures r.Some? <==> rate in SAMPLE_RATES && 1 <= channels <= 7 && Packable(payloads)
    ensures r.Some? ==> r.value.sampleRate == rate && r.value.channels == channels
    ensures r.Some? ==> r.value.offsets == StreamOffsets(0, payloads)
    ensures r.Some? ==> exists index: nat :: index < 13 && SAMPLE_RATES[index] == rate &&
                                             r.value.bytes == Stream(index, channels, payloads)
  {
    hide Header, Stream, StreamOffsets;
    var rateIndex := RateIndex(rate);
    if rateIndex == None || !(1 <= channels <= 7) {
      return None;
    }
    var bytes: seq<Byte>, offsets: seq<int> := [], [];
    EmptyStream(rateIndex.value, channels);
    for i := 0 to |payloads|
      invariant Packable(payloads[..i])
      invariant bytes == Stream(rateIndex.value, channels, payloads[..i])
      invariant offsets + [|bytes|] == StreamOffsets(0, payloads[..i])
    {
      if |payloads[i]| + 7 > 0x1FFF {
        return None;
      }
      assert payloads[..i + 1] == payloads[..i] + [payloads[i]];
      StreamAppend(rateIndex.value, channels, payloads[..i], payloads[i]);
      OffsetsAppend(0, payloads[..i], payloads[i]);
      LastOffset(rateIndex.value, channels, 0, payloads[..i]);
      offsets := offsets + [|bytes|];
      bytes := bytes + Header(rateIndex.value, channels, |payloads[i]|);
      bytes := bytes + payloads[i];
    }
    assert payloads[..|payloads|] == payloads;
    offsets := offsets + [|bytes|];
    return Some(AacPackets(rate, channels, bytes, offsets));
  }

  method Parse(bytes: seq<Byte>) returns (r: Option<AacPackets>)
    ensures r.Some? <==> FrameAt(bytes, 0)
    ensures r.Some? ==> r.value.offsets == FrameOffsets(bytes, 0)
    ensures r.Some? ==> r.value.bytes == bytes[..r.value.offsets[|r.value.offsets| - 1]]
    ensures r.Some? ==> r.value.sampleRate == SampleRate(bytes, 0) && r.value.channels == Channels(bytes, 0)
  {
    hide Synchronised, HeaderSize, FrameLength, SampleRate, Channels, FrameOffsets;
    var pos := 0;
    var sampleRate, channels := 44100, 2;
    var packetBytes: seq<Byte>, offsets: seq<int> := [], [];
    var first := true;
    while pos + 7 <= |bytes|
      invariant pos <= |bytes| && packetBytes == bytes[..pos]
      invariant offsets + FrameOffsets(bytes, pos) == FrameOffsets(bytes, 0)
      invariant offsets == [] ==> pos == 0 && first
      invariant offsets != [] ==> !first && FrameAt(bytes, 0)
      invariant first || (7 <= |bytes| && sampleRate == SampleRate(bytes, 0) && channels == Channels(bytes, 0))
      decreases |bytes| - pos
    {
      if !Synchronised(bytes, pos) {
        if offsets == [] {
          return None;
        }
        break;
      }
      if first {
        sampleRate := SampleRate(bytes, pos);
        channels := Channels(bytes, pos);
        first := false;
      }
      var length := FrameLength(bytes, pos);
      if length < HeaderSize(bytes, pos) || pos + length > |bytes| {
        break;
      }
      FrameStep(bytes, pos);
      offsets := offsets + [|packetBytes|];
      packetBytes := packetBytes + bytes[pos..pos + length];
      pos := pos + length;
    }
    FrameStop(bytes, pos);
    if offsets == [] {
      return None;
    }
    offsets := offsets + [|packetBytes|];
    return Some(AacPackets(sampleRate, channels, packetBytes, offsets));
  }
}
