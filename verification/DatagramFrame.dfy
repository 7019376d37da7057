/**
  The datagram frame (crates/qsh-proto/src/datagram.rs) and the part budget
  derived from it (crates/qsh-core/src/datagram.rs). The carrier is the
  DATAGRAM frame of RFC 9221.
 */
module DatagramFrames {
  import opened Arithmetic
  import opened Options

  type byte = n: int | 0 <= n < 256

  const CHANNEL_ID_LEN: nat := 16
  const HEADER_LEN: nat := CHANNEL_ID_LEN + 1
  const MAX_DATAGRAM_FRAME: nat := 64 * 1024

  type ChannelId = c: seq<byte> | |c| == CHANNEL_ID_LEN witness seq(16, _ => 0)

  datatype Kind = ScreenUpdate | ScreenAck | Input | ScreenEcho

  function KindToByte(k: Kind): byte {
    match k case ScreenUpdate => 10 case ScreenAck => 11 case Input => 12 case ScreenEcho => 13
  }

  function KindFromByte(b: byte): Option<Kind> {
    match b
    case 10 => Some(ScreenUpdate)
    case 11 => Some(ScreenAck)
    case 12 => Some(Input)
    case 13 => Some(ScreenEcho)
    case _ => None
  }

  datatype Frame = Frame(channel: ChannelId, kind: Kind, payload: seq<byte>)

  datatype Decoded = Ok(frame: Frame) | TooLong | Truncated | UnknownKind(b: byte)

  function Encode(f: Frame): seq<byte> { f.channel + [KindToByte(f.kind)] + f.payload }

  function Decode(bytes: seq<byte>): Decoded {
    if |bytes| > MAX_DATAGRAM_FRAME then TooLong
    else if |bytes| < HEADER_LEN then Truncated
    else match KindFromByte(bytes[CHANNEL_ID_LEN])
         case None => UnknownKind(bytes[CHANNEL_ID_LEN])
         case Some(kind) => Ok(Frame(bytes[..CHANNEL_ID_LEN], kind, bytes[HEADER_LEN..]))
  }

  /** Accepted input re-encodes to itself, and a frame survives the wire exactly when it is within the cap. */
  lemma CodecRoundTrip(bytes: seq<byte>, f: Frame)
    ensures Decode(bytes).Ok? ==> Encode(Decode(bytes).frame) == bytes
    ensures Decode(Encode(f)) == if |Encode(f)| <= MAX_DATAGRAM_FRAME then Ok(f) else TooLong
  {
    if Decode(bytes).Ok? {
      assert bytes == bytes[..CHANNEL_ID_LEN] + [bytes[CHANNEL_ID_LEN]] + bytes[HEADER_LEN..];
    }
    var e := Encode(f);
    assert e[..CHANNEL_ID_LEN] == f.channel && e[CHANNEL_ID_LEN] == KindToByte(f.kind) && e[HEADER_LEN..] == f.payload;
  }

  /** The layout of a frame on the wire. */
  lemma WireLayout(f: Frame)
    ensures var e := Encode(f);
            && |e| == 17 + |f.payload| && e[..16] == f.channel && e[17..] == f.payload
            && e[16] == (match f.kind case ScreenUpdate => 10 case ScreenAck => 11 case Input => 12 case ScreenEcho => 13)
  {
    assert Encode(f)[..16] == f.channel && Encode(f)[17..] == f.payload;
  }

  /** Bytes decode exactly when they are some frame's encoding, within the cap. */
  lemma DecodeExactly(bytes: seq<byte>)
    ensures Decode(bytes).Ok? <==> |bytes| <= 65536 && exists f :: Encode(f) == bytes
    ensures Decode(bytes).TooLong? <==> |bytes| > 65536
    ensures Decode(bytes).Truncated? <==> |bytes| < 17
    ensures Decode(bytes).UnknownKind? <==> 17 <= |bytes| <= 65536 && !(10 <= bytes[16] <= 13)
  {
    if Decode(bytes).Ok? {
      CodecRoundTrip(bytes, Decode(bytes).frame);
    }
    if exists f :: Encode(f) == bytes {
      var f :| Encode(f) == bytes;
      CodecRoundTrip(bytes, f);
    }
  }

  // ---- The part budget ----

  const PART_OVERHEAD: nat := 24
  const MIN_PART_PAYLOAD: nat := 64

  function PartBudget(maxDatagramSize: nat): Option<nat> {
    if maxDatagramSize < HEADER_LEN + PART_OVERHEAD then None
    else
      var budget := maxDatagramSize - (HEADER_LEN + PART_OVERHEAD);
      if budget >= MIN_PART_PAYLOAD then Some(budget) else None
  }

  /** Bytes of a base-128 varint. */
  function VarintLen(n: nat): nat { if n < 128 then 1 else 1 + VarintLen(n / 128) }

  /** Encoded size of a protobuf integer field with a one-byte tag; a zero field is left out. */
  function IntFieldLen(n: nat): nat { if n == 0 then 0 else 1 + VarintLen(n) }

  /** Encoded size of a `ScreenUpdate` part with `len` bytes of data. */
  function PartLen(newNum: nat, part: nat, parts: nat, len: nat): nat {
    IntFieldLen(newNum) + IntFieldLen(part) + IntFieldLen(parts)
    + if len == 0 then 0 else 1 + VarintLen(len) + len
  }

  function Pow128(k: nat): nat { if k == 0 then 1 else 128 * Pow128(k - 1) }

  lemma {:induction false} VarintAtMost(n: nat, k: nat)
    requires k > 0 && n < Pow128(k)
    ensures VarintLen(n) <= k
  {
    if n >= 128 {
      assert Pow128(1) == 128;
      DivBelow(n, Pow128(k - 1), 128);
      VarintAtMost(n / 128, k - 1);
    }
  }

  lemma {:induction false} VarintMoreThan(n: nat, k: nat)
    requires n >= Pow128(k)
    ensures VarintLen(n) > k
  {
    if k > 0 {
      Pow128Positive(k - 1);
      DivAtLeast(n, Pow128(k - 1), 128);
      VarintMoreThan(n / 128, k - 1);
    }
  }

  lemma {:induction false} Pow128Positive(k: nat)
    ensures Pow128(k) >= 1
  {
    if k > 0 {
      Pow128Positive(k - 1);
    }
  }

  /** 2^64 is at most 128^10 and more than 128^9; 2^56 is 128^8. */
  lemma Powers()
    ensures Pow128(8) == 0x100_0000_0000_0000
    ensures Pow128(9) < 0x1_0000_0000_0000_0000 <= Pow128(10)
  {
    assert Pow128(4) == 128 * 128 * 128 * 128;
    assert Pow128(8) == 128 * 128 * 128 * 128 * Pow128(4);
  }

  /**
    A part filled to its budget fits the datagram: header, part fields and data
    together never exceed what the transport allows, for any state number and
    any of the 64 parts a datagram update may have.
   */
  lemma PartFits(maxDatagramSize: nat, newNum: nat, part: nat, parts: nat, len: nat)
    requires PartBudget(maxDatagramSize).Some?
    requires newNum < 0x1_0000_0000_0000_0000 && part < parts <= 64
    requires len <= PartBudget(maxDatagramSize).value && len < 0x100_0000_0000_0000
    ensures HEADER_LEN + PartLen(newNum, part, parts, len) <= maxDatagramSize
  {
    Powers();
    VarintAtMost(newNum, 10);
    VarintAtMost(len, 8);
  }

  /** Only at 2^56 bytes would the rounded-up overhead be one byte short. */
  lemma PartFitsIsTight(len: nat)
    requires len >= 0x100_0000_0000_0000
    ensures var max := len + HEADER_LEN + PART_OVERHEAD;
            PartBudget(max) == Some(len) && HEADER_LEN + PartLen(0xffff_ffff_ffff_ffff, 63, 64, len) > max
  {
    Powers();
    VarintMoreThan(0xffff_ffff_ffff_ffff, 9);
    VarintMoreThan(len, 8);
  }

  /** The budget is refused exactly below 105 bytes, and otherwise leaves exactly both headers. */
  lemma BudgetExact(maxDatagramSize: nat)
    ensures PartBudget(maxDatagramSize).None? <==> maxDatagramSize < 105
    ensures PartBudget(maxDatagramSize).Some? ==>
              PartBudget(maxDatagramSize).value + HEADER_LEN + PART_OVERHEAD == maxDatagramSize
  {
  }
}
