/**
 The body framing of a pull response: each message is preceded by its length as a base-128 varint
 (Protocol Buffers, "Base 128 Varints").  The decoder here is the receiver's side, written from
 that definition and independent of the encoder.
 */
module LengthDelimited {
  import opened Wrappers

  newtype byte = b: int | 0 <= b < 256

  /** `b | 0x80`. */
  function OrHighBit(b: byte): byte {
    if b < 0x80 then b + 0x80 else b
  }

  /** `len as u8`: the low eight bits. */
  function LowByte(len: nat): byte {
    (len % 256) as byte
  }

  function Varint(len: nat): (r: seq<byte>)
    ensures 0 < |r|
  {
    if len < 0x80 then [LowByte(len)]
    else [OrHighBit(LowByte(len))] + Varint(len / 128)
  }

  function LengthPrefixed(data: seq<byte>): seq<byte> {
    Varint(|data|) + data
  }

  /** The bytes a run of calls appends, one message after the other. */
  function Concatenated(messages: seq<seq<byte>>): seq<byte> {
    if messages == [] then [] else LengthPrefixed(messages[0]) + Concatenated(messages[1..])
  }

  /** The growing `Vec<u8>` of a response. */
  class Output {
    var bytes: seq<byte>

    constructor ()
      ensures bytes == []
    {
      bytes := [];
    }

    method EncodeLengthDelimited(data: seq<byte>)
      modifies this
      ensures bytes == old(bytes) + LengthPrefixed(data)
    {
      var len: nat := |data|;
      while len >= 0x80
        invariant bytes + Varint(len) == old(bytes) + Varint(|data|)
      {
        ghost var before := bytes;
        var low := OrHighBit(LowByte(len));
        assert Varint(len) == [low] + Varint(len / 128);
        bytes := bytes + [low];
        assert bytes + Varint(len / 128) == before + ([low] + Varint(len / 128));
        len := len / 128;
      }
      bytes := bytes + [LowByte(len)];
      bytes := bytes + data;
    }
  }

  // ----- the receiver -----

  /** Little-endian groups of seven bits; a clear top bit ends the number.  Returns what follows it. */
  function DecodeVarint(s: seq<byte>): (r: Option<(nat, seq<byte>)>)
    ensures r.Some? ==> |r.value.1| < |s|
  {
    if s == [] then None
    else if s[0] < 0x80 then Some((s[0] as nat, s[1..]))
    else
      match DecodeVarint(s[1..])
      case None => None
      case Some((high, rest)) => Some((s[0] as nat - 128 + 128 * high, rest))
  }

  /** The messages of a whole body, or None when it is cut short or malformed. */
  function DecodeAll(s: seq<byte>): Option<seq<seq<byte>>>
    decreases |s|
  {
    if s == [] then Some([])
    else
      match DecodeVarint(s)
      case None => None
      case Some((len, rest)) =>
        if len > |rest| then None
        else
          match DecodeAll(rest[len..])
          case None => None
          case Some(messages) => Some([rest[..len]] + messages)
  }

  lemma {:induction false} VarintRoundTrip(len: nat, rest: seq<byte>)
    ensures DecodeVarint(Varint(len) + rest) == Some((len, rest))
  {
    var s := Varint(len) + rest;
    if len < 0x80 {
      assert s[1..] == rest;
    } else {
      var low, later := OrHighBit(LowByte(len)), Varint(len / 128) + rest;
      assert s == [low] + later && s[1..] == later;
      VarintRoundTrip(len / 128, rest);
      LowBits(len);
    }
  }

  lemma LowBits(len: nat)
    ensures 0x80 <= OrHighBit(LowByte(len)) && OrHighBit(LowByte(len)) as nat - 128 + 128 * (len / 128) == len
  {
    assert len == 256 * (len / 256) + len % 256;
    assert len / 128 == if len % 256 < 128 then 2 * (len / 256) else 2 * (len / 256) + 1;
  }

  /** The body determines the messages, whatever their number and lengths. */
  lemma {:induction false} BodyRoundTrip(messages: seq<seq<byte>>)
    ensures DecodeAll(Concatenated(messages)) == Some(messages)
  {
    if messages != [] {
      var first, others := messages[0], Concatenated(messages[1..]);
      assert Concatenated(messages) == Varint(|first|) + (first + others);
      VarintRoundTrip(|first|, first + others);
      assert (first + others)[..|first|] == first && (first + others)[|first|..] == others;
      BodyRoundTrip(messages[1..]);
      assert messages == [first] + messages[1..];
    }
  }

  /** A proper prefix of a body never passes for the body: the receiver sees fewer messages or an
      error, never other contents. */
  lemma {:induction false} TruncationIsDetected(messages: seq<seq<byte>>, n: nat)
    requires n <= |Concatenated(messages)|
    ensures
      var r := DecodeAll(Concatenated(messages)[..n]);
      r.None? || exists k | 0 <= k <= |messages| :: r.value == messages[..k]
  {
    hide Varint, DecodeVarint;
    var cut := Concatenated(messages)[..n];
    if n == 0 {
      assert cut == [] && messages[..0] == [];
    } else {
      var first, others := messages[0], Concatenated(messages[1..]);
      var head := Varint(|first|);
      assert Concatenated(messages) == head + (first + others);
      if n < |head| {
        assert cut == head[..n];
        CutVarint(|first|, n);
      } else {
        var rest := (first + others)[..n - |head|];
        assert cut == head + rest;
        VarintRoundTrip(|first|, rest);
        if |first| <= |rest| {
          assert rest[..|first|] == first;
          assert rest[|first|..] == others[..n - |head| - |first|];
          TruncationIsDetected(messages[1..], n - |head| - |first|);
          var tail := DecodeAll(rest[|first|..]);
          if tail.Some? {
            var k :| 0 <= k <= |messages[1..]| && tail.value == messages[1..][..k];
            assert [first] + tail.value == messages[..k + 1];
          }
        }
      }
    }
  }

  lemma {:induction false} CutVarint(len: nat, n: nat)
    requires n < |Varint(len)|
    ensures DecodeVarint(Varint(len)[..n]) == None
  {
    if 0 < n {
      assert Varint(len)[..n][1..] == Varint(len / 128)[..n - 1];
      CutVarint(len / 128, n - 1);
    }
  }
}
