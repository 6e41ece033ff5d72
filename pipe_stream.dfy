/** Length-prefixed framing of messages over a pipe (`PipeStreamExtensions`):
    a frame is a 4-byte little-endian length followed by that many payload
    bytes, the payload being the serialised message. */
module PipeStreamExtensions {
  import opened Common
  import opened Messages

  /** The largest payload a reader accepts: 10 MiB. */
  const MaxMessageLength: nat := 10 * 1024 * 1024

  /** The serialiser: `encode` writes a message, `decode` reads a payload back,
      None standing for a deserialiser that returns null. */
  datatype Codec = Codec(encode: Message -> seq<Byte>, decode: seq<Byte> -> Option<Message>)

  /** The serialiser reads back every message it writes. */
  ghost predicate Inverse(codec: Codec)
  {
    forall m :: codec.decode(codec.encode(m)) == Some(m)
  }

  // ---------------------------------------------------------------------
  // The length header

  /** `BitConverter.GetBytes(int)`: the bytes of `n` in the host's byte order. */
  function GetBytes(n: int, littleEndianHost: bool): (bs: seq<Byte>)
    requires Int32Min <= n <= Int32Max
    ensures |bs| == 4
  {
    Pow256Values();
    var le := ToLE(Unsigned(n, 4), 4);
    if littleEndianHost then le else Reverse(le)
  }

  /** `BitConverter.ToInt32(header, 0)`: four bytes in the host's byte order. */
  function ToInt32(header: seq<Byte>, littleEndianHost: bool): (n: int)
    requires |header| == 4
    ensures Int32Min <= n <= Int32Max
  {
    Pow256Values();
    Signed(if littleEndianHost then FromLE(header) else FromBE(header), 4)
  }

  /** The header as the reader of the commented-out newer code decodes it:
      little-endian whatever the host. */
  function ReadInt32LittleEndian(header: seq<Byte>): (n: int)
    requires |header| == 4
    ensures Int32Min <= n <= Int32Max
  {
    Pow256Values();
    Signed(FromLE(header), 4)
  }

  /** One complete frame for a payload that fits an `int` length. */
  function Frame(payload: seq<Byte>): (f: seq<Byte>)
    requires |payload| <= Int32Max
  {
    Pow256Values();
    ToLE(|payload|, 4) + payload
  }

  /** A frame is the payload length as four little-endian bytes, then exactly
      the payload. */
  lemma FrameLayout(payload: seq<Byte>)
    requires |payload| <= Int32Max
    ensures |Frame(payload)| == 4 + |payload|
    ensures FromLE(Frame(payload)[..4]) == |payload|
    ensures ReadInt32LittleEndian(Frame(payload)[..4]) == |payload|
    ensures Frame(payload)[4..] == payload
  {
    Pow256Values();
    assert Frame(payload)[..4] == ToLE(|payload|, 4);
    FromToLE(|payload|, 4);
  }

  lemma {:induction false} ReverseReverse<T>(s: seq<T>)
    ensures Reverse(Reverse(s)) == s
  {
    assert |Reverse(Reverse(s))| == |s|;
    forall k | 0 <= k < |s|
      ensures Reverse(Reverse(s))[k] == s[k]
    {
      assert Reverse(Reverse(s))[k] == Reverse(s)[|s| - 1 - k];
    }
  }

  /** The header the writer produces is little-endian on either host: the
      host-order bytes, reversed when the host is big-endian. */
  lemma WrittenHeaderIsLittleEndian(n: nat, littleEndianHost: bool)
    requires n <= Int32Max
    ensures (if littleEndianHost then GetBytes(n, littleEndianHost)
             else Reverse(GetBytes(n, littleEndianHost))) == ToLE(n, 4)
  {
    if !littleEndianHost {
      ReverseReverse(ToLE(n, 4));
    }
  }

  /** As written, a big-endian reader decodes a well-formed frame's header in
      its own byte order: a 1-byte payload announces 16777216 bytes, which is
      rejected as too long. */
  lemma BigEndianHostMisreadsLength()
    ensures ToInt32(ToLE(1, 4), false) == 0x100_0000
    ensures ToInt32(ToLE(1, 4), false) > MaxMessageLength
  {
    Pow256Values();
    assert ToLE(1, 4) == [1, 0, 0, 0];
    assert FromBE([1, 0, 0, 0]) == 0x100_0000 by {
      assert [1, 0, 0, 0][..3] == [1, 0, 0];
      assert [1, 0, 0][..2] == [1, 0];
      assert [1, 0][..1] == [1];
      assert [1][..0] == [];
    }
  }

  /** Decoding the header little-endian on every host gives back the length
      every writer puts there. */
  lemma IntendedHeaderRoundTrip(n: nat, littleEndianHost: bool)
    requires n <= Int32Max
    ensures ReadInt32LittleEndian(if littleEndianHost then GetBytes(n, littleEndianHost)
                                  else Reverse(GetBytes(n, littleEndianHost))) == n
  {
    Pow256Values();
    WrittenHeaderIsLittleEndian(n, littleEndianHost);
    FromToLE(n, 4);
  }

  // ---------------------------------------------------------------------
  // Reading exactly `count` bytes

  /** How many bytes one `ReadAsync` of `count` bytes delivers when `available`
      bytes have arrived: at most the grant the stream gives this call, at
      most what was asked, at most what is there. When the grants run out the
      peer has closed the pipe. */
  function Delivered(available: nat, grants: seq<nat>, count: nat): (n: nat)
    ensures n <= count && n <= available
    ensures grants != [] && grants[0] >= 1 && count >= 1 && available >= 1 ==> n >= 1
  {
    if grants == [] then 0 else Min(Min(grants[0], count), available)
  }

  function Tail(grants: seq<nat>): (t: seq<nat>)
  {
    if grants == [] then [] else grants[1..]
  }

  datatype ExactRead = ExactRead(ok: bool, consumed: nat, grantsLeft: seq<nat>)

  /** The loop of `ReadExactlyAsync` from the point where `done` of the `count`
      bytes have arrived and `available` more are there to read: it stops with
      success once all have arrived, and with failure at the first read that
      delivers nothing. */
  function ReadFrom(available: nat, grants: seq<nat>, count: nat, done: nat): (e: ExactRead)
    requires done <= count
    decreases count - done
  {
    if done == count then ExactRead(true, done, grants)
    else
      var n := Delivered(available, grants, count - done);
      if n == 0 then ExactRead(false, done, Tail(grants))
      else ReadFrom(available - n, Tail(grants), count, done + n)
  }

  /** The loop never takes more than is wanted or more than is there, and it
      succeeds exactly when everything wanted has arrived. */
  lemma {:induction false} ReadFromBounds(available: nat, grants: seq<nat>, count: nat, done: nat)
    requires done <= count
    ensures var e := ReadFrom(available, grants, count, done);
      done <= e.consumed <= count && e.consumed <= done + available
      && (e.ok <==> e.consumed == count)
    decreases count - done
  {
    if done < count {
      var n := Delivered(available, grants, count - done);
      if n > 0 {
        ReadFromBounds(available - n, Tail(grants), count, done + n);
      }
    }
  }

  /** `ReadExactlyAsync` of `count` bytes when `available` have arrived. */
  function ReadExactlySpec(available: nat, grants: seq<nat>, count: nat): (e: ExactRead)
  {
    ReadFrom(available, grants, count, 0)
  }

  /** Each read takes one grant, and there is at most one read per byte still
      wanted: the grants left are a suffix of the grants, at most
      `count - done` shorter. */
  lemma {:induction false} ReadFromGrants(available: nat, grants: seq<nat>, count: nat, done: nat)
    requires done <= count
    ensures var e := ReadFrom(available, grants, count, done);
      |grants| - (count - done) <= |e.grantsLeft| <= |grants|
      && e.grantsLeft == grants[|grants| - |e.grantsLeft|..]
    decreases count - done
  {
    if done < count {
      var n := Delivered(available, grants, count - done);
      if n > 0 {
        ReadFromGrants(available - n, Tail(grants), count, done + n);
        if grants != [] {
          var left := ReadFrom(available - n, Tail(grants), count, done + n).grantsLeft;
          assert grants[1..][|grants[1..]| - |left|..] == grants[|grants| - |left|..];
        }
      }
    }
  }

  /** A count of zero performs no read at all. */
  lemma ReadNothing(available: nat, grants: seq<nat>)
    ensures ReadExactlySpec(available, grants, 0) == ExactRead(true, 0, grants)
  {
  }

  /** Every grant is at least one byte. */
  ghost predicate Positive(grants: seq<nat>)
  {
    forall k :: 0 <= k < |grants| ==> grants[k] >= 1
  }

  /** With enough data sent and a stream that never stalls for as many reads
      as bytes are still wanted, the exact read succeeds. */
  lemma {:induction false} ReadFromSucceeds(available: nat, grants: seq<nat>, count: nat, done: nat)
    requires done <= count
    requires Positive(grants) && |grants| >= count - done && available >= count - done
    ensures ReadFrom(available, grants, count, done).ok
    decreases count - done
  {
    if done < count {
      var n := Delivered(available, grants, count - done);
      assert n >= 1;
      ReadFromSucceeds(available - n, Tail(grants), count, done + n);
    }
  }

  /** A peer that closes after fewer than `count` bytes makes the read fail,
      however the stream splits its reads. */
  lemma ReadExactlyShortFails(available: nat, grants: seq<nat>, count: nat)
    requires available < count
    ensures !ReadExactlySpec(available, grants, count).ok
  {
    ReadFromBounds(available, grants, count, 0);
  }

  // ---------------------------------------------------------------------
  // Reading a message

  datatype ReadError =
    | EndOfStream              // EndOfStreamException: the peer closed mid-frame
    | InvalidLength(len: int)  // InvalidDataException: negative or oversized length
    | NullPayload              // InvalidDataException: the payload deserialised to null

  datatype MessageRead = MessageRead(result: Result<Message, ReadError>, consumed: nat, grantsLeft: seq<nat>)

  /** `ReadMessageAsync` on the bytes `pending` still to be read: the outcome,
      how many bytes it takes from the pipe, and the grants left.
      `littleEndianHost` is the reader's byte order. */
  function ReadMessageSpec(pending: seq<Byte>, grants: seq<nat>, littleEndianHost: bool, codec: Codec): (r: MessageRead)
    ensures r.consumed <= |pending|
  {
    ReadFromBounds(|pending|, grants, 4, 0);
    var h := ReadExactlySpec(|pending|, grants, 4);
    if !h.ok then MessageRead(Err(EndOfStream), h.consumed, h.grantsLeft)
    else
      var len := ToInt32(pending[..4], littleEndianHost);
      if len < 0 || len > MaxMessageLength then MessageRead(Err(InvalidLength(len)), 4, h.grantsLeft)
      else
        var p := ReadPayloadSpec(pending[4..], h.grantsLeft, len, codec);
        MessageRead(p.result, 4 + p.consumed, p.grantsLeft)
  }

  /** The payload stage of `ReadMessageAsync` once the header announced an
      acceptable `len`, on the bytes `rest` that follow the header: read
      exactly `len` bytes, then deserialise them. */
  function ReadPayloadSpec(rest: seq<Byte>, grants: seq<nat>, len: nat, codec: Codec): (r: MessageRead)
    ensures r.consumed <= |rest|
  {
    ReadFromBounds(|rest|, grants, len, 0);
    var p := ReadExactlySpec(|rest|, grants, len);
    if !p.ok then MessageRead(Err(EndOfStream), p.consumed, p.grantsLeft)
    else
      var result := match codec.decode(rest[..len])
        case None => Err(NullPayload)
        case Some(m) => Ok(m);
      MessageRead(result, len, p.grantsLeft)
  }

  /** A length outside [0, MaxMessageLength] is refused before any payload byte
      is read, and it is the length the header spells in the reader's order. */
  lemma InvalidLengthReadsOnlyHeader(pending: seq<Byte>, grants: seq<nat>, littleEndianHost: bool, codec: Codec)
    ensures var r := ReadMessageSpec(pending, grants, littleEndianHost, codec);
      r.result.Err? && r.result.error.InvalidLength? ==>
        r.consumed == 4 && (r.result.error.len < 0 || r.result.error.len > MaxMessageLength)
        && r.result.error.len == ToInt32(pending[..4], littleEndianHost)
  {
  }

  /** The payload of a well-formed frame reads back as the message. */
  lemma PayloadRoundTrip(codec: Codec, m: Message, rest: seq<Byte>, grants: seq<nat>)
    requires Inverse(codec)
    requires |rest| >= |codec.encode(m)| && rest[..|codec.encode(m)|] == codec.encode(m)
    requires Positive(grants) && |grants| >= |codec.encode(m)|
    ensures ReadPayloadSpec(rest, grants, |codec.encode(m)|, codec).result == Ok(m)
    ensures ReadPayloadSpec(rest, grants, |codec.encode(m)|, codec).consumed == |codec.encode(m)|
  {
    ReadFromSucceeds(|rest|, grants, |codec.encode(m)|, 0);
  }

  /** After a successful header read on a stream that does not stall, the
      grants left still do not stall and are at most four fewer. */
  lemma HeaderLeavesGrants(available: nat, grants: seq<nat>)
    requires Positive(grants) && |grants| >= 4 && available >= 4
    ensures var h := ReadExactlySpec(available, grants, 4);
      h.ok && Positive(h.grantsLeft) && |h.grantsLeft| >= |grants| - 4
  {
    ReadFromSucceeds(available, grants, 4, 0);
    ReadFromGrants(available, grants, 4, 0);
    var h := ReadExactlySpec(available, grants, 4);
    forall k | 0 <= k < |h.grantsLeft|
      ensures h.grantsLeft[k] >= 1
    {
      assert h.grantsLeft[k] == grants[|grants| - |h.grantsLeft| + k];
    }
  }

  /** Round trip on a little-endian reader: the frame of a message of
      acceptable size, followed by anything, reads back as that message and
      leaves exactly what followed, given a stream that does not stall. */
  lemma RoundTrip(codec: Codec, m: Message, rest: seq<Byte>, grants: seq<nat>)
    requires Inverse(codec)
    requires |codec.encode(m)| <= MaxMessageLength
    requires Positive(grants) && |grants| >= 4 + |codec.encode(m)|
    ensures var bytes := Frame(codec.encode(m)) + rest;
      var r := ReadMessageSpec(bytes, grants, true, codec);
      r.result == Ok(m) && bytes[r.consumed..] == rest
  {
    var payload := codec.encode(m);
    var bytes := Frame(payload) + rest;
    FrameLayout(payload);
    assert bytes[..4] == Frame(payload)[..4];
    assert ToInt32(bytes[..4], true) == |payload|;
    assert bytes[4..][..|payload|] == payload;
    HeaderLeavesGrants(|bytes|, grants);
    PayloadRoundTrip(codec, m, bytes[4..], ReadExactlySpec(|bytes|, grants, 4).grantsLeft);
    assert bytes[4 + |payload|..] == rest;
  }

  /** A message whose payload exceeds the limit is written but never read back. */
  lemma OversizeRejected(codec: Codec, m: Message, rest: seq<Byte>, grants: seq<nat>)
    requires MaxMessageLength < |codec.encode(m)| <= Int32Max
    requires Positive(grants) && |grants| >= 4
    ensures var r := ReadMessageSpec(Frame(codec.encode(m)) + rest, grants, true, codec);
      r.result == Err(InvalidLength(|codec.encode(m)|)) && r.consumed == 4
  {
    var payload := codec.encode(m);
    var bytes := Frame(payload) + rest;
    FrameLayout(payload);
    assert bytes[..4] == Frame(payload)[..4];
    ReadFromSucceeds(|bytes|, grants, 4, 0);
  }

  // ---------------------------------------------------------------------
  // One end of a pipe, byte by byte

  datatype WriteError = Overflow   // OverflowException from the `checked` length cast

  /** One end of a connected pipe. `incoming` is every byte the peer sends,
      `position` how many of them this end has read; `grants` is how many
      bytes each successive read delivers at most; `written` is everything
      this end has written. */
  class Pipe {
    const incoming: seq<Byte>
    var position: nat
    var grants: seq<nat>
    var written: seq<Byte>
    const littleEndianHost: bool

    constructor(incoming: seq<Byte>, grants: seq<nat>, littleEndianHost: bool)
      ensures position <= |incoming|
      ensures this.incoming == incoming && position == 0 && this.grants == grants && written == []
      ensures this.littleEndianHost == littleEndianHost
    {
      this.incoming := incoming;
      position := 0;
      this.grants := grants;
      written := [];
      this.littleEndianHost := littleEndianHost;
    }

    /** `Stream.ReadAsync(buffer, offset, count)`: copies the delivered bytes to
        `buffer[offset..]` and returns how many; 0 means the peer has closed. */
    method ReadAsync(buffer: array<Byte>, offset: nat, count: nat) returns (read: nat)
      requires position <= |incoming| && offset + count <= buffer.Length
      modifies this, buffer
      ensures position <= |incoming|
      ensures read == Delivered(|incoming| - old(position), old(grants), count)
      ensures position == old(position) + read && grants == Tail(old(grants))
      ensures forall k :: 0 <= k < buffer.Length ==>
                buffer[k] == if offset <= k < offset + read then incoming[old(position) + (k - offset)]
                             else old(buffer[k])
      ensures written == old(written)
    {
      read := Delivered(|incoming| - position, grants, count);
      forall k | offset <= k < offset + read {
        buffer[k] := incoming[position + (k - offset)];
      }
      position := position + read;
      grants := Tail(grants);
    }

    /** `ReadExactlyAsync`: fills `buffer[offset..offset + count]` or fails
        when a read delivers nothing. */
    method ReadExactly(buffer: array<Byte>, offset: nat, count: nat) returns (ok: bool)
      requires position <= |incoming| && offset + count <= buffer.Length
      modifies this, buffer
      ensures position <= |incoming|
      ensures var e := ReadExactlySpec(|incoming| - old(position), old(grants), count);
        ok == e.ok && position == old(position) + e.consumed && grants == e.grantsLeft
      ensures forall k :: 0 <= k < buffer.Length ==>
             buffer[k] == if offset <= k < offset + (position - old(position)) then incoming[old(position) + (k - offset)]
                          else old(buffer[k])
      ensures written == old(written)
    {
      ghost var a0, g0, b0 := |incoming| - position, grants, buffer[..];
      ghost var avail: nat, gs := a0, g0;
      var readTotal: nat := 0;
      while readTotal < count
        invariant position <= |incoming| && readTotal <= count
        invariant position == old(position) + readTotal
        invariant avail == |incoming| - position && gs == grants
        invariant forall k :: 0 <= k < buffer.Length ==>
                    buffer[k] == if offset <= k < offset + readTotal then incoming[old(position) + (k - offset)]
                                 else b0[k]
        invariant ReadFrom(avail, gs, count, readTotal) == ReadFrom(a0, g0, count, 0)
        invariant written == old(written)
        decreases count - readTotal
      {
        var read := ReadAsync(buffer, offset + readTotal, count - readTotal);
        if read == 0 {
          return false;
        }
        avail, gs := avail - read, Tail(gs);
        readTotal := readTotal + read;
      }
      ok := true;
    }

    /** `ReadMessageAsync`: the next message, or the error it throws. */
    method ReadMessage(codec: Codec) returns (r: Result<Message, ReadError>)
      requires position <= |incoming|
      modifies this
      ensures position <= |incoming|
      ensures var s := ReadMessageSpec(incoming[old(position)..], old(grants), littleEndianHost, codec);
        r == s.result && position == old(position) + s.consumed && grants == s.grantsLeft
      ensures written == old(written)
    {
      ghost var start, pending, g0 := position, incoming[position..], grants;
      ReadFromBounds(|pending|, g0, 4, 0);
      var header := new Byte[4];
      var ok := ReadExactly(header, 0, 4);
      if !ok {
        return Err(EndOfStream);
      }
      assert header[..] == pending[..4] by {
        forall k | 0 <= k < 4
          ensures header[k] == pending[k]
        {
          assert header[k] == incoming[start + k];
        }
      }
      var payloadLen := ToInt32(header[..], littleEndianHost);
      if payloadLen < 0 || payloadLen > MaxMessageLength {
        return Err(InvalidLength(payloadLen));
      }
      assert incoming[position..] == pending[4..];
      r := ReadPayload(payloadLen, codec);
    }

    /** The payload stage of `ReadMessageAsync`: read `payloadLen` bytes into a
        buffer of that size, then deserialise them. */
    method ReadPayload(payloadLen: nat, codec: Codec) returns (r: Result<Message, ReadError>)
      requires position <= |incoming|
      modifies this
      ensures position <= |incoming|
      ensures var s := ReadPayloadSpec(incoming[old(position)..], old(grants), payloadLen, codec);
        r == s.result && position == old(position) + s.consumed && grants == s.grantsLeft
      ensures written == old(written)
    {
      ghost var start := position;
      ReadFromBounds(|incoming| - start, grants, payloadLen, 0);
      var buffer := new Byte[payloadLen];
      var ok := ReadExactly(buffer, 0, payloadLen);
      if !ok {
        return Err(EndOfStream);
      }
      assert buffer[..] == incoming[start..][..payloadLen] by {
        forall k | 0 <= k < payloadLen
          ensures buffer[k] == incoming[start + k]
        {
        }
      }
      var msg := codec.decode(buffer[..]);
      match msg {
        case None => r := Err(NullPayload);
        case Some(m) => r := Ok(m);
      }
    }

    /** `Array.Reverse` on the four header bytes. */
    static method ReverseHeader(header: array<Byte>)
      requires header.Length == 4
      modifies header
      ensures header[..] == Reverse(old(header[..]))
    {
      header[0], header[3] := header[3], header[0];
      header[1], header[2] := header[2], header[1];
    }

    /** `WriteMessageAsync`: serialise, then write the length header in
        little-endian order and the payload. */
    method WriteMessage(codec: Codec, message: Message) returns (r: Result<(), WriteError>)
      modifies this
      ensures |codec.encode(message)| > Int32Max ==> r == Err(Overflow) && written == old(written)
      ensures |codec.encode(message)| <= Int32Max ==>
                r == Ok(()) && written == old(written) + Frame(codec.encode(message))
      ensures position == old(position) && grants == old(grants)
    {
      var payload := codec.encode(message);
      if |payload| > Int32Max {
        return Err(Overflow);
      }
      var messageLength := |payload|;
      var bytes := GetBytes(messageLength, littleEndianHost);
      var header := new Byte[4](k requires 0 <= k < 4 => bytes[k]);
      assert header[..] == bytes;
      if !littleEndianHost {
        ReverseHeader(header);
      }
      WrittenHeaderIsLittleEndian(messageLength, littleEndianHost);
      written := written + header[..];
      written := written + payload;
      r := Ok(());
    }
  }
}
