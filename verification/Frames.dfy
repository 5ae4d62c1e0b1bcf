/** Length-prefixed frames of the daemon protocol: four big-endian bytes of length, then the body. */
module Frames {
  import opened Lists
  import opened Encoding

  const HEADER: nat := 4

  datatype Read = Frame(body: Bytes, next: nat) | TooLarge(next: nat) | Truncated

  function Encoded(body: Bytes): Bytes {
    Prefixed(body, HEADER)
  }

  /** What a reader with the given limit finds at a position. */
  function Decode(data: Bytes, position: nat, limit: nat): (r: Read)
    requires position <= |data|
    ensures !r.Truncated? ==> position < r.next <= |data|
  {
    if |data| < position + HEADER then Truncated
    else
      var start := position + HEADER;
      var length := FromBigEndian(data[position..start]);
      if limit < length then TooLarge(start)
      else if |data| < start + length then Truncated
      else Frame(data[start..start + length], start + length)
  }

  /** A body is read exactly when the bytes consumed are its whole encoding and it is within the
      limit: a stream cut short never yields part of a body. */
  lemma DecodeExact(data: Bytes, position: nat, limit: nat, body: Bytes, next: nat)
    requires position <= |data| && |body| < TWO_TO_32
    ensures Decode(data, position, limit) == Frame(body, next) <==>
            |body| <= limit && position <= next <= |data| && data[position..next] == Encoded(body)
  {
    LengthWidths();
    BigEndianRoundTrip(|body|, HEADER);
    var start := position + HEADER;
    if start <= |data| {
      FromBigEndianRoundTrip(data[position..start]);
      var r := Decode(data, position, limit);
      if r.Frame? {
        assert data[position..r.next] == data[position..start] + r.body;
      }
    }
    if position <= next <= |data| && data[position..next] == Encoded(body) {
      JoinedAt(data, position, next, BigEndian(|body|, HEADER), body);
    }
  }

  /** A header above the limit is refused after four bytes, whatever follows. */
  lemma OversizeRefused(data: Bytes, position: nat, limit: nat, length: nat, rest: Bytes)
    requires position <= |data| && limit < length < TWO_TO_32
    requires data[position..] == BigEndian(length, HEADER) + rest
    ensures Decode(data, position, limit) == TooLarge(position + HEADER)
  {
    LengthWidths();
    BigEndianRoundTrip(length, HEADER);
    assert data[position..|data|] == BigEndian(length, HEADER) + rest;
    JoinedAt(data, position, |data|, BigEndian(length, HEADER), rest);
  }

  function Concatenated(bodies: seq<Bytes>): Bytes {
    if bodies == [] then [] else Encoded(bodies[0]) + Concatenated(bodies[1..])
  }

  /** The bodies read one after the other, and the position reached, until a read fails or `count`
      are read. */
  function DecodeMany(data: Bytes, position: nat, limit: nat, count: nat): (seq<Bytes>, nat)
    requires position <= |data|
    decreases count
  {
    if count == 0 then ([], position)
    else
      match Decode(data, position, limit)
      case Frame(body, next) =>
        var (more, end) := DecodeMany(data, next, limit, count - 1);
        ([body] + more, end)
      case _ => ([], position)
  }

  ghost predicate AllWithin(bodies: seq<Bytes>, limit: nat) {
    forall i | 0 <= i < |bodies| :: |bodies[i]| <= limit && |bodies[i]| < TWO_TO_32
  }

  /** The encodings of the bodies stand one after the other from a position up to an end. */
  ghost predicate Stand(data: Bytes, position: nat, bodies: seq<Bytes>, end: nat)
    decreases |bodies|
  {
    if bodies == [] then position == end <= |data|
    else
      var next := position + HEADER + |bodies[0]|;
      next <= |data| && data[position..next] == Encoded(bodies[0]) && Stand(data, next, bodies[1..], end)
  }

  lemma {:induction false} WrittenStand(data: Bytes, position: nat, bodies: seq<Bytes>, end: nat)
    requires position <= end <= |data| && data[position..end] == Concatenated(bodies)
    ensures Stand(data, position, bodies, end)
    decreases |bodies|
  {
    if bodies != [] {
      JoinedAt(data, position, end, Encoded(bodies[0]), Concatenated(bodies[1..]));
      WrittenStand(data, position + HEADER + |bodies[0]|, bodies[1..], end);
    }
  }

  lemma {:induction false} StandingRead(data: Bytes, position: nat, limit: nat, bodies: seq<Bytes>, end: nat)
    requires AllWithin(bodies, limit)
    requires position <= |data| && Stand(data, position, bodies, end)
    ensures DecodeMany(data, position, limit, |bodies|) == (bodies, end)
    decreases |bodies|
  {
    if bodies != [] {
      var next := position + HEADER + |bodies[0]|;
      DecodeExact(data, position, limit, bodies[0], next);
      StandingRead(data, next, limit, bodies[1..], end);
      assert bodies == [bodies[0]] + bodies[1..];
    }
  }

  /** Reading gives back any list of written bodies within the limit, and consumes exactly their
      bytes, whatever comes before and after. */
  lemma FramesReadBack(data: Bytes, position: nat, limit: nat, bodies: seq<Bytes>, end: nat)
    requires AllWithin(bodies, limit)
    requires position <= end <= |data| && data[position..end] == Concatenated(bodies)
    ensures DecodeMany(data, position, limit, |bodies|) == (bodies, end)
  {
    WrittenStand(data, position, bodies, end);
    StandingRead(data, position, limit, bodies, end);
  }

  datatype ReadResult = Body(bytes: Bytes) | UnexpectedEof | InvalidData

  /** A byte stream: what has been written to it and how far it has been read. */
  class Stream {
    var data: Bytes
    var position: nat

    ghost predicate Valid()
      reads this
    {
      position <= |data|
    }

    constructor ()
      ensures Valid() && data == [] && position == 0
    {
      data := [];
      position := 0;
    }

    /** Fills the buffer from the stream, or reaches the end of it. */
    method ReadExact(buffer: array<Byte>) returns (ok: bool)
      requires Valid()
      modifies this`position, buffer
      ensures Valid()
      ensures ok <==> old(position) + buffer.Length <= |data|
      ensures ok ==> position == old(position) + buffer.Length && buffer[..] == data[old(position)..position]
      ensures !ok ==> position == |data|
    {
      var filled := 0;
      while filled < buffer.Length && position < |data|
        invariant 0 <= filled <= buffer.Length && Valid()
        invariant position == old(position) + filled
        invariant forall i | 0 <= i < filled :: buffer[i] == data[old(position) + i]
      {
        buffer[filled] := data[position];
        filled := filled + 1;
        position := position + 1;
      }
      ok := filled == buffer.Length;
    }

    method ReadRawFrameWithLimit(limit: nat) returns (r: ReadResult)
      requires Valid()
      modifies this`position
      ensures Valid()
      ensures match Decode(data, old(position), limit)
              case Frame(body, next) => r == Body(body) && position == next
              case TooLarge(next) => r == InvalidData && position == next
              case Truncated => r == UnexpectedEof && position == |data|
    {
      var lengthBuffer := new Byte[HEADER](_ => 0);
      var ok := ReadExact(lengthBuffer);
      if !ok {
        return UnexpectedEof;
      }
      var length := FromBigEndian(lengthBuffer[..]);
      if limit < length {
        return InvalidData;
      }
      var buffer := new Byte[length](_ => 0);
      ok := ReadExact(buffer);
      if !ok {
        return UnexpectedEof;
      }
      r := Body(buffer[..]);
    }

    method WriteRawFrame(body: Bytes) returns (ok: bool)
      requires Valid()
      modifies this`data
      ensures Valid()
      ensures ok <==> |body| < TWO_TO_32
      ensures data == if ok then old(data) + Encoded(body) else old(data)
    {
      if TWO_TO_32 <= |body| {
        return false;
      }
      data := data + BigEndian(|body|, HEADER);
      data := data + body;
      ok := true;
    }
  }
}
