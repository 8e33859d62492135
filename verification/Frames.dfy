/** Frames: a fixed prefix with magic, version, type, length and checksum, and a payload.

    A frame decodes exactly from its own encoding, other protocol versions are told apart from
    damage, and frames written to a stream are read back one by one. */
module Frames {
  import opened Types
  import opened Encoding

  const NETWORK_MAGIC: Bytes := Ascii("OURP")
  const PROTOCOL_VERSION := 1
  const FRAME_PREFIX_SIZE := 15
  const MAX_FRAME_PAYLOAD := 8_388_608

  datatype MessageType = HELLO | GET_BLOCKS | BLOCK | TRANSACTION | SYNC_COMPLETE | PING | PONG | REJECT {
    function Code(): (code: nat)
      ensures 1 <= code <= 8
    {
      match this
      case HELLO => 1
      case GET_BLOCKS => 2
      case BLOCK => 3
      case TRANSACTION => 4
      case SYNC_COMPLETE => 5
      case PING => 6
      case PONG => 7
      case REJECT => 8
    }
  }

  function TypeOf(code: nat): (t: Option<MessageType>)
    ensures t.Some? ==> t.value.Code() == code
  {
    if code == 1 then Some(HELLO)
    else if code == 2 then Some(GET_BLOCKS)
    else if code == 3 then Some(BLOCK)
    else if code == 4 then Some(TRANSACTION)
    else if code == 5 then Some(SYNC_COMPLETE)
    else if code == 6 then Some(PING)
    else if code == 7 then Some(PONG)
    else if code == 8 then Some(REJECT)
    else None
  }

  datatype Frame = Frame(messageType: MessageType, payload: Bytes)

  /** What decoding a frame says about it; a foreign protocol version is told apart. */
  datatype Verdict = Good(frame: Frame) | Foreign(version: nat) | Bad

  function EncodeFrame(sha: Bytes -> Hash, f: Frame, version: int): Option<Bytes> {
    if |f.payload| > MAX_FRAME_PAYLOAD then None
    else
      var rawVersion :- EncodeU16(version);
      var code :- EncodeU8(f.messageType.Code());
      var length :- EncodeU32(|f.payload|);
      Some(NETWORK_MAGIC + (rawVersion + (code + (length + (sha(f.payload)[..4] + f.payload)))))
  }

  /** The prefix of a frame, split into its fields. */
  datatype Prefix = Prefix(magic: Bytes, version: nat, code: nat, length: nat, checksum: Bytes, rest: Bytes)

  function Unpack(encoded: Bytes): Prefix
    requires |encoded| >= FRAME_PREFIX_SIZE
  {
    Prefix(encoded[..4], FromBigEndian(encoded[4..6]), FromBigEndian(encoded[6..7]),
           FromBigEndian(encoded[7..11]), encoded[11..15], encoded[15..])
  }

  function DecodeFrame(sha: Bytes -> Hash, encoded: Bytes): Verdict {
    if |encoded| < FRAME_PREFIX_SIZE then Bad
    else
      var p := Unpack(encoded);
      if p.magic != NETWORK_MAGIC then Bad
      else if p.version != PROTOCOL_VERSION then Foreign(p.version)
      else if p.length > MAX_FRAME_PAYLOAD then Bad
      else if |p.rest| != p.length then Bad
      else if sha(p.rest)[..4] != p.checksum then Bad
      else if TypeOf(p.code).None? then Bad
      else Good(Frame(TypeOf(p.code).value, p.rest))
  }

  /** Reading one frame off a stream: as many bytes as the prefix announces, and the rest is left. */
  function ReadFrame(sha: Bytes -> Hash, stream: Bytes): Option<Read<Frame>> {
    if |stream| < FRAME_PREFIX_SIZE then None
    else
      var p := Unpack(stream);
      if p.magic != NETWORK_MAGIC || p.version != PROTOCOL_VERSION || p.length > MAX_FRAME_PAYLOAD then None
      else
        var payload :- ParseRaw(p.length, p.rest);
        if sha(payload.value)[..4] != p.checksum then None
        else
          var messageType :- TypeOf(p.code);
          Some(Read(Frame(messageType, payload.value), payload.rest))
  }

  lemma FramePrefix(sha: Bytes -> Hash, f: Frame, version: int, rest: Bytes)
    requires EncodeFrame(sha, f, version).Some?
    ensures var s := EncodeFrame(sha, f, version).value + rest;
            && |s| >= FRAME_PREFIX_SIZE
            && Unpack(s) == Prefix(NETWORK_MAGIC, version, f.messageType.Code(), |f.payload|,
                                   sha(f.payload)[..4], f.payload + rest)
    ensures TypeOf(f.messageType.Code()) == Some(f.messageType)
  {
    hide FromBigEndian;
    var v, c, l := EncodeU16(version).value, EncodeU8(f.messageType.Code()).value, EncodeU32(|f.payload|).value;
    var s := EncodeFrame(sha, f, version).value + rest;
    NumberSurvives(version, 2);
    NumberSurvives(f.messageType.Code(), 1);
    NumberSurvives(|f.payload|, 4);
    assert s[..4] == NETWORK_MAGIC && s[4..6] == v && s[6..7] == c && s[7..11] == l;
    assert s[11..15] == sha(f.payload)[..4] && s[15..] == f.payload + rest;
  }

  lemma UnpackedIsWhole(encoded: Bytes)
    requires |encoded| >= FRAME_PREFIX_SIZE
    ensures var p := Unpack(encoded);
            && encoded == p.magic + (BigEndian(p.version, 2) + (BigEndian(p.code, 1) +
                          (BigEndian(p.length, 4) + (p.checksum + p.rest))))
            && p.version < Pow256(2) && p.code < Pow256(1) && p.length < Pow256(4)
  {
    hide BigEndian, FromBigEndian;
    BytesSurvive(encoded[4..6]);
    BytesSurvive(encoded[6..7]);
    BytesSurvive(encoded[7..11]);
  }

  /** Decoding returns a frame exactly on the one byte string that encodes it. */
  lemma FrameCodec(sha: Bytes -> Hash, encoded: Bytes, f: Frame)
    ensures DecodeFrame(sha, encoded) == Good(f) <==> EncodeFrame(sha, f, PROTOCOL_VERSION) == Some(encoded)
  {
    hide Unpack, BigEndian;
    if DecodeFrame(sha, encoded) == Good(f) {
      UnpackedIsWhole(encoded);
    }
    if EncodeFrame(sha, f, PROTOCOL_VERSION) == Some(encoded) {
      FramePrefix(sha, f, PROTOCOL_VERSION, []);
      assert encoded + [] == encoded && f.payload + [] == f.payload;
    }
  }

  /** A frame of any other version is recognized as such, not mistaken for a damaged one. */
  lemma OtherVersionsAreRecognized(sha: Bytes -> Hash, f: Frame, version: int)
    requires EncodeFrame(sha, f, version).Some? && version != PROTOCOL_VERSION
    ensures DecodeFrame(sha, EncodeFrame(sha, f, version).value) == Foreign(version)
  {
    var encoded := EncodeFrame(sha, f, version).value;
    FramePrefix(sha, f, version, []);
    assert encoded + [] == encoded;
  }

  function EncodeFrames(sha: Bytes -> Hash, frames: seq<Frame>): Option<Bytes> {
    if frames == [] then Some([])
    else
      var first :- EncodeFrame(sha, frames[0], PROTOCOL_VERSION);
      var others :- EncodeFrames(sha, frames[1..]);
      Some(first + others)
  }

  function ReadFrames(sha: Bytes -> Hash, stream: Bytes, count: nat): Option<Read<seq<Frame>>> {
    if count == 0 then Some(Read([], stream))
    else
      var first :- ReadFrame(sha, stream);
      var others :- ReadFrames(sha, first.rest, count - 1);
      Some(Read([first.value] + others.value, others.rest))
  }

  /** Frames written one after the other are read back one by one, whatever follows them. */
  lemma {:induction false} StreamsKeepFrames(sha: Bytes -> Hash, frames: seq<Frame>, rest: Bytes)
    requires EncodeFrames(sha, frames).Some?
    ensures ReadFrames(sha, EncodeFrames(sha, frames).value + rest, |frames|) == Some(Read(frames, rest))
  {
    hide Unpack, EncodeFrame;
    if frames == [] {
      assert [] + rest == rest;
    } else {
      var tail := EncodeFrames(sha, frames[1..]).value + rest;
      var stream := EncodeFrame(sha, frames[0], PROTOCOL_VERSION).value + tail;
      assert EncodeFrames(sha, frames).value + rest == stream;
      FrameIsRead(sha, frames[0], tail);
      StreamsKeepFrames(sha, frames[1..], rest);
      assert [frames[0]] + frames[1..] == frames;
    }
  }

  lemma FrameIsRead(sha: Bytes -> Hash, f: Frame, rest: Bytes)
    requires EncodeFrame(sha, f, PROTOCOL_VERSION).Some?
    ensures ReadFrame(sha, EncodeFrame(sha, f, PROTOCOL_VERSION).value + rest) == Some(Read(f, rest))
  {
    hide Unpack;
    FramePrefix(sha, f, PROTOCOL_VERSION, rest);
    assert (f.payload + rest)[..|f.payload|] == f.payload && (f.payload + rest)[|f.payload|..] == rest;
  }
}
