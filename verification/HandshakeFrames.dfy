/** The five frames of the distribution handshake: what each side generates and what the other parses. */
module HandshakeFrames {
  import opened ByteCodec
  import opened Parsing
  import opened Lexer

  const SUPPORTED_VERSION: uint16 := 5
  const CAPABILITIES: uint32 := 0x504   // extended references, extended pids and ports, bit binaries
  const DIGEST_LENGTH := 16
  const NAME_TAG: byte := 110           // 'n'
  const STATUS_TAG: byte := 115         // 's'
  const REPLY_TAG: byte := 114          // 'r'
  const ACK_TAG: byte := 97             // 'a'
  const STATUS_OK: Bytes := [111, 107]  // "ok"
  const STATUS_OK_SIMULTANEOUS: Bytes := [111, 107, 95, 115, 105, 109, 117, 108, 116, 97, 110, 101, 111, 117, 115]

  datatype SentName = SentName(version0: uint16, version1: int32, name: Bytes)

  datatype ChallengeReply = ChallengeReply(challenge: uint32, digest: Bytes)

  // ---------- Generators ----------

  function NameFrame(name: Bytes): Bytes {
    Be16(|name| + 7) + ([NAME_TAG] + (Be16(SUPPORTED_VERSION) + (Be32(CAPABILITIES) + name)))
  }

  function StatusFrame(status: Bytes): Bytes {
    Be16(|status| + 1) + ([STATUS_TAG] + status)
  }

  function ChallengeFrame(challenge: uint32, name: Bytes): Bytes {
    Be16(|name| + 11) + ([NAME_TAG] + (Be16(SUPPORTED_VERSION) + (Be32(CAPABILITIES) + (Be32(challenge) + name))))
  }

  function ReplyFrame(challenge: uint32, digest: Bytes): Bytes {
    Be16(5 + DIGEST_LENGTH) + ([REPLY_TAG] + (Be32(challenge) + digest))
  }

  function AckFrame(digest: Bytes): Bytes {
    Be16(1 + DIGEST_LENGTH) + ([ACK_TAG] + digest)
  }

  // ---------- Parsers ----------

  /** `+char_`: everything that is left, and at least one byte of it. */
  function ParseRest(b: Bytes): Parsed<Bytes> {
    if b == [] then Fail else Ok(b, [])
  }

  function ParseName(b: Bytes): Parsed<SentName> {
    var (_, b) :- Parse16(b);
    var (_, b) :- ParseTag(NAME_TAG, b);
    var (version0, b) :- Parse16(b);
    var (version1, b) :- Parse32(b);
    var (name, b) :- ParseRest(b);
    Ok(SentName(version0, if version1 < 0x8000_0000 then version1 else version1 - 0x1_0000_0000, name), b)
  }

  function ParseStatus(b: Bytes): Parsed<Bytes> {
    var (_, b) :- Parse16(b);
    var (_, b) :- ParseTag(STATUS_TAG, b);
    ParseRest(b)
  }

  function ParseChallenge(b: Bytes): Parsed<uint32> {
    var (_, b) :- Parse16(b);
    var (_, b) :- ParseTag(NAME_TAG, b);
    var (_, b) :- Parse16(b);
    var (_, b) :- Parse32(b);
    var (challenge, b) :- Parse32(b);
    var (_, b) :- ParseRest(b);
    Ok(challenge, b)
  }

  function ParseReply(b: Bytes): Parsed<ChallengeReply> {
    var (n, b) :- Parse16(b);
    if n != 5 + DIGEST_LENGTH then Fail
    else
      var (_, b) :- ParseTag(REPLY_TAG, b);
      var (challenge, b) :- Parse32(b);
      var (digest, b) :- ParseRepeat(DIGEST_LENGTH, b);
      Ok(ChallengeReply(challenge, digest), b)
  }

  function ParseAck(b: Bytes): Parsed<Bytes> {
    var (n, b) :- Parse16(b);
    if n != 1 + DIGEST_LENGTH then Fail
    else
      var (_, b) :- ParseTag(ACK_TAG, b);
      ParseRepeat(DIGEST_LENGTH, b)
  }

  predicate SupportedVersion(n: SentName) {
    SUPPORTED_VERSION >= n.version0 && SUPPORTED_VERSION <= n.version1
  }

  // ---------- Each frame parses back, and is one message of the lexer exactly when its length fits ----------

  lemma FrameOf(n: nat, body: Bytes)
    requires |body| == n
    ensures IsFrame(Handshake, Be16(n) + body) <==> n < 0x1_0000
  {
    Be16RoundTrip(n);
    assert (Be16(n) + body)[..2] == Be16(n);
  }

  lemma NameOn(name: Bytes)
    ensures IsFrame(Handshake, NameFrame(name)) <==> |name| <= 0x1_0000 - 8
    ensures ParseName(NameFrame(name)) ==
            if name == [] then Fail else Ok(SentName(SUPPORTED_VERSION, CAPABILITIES, name), [])
    ensures name != [] ==> SupportedVersion(ParseName(NameFrame(name)).value)
  {
    hide Be16, Be32, Parse16, Parse32, ParseTag, IsFrame;
    var r2 := Be32(CAPABILITIES) + name;
    var r1 := Be16(SUPPORTED_VERSION) + r2;
    FrameOf(|name| + 7, [NAME_TAG] + r1);
    Word16On(|name| + 7, [NAME_TAG] + r1);
    TagOn(NAME_TAG, r1);
    Word16On(SUPPORTED_VERSION, r2);
    Word32On(CAPABILITIES, name);
  }

  lemma StatusOn(status: Bytes)
    ensures IsFrame(Handshake, StatusFrame(status)) <==> |status| <= 0x1_0000 - 2
    ensures ParseStatus(StatusFrame(status)) == if status == [] then Fail else Ok(status, [])
  {
    hide Be16, Parse16, ParseTag, IsFrame;
    FrameOf(|status| + 1, [STATUS_TAG] + status);
    Word16On(|status| + 1, [STATUS_TAG] + status);
    TagOn(STATUS_TAG, status);
  }

  lemma ChallengeOn(challenge: uint32, name: Bytes)
    ensures IsFrame(Handshake, ChallengeFrame(challenge, name)) <==> |name| <= 0x1_0000 - 12
    ensures ParseChallenge(ChallengeFrame(challenge, name)) == if name == [] then Fail else Ok(challenge, [])
  {
    hide Be16, Be32, Parse16, Parse32, ParseTag, IsFrame;
    var r3 := Be32(challenge) + name;
    var r2 := Be32(CAPABILITIES) + r3;
    var r1 := Be16(SUPPORTED_VERSION) + r2;
    FrameOf(|name| + 11, [NAME_TAG] + r1);
    Word16On(|name| + 11, [NAME_TAG] + r1);
    TagOn(NAME_TAG, r1);
    Word16On(SUPPORTED_VERSION, r2);
    Word32On(CAPABILITIES, r3);
    Word32On(challenge, name);
  }

  lemma ReplyOn(challenge: uint32, digest: Bytes)
    requires |digest| == DIGEST_LENGTH
    ensures IsFrame(Handshake, ReplyFrame(challenge, digest))
    ensures ParseReply(ReplyFrame(challenge, digest)) == Ok(ChallengeReply(challenge, digest), [])
  {
    hide Be16, Be32, Parse16, Parse32, ParseTag, ParseRepeat, IsFrame;
    var r := Be32(challenge) + digest;
    FrameOf(5 + DIGEST_LENGTH, [REPLY_TAG] + r);
    Word16On(5 + DIGEST_LENGTH, [REPLY_TAG] + r);
    TagOn(REPLY_TAG, r);
    Word32On(challenge, digest);
    RepeatOn(digest, []);
    assert digest + [] == digest;
  }

  lemma AckOn(digest: Bytes)
    requires |digest| == DIGEST_LENGTH
    ensures IsFrame(Handshake, AckFrame(digest)) && ParseAck(AckFrame(digest)) == Ok(digest, [])
  {
    hide Be16, Parse16, ParseTag, ParseRepeat, IsFrame;
    FrameOf(1 + DIGEST_LENGTH, [ACK_TAG] + digest);
    Word16On(1 + DIGEST_LENGTH, [ACK_TAG] + digest);
    TagOn(ACK_TAG, digest);
    RepeatOn(digest, []);
    assert digest + [] == digest;
  }
}
