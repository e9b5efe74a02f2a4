/** pkg/mesh/relay/token.go and frame.go: signed routing tokens and the plaintext
    envelope put around every datagram. Times are nanoseconds. */
module Frame {
  import opened Options
  import opened Keys
  import opened BigEndian

  const SECOND: int := 1_000_000_000
  const SESSION_ID_SIZE: nat := 16
  const MAC_SIZE: nat := 32
  const SIGNED_SIZE: nat := 8 + SESSION_ID_SIZE
  const TOKEN_SIZE: nat := SIGNED_SIZE + MAC_SIZE
  const HEADER_SIZE: nat := 4 + 1 + TOKEN_SIZE
  const MAX_UDP_SIZE: nat := 64 * 1024

  // -------------------------------------------------------------------- tokens

  type Token = t: Bytes | |t| == TOKEN_SIZE witness seq(TOKEN_SIZE, _ => '\0')

  datatype SessionId = SessionId(raw: Bytes)

  type Digest = d: Bytes | |d| == MAC_SIZE witness seq(MAC_SIZE, _ => '\0')

  /** The message authentication code; nothing is assumed of it but its size. */
  type Mac = (Bytes, Bytes) -> Digest

  function ExpiresAt(t: Token): int {
    GetInt64(t[..8]) * SECOND
  }

  function IdOf(t: Token): SessionId {
    SessionId(t[8..SIGNED_SIZE])
  }

  predicate ValidToken(mac: Mac, secret: Bytes, t: Token, now: int) {
    |secret| >= 32 && now < ExpiresAt(t) && t[SIGNED_SIZE..] == mac(secret, t[..SIGNED_SIZE])
  }

  datatype IssueResult = Issued(token: Token) | SecretTooShort | NonPositiveTtl

  method CopyAt(dst: array<Byte>, at: nat, src: Bytes)
    requires at + |src| <= dst.Length
    modifies dst
    ensures dst[..] == old(dst[..])[..at] + src + old(dst[..])[at + |src|..]
  {
    for i := 0 to |src|
      invariant dst[..at] == old(dst[..])[..at]
      invariant dst[at..at + i] == src[..i]
      invariant dst[at + i..] == old(dst[..])[at + i..]
    {
      dst[at + i] := src[i];
      assert dst[at..at + i + 1] == dst[at..at + i] + [src[i]];
    }
    assert dst[..] == dst[..at] + dst[at..at + |src|] + dst[at + |src|..];
  }

  /** Expiry and session id, in that layout. */
  function Signed(ttl: int, now: int, random: Bytes): Bytes
    requires -TWO_TO_THE_63 <= (now + ttl) / SECOND < TWO_TO_THE_63
  {
    PutInt64((now + ttl) / SECOND) + random
  }

  function TokenOf(mac: Mac, secret: Bytes, ttl: int, now: int, random: Bytes): Token
    requires |random| == SESSION_ID_SIZE
    requires -TWO_TO_THE_63 <= (now + ttl) / SECOND < TWO_TO_THE_63
  {
    Signed(ttl, now, random) + mac(secret, Signed(ttl, now, random))
  }

  lemma TokenIsValid(mac: Mac, secret: Bytes, ttl: int, now: int, random: Bytes, t: int)
    requires |random| == SESSION_ID_SIZE && |secret| >= 32
    requires -TWO_TO_THE_63 <= (now + ttl) / SECOND < TWO_TO_THE_63
    ensures var token := TokenOf(mac, secret, ttl, now, random);
      && IdOf(token) == SessionId(random) && ExpiresAt(token) == (now + ttl) / SECOND * SECOND
      && (ValidToken(mac, secret, token, t) <==> t < (now + ttl) / SECOND * SECOND)
  {
    var signed, token := Signed(ttl, now, random), TokenOf(mac, secret, ttl, now, random);
    assert token[..SIGNED_SIZE] == signed && token[SIGNED_SIZE..] == mac(secret, signed);
    assert token[..8] == PutInt64((now + ttl) / SECOND) && token[8..SIGNED_SIZE] == random;
    GetPutInt64((now + ttl) / SECOND);
  }

  /** A fresh token for a session id: valid before `now + ttl`, rounded down to a
      whole second, and at no later time. */
  method IssueToken(mac: Mac, secret: Bytes, ttl: int, now: int, random: Bytes) returns (r: IssueResult)
    requires |random| == SESSION_ID_SIZE
    requires -TWO_TO_THE_63 <= (now + ttl) / SECOND < TWO_TO_THE_63
    ensures r.SecretTooShort? <==> |secret| < 32
    ensures r.NonPositiveTtl? <==> |secret| >= 32 && ttl <= 0
    ensures r.Issued? ==> r.token == TokenOf(mac, secret, ttl, now, random)
    ensures r.Issued? ==> IdOf(r.token) == SessionId(random) && ExpiresAt(r.token) == (now + ttl) / SECOND * SECOND
    ensures r.Issued? ==> forall t :: ValidToken(mac, secret, r.token, t) <==> t < (now + ttl) / SECOND * SECOND
  {
    if |secret| < 32 {
      return SecretTooShort;
    }
    if ttl <= 0 {
      return NonPositiveTtl;
    }
    var raw := new Byte[TOKEN_SIZE](_ => '\0');
    var expiry: Int64 := (now + ttl) / SECOND;
    CopyAt(raw, 0, PutInt64(expiry));
    CopyAt(raw, 8, random);
    assert raw[..8] == PutInt64(expiry) && raw[8..SIGNED_SIZE] == random;
    assert raw[..SIGNED_SIZE] == raw[..8] + raw[8..SIGNED_SIZE] == Signed(ttl, now, random);
    CopyAt(raw, SIGNED_SIZE, mac(secret, raw[..SIGNED_SIZE]));
    var token: Token := raw[..];
    assert token == TokenOf(mac, secret, ttl, now, random);
    forall t ensures ValidToken(mac, secret, token, t) <==> t < (now + ttl) / SECOND * SECOND {
      TokenIsValid(mac, secret, ttl, now, random, t);
    }
    TokenIsValid(mac, secret, ttl, now, random, now);
    return Issued(token);
  }

  /** A positive time to live does not make a token valid: exactly one that
      reaches a later second than the one it is issued in is alive. */
  lemma IssuedAlive(mac: Mac, secret: Bytes, ttl: int, now: int, random: Bytes)
    requires |random| == SESSION_ID_SIZE && |secret| >= 32 && ttl > 0
    requires -TWO_TO_THE_63 <= (now + ttl) / SECOND < TWO_TO_THE_63
    ensures ValidToken(mac, secret, TokenOf(mac, secret, ttl, now, random), now) <==>
            (now + ttl) / SECOND > now / SECOND
  {
    TokenIsValid(mac, secret, ttl, now, random, now);
  }

  /** Issued half a second into a second, for a quarter of one: born expired. */
  lemma BornExpired(mac: Mac, secret: Bytes, random: Bytes)
    requires |random| == SESSION_ID_SIZE && |secret| >= 32
    ensures !ValidToken(mac, secret, TokenOf(mac, secret, SECOND / 4, SECOND / 2, random), SECOND / 2)
  {
    IssuedAlive(mac, secret, SECOND / 4, SECOND / 2, random);
  }

  // ----------------------------------------------------------------- envelopes

  type Side = Byte

  const MOON: Side := '\U{0}'
  const COMET: Side := '\U{1}'
  const MAGIC: Bytes := ['S', 'Y', 'R', '\U{1}']

  predicate ValidSide(s: Side) {
    s == MOON || s == COMET
  }

  function Other(s: Side): Side {
    if s == MOON then COMET else MOON
  }

  datatype Envelope = Envelope(token: Token, side: Side, payload: Bytes)

  /** The bytes of an envelope. */
  function FrameBytes(e: Envelope): Bytes {
    MAGIC + [e.side] + e.token + e.payload
  }

  method EncodeFrame(token: Token, side: Side, payload: Bytes) returns (frame: array<Byte>)
    ensures fresh(frame) && frame[..] == FrameBytes(Envelope(token, side, payload))
  {
    frame := new Byte[HEADER_SIZE + |payload|](_ => '\0');
    CopyAt(frame, 0, MAGIC);
    frame[4] := side;
    assert frame[..5] == MAGIC + [side];
    CopyAt(frame, 5, token);
    assert frame[..HEADER_SIZE] == MAGIC + [side] + token;
    CopyAt(frame, HEADER_SIZE, payload);
  }

  function DecodeFrame(frame: Bytes): Option<Envelope> {
    if |frame| < HEADER_SIZE || |frame| > MAX_UDP_SIZE then None
    else if frame[..4] != MAGIC then None
    else if !ValidSide(frame[4]) then None
    else Some(Envelope(frame[5..HEADER_SIZE], frame[4], frame[HEADER_SIZE..]))
  }

  /** Decoding inverts encoding exactly on real sides and frames up to 64 KiB. */
  lemma DecodeOfFrame(e: Envelope)
    ensures DecodeFrame(FrameBytes(e)) == Some(e) <==> ValidSide(e.side) && HEADER_SIZE + |e.payload| <= MAX_UDP_SIZE
    ensures DecodeFrame(FrameBytes(e)).Some? ==> DecodeFrame(FrameBytes(e)) == Some(e)
  {
    var f := FrameBytes(e);
    assert f[..4] == MAGIC && f[4] == e.side && f[5..HEADER_SIZE] == e.token && f[HEADER_SIZE..] == e.payload;
  }

  /** Whatever decodes was encoded: no two byte strings share an envelope. */
  lemma FrameOfDecode(frame: Bytes)
    requires DecodeFrame(frame).Some?
    ensures FrameBytes(DecodeFrame(frame).value) == frame
  {
    assert frame == frame[..4] + [frame[4]] + frame[5..HEADER_SIZE] + frame[HEADER_SIZE..];
  }
}
