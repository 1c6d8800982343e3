/**
  Pairing tokens: an envelope naming a device and its public key, signed by the
  matching private key, marshalled, and written in base64url.

  The signature scheme, the JSON codec and the token hash are parameters; what is
  assumed of them is Lawful and, for the result about who signed, NotForged.
  Times are nanoseconds since the Unix epoch.
  */
module Pairing {
  import opened Shared
  import opened Base64
  import opened Text

  const TOKEN_LIFETIME: int := 10 * 60 * SECOND
  const KEY_SIZE := 32
  const SIGNATURE_SIZE := 64
  const CHALLENGE_SIZE := 32
  const LONGEST_ENVELOPE := 4096

  /** Whole seconds since the epoch, rounded down. */
  function Unix(at: int): int { at / SECOND }

  datatype Envelope = Envelope(version: int, deviceId: string, publicKey: string,
                               nonce: string, expiresAt: int, signature: string)

  datatype Library = Library(
    marshal: Envelope -> Bytes,
    unmarshal: Bytes -> Option<Envelope>,
    publicKey: Bytes -> Bytes,
    sign: (Bytes, Bytes) -> Bytes,
    verify: (Bytes, Bytes, Bytes) -> bool,
    hash: string -> Bytes)

  ghost predicate Representable(e: Envelope) {
    MIN_INT64 <= e.version <= MAX_INT64 && MIN_INT64 <= e.expiresAt <= MAX_INT64
  }

  /** The codec is a round trip on the envelopes it can produce, and no envelope is as
      short as a challenge; signatures have their fixed sizes and verify. */
  ghost predicate Lawful(lib: Library) {
    && (forall e: Envelope :: Representable(e) ==> lib.unmarshal(lib.marshal(e)) == Some(e))
    && (forall raw: Bytes :: lib.unmarshal(raw).Some? ==> Representable(lib.unmarshal(raw).value))
    && (forall e: Envelope :: |lib.marshal(e)| > CHALLENGE_SIZE)
    && (forall secret: Bytes :: |lib.publicKey(secret)| == KEY_SIZE)
    && (forall secret: Bytes, message: Bytes :: |lib.sign(secret, message)| == SIGNATURE_SIZE)
    && (forall secret: Bytes, message: Bytes ::
          lib.verify(lib.publicKey(secret), message, lib.sign(secret, message)))
  }

  // ------------------------------------------------------------------
  // Making and parsing tokens
  // ------------------------------------------------------------------

  /** The envelope as it is signed: without the signature. */
  function Unsigned(lib: Library, secret: Bytes, deviceId: string, nonce: Bytes, now: int): Envelope {
    Envelope(1, deviceId, Encode(lib.publicKey(secret)), Encode(nonce), Unix(now + TOKEN_LIFETIME), "")
  }

  function Signed(lib: Library, secret: Bytes, e: Envelope): Envelope {
    e.(signature := Encode(lib.sign(secret, lib.marshal(e))))
  }

  function PairingToken(lib: Library, secret: Bytes, deviceId: string, nonce: Bytes, now: int): string {
    Encode(lib.marshal(Signed(lib, secret, Unsigned(lib, secret, deviceId, nonce, now))))
  }

  datatype Parsed =
    | Accepted(envelope: Envelope, key: Bytes)
    | InvalidOrExpired
    | BadKey
    | BadSignature

  function ReadEnvelope(lib: Library, token: string): Option<Envelope> {
    match Decode(token)
    case None => None
    case Some(raw) => if |raw| > LONGEST_ENVELOPE then None else lib.unmarshal(raw)
  }

  function ParseToken(lib: Library, token: string, now: int): Parsed {
    match ReadEnvelope(lib, token)
    case None => InvalidOrExpired
    case Some(e) =>
      if e.version != 1 || e.deviceId == "" || e.expiresAt < Unix(now) then InvalidOrExpired
      else
        match Decode(e.publicKey)
        case None => BadKey
        case Some(key) =>
          if |key| != KEY_SIZE then BadKey
          else
            match Decode(e.signature)
            case None => BadSignature
            case Some(signature) =>
              var unsigned := e.(signature := "");
              if |signature| != SIGNATURE_SIZE || !lib.verify(key, lib.marshal(unsigned), signature)
              then BadSignature
              else Accepted(unsigned, key)
  }

  /** What is accepted, of all strings: base64url of at most 4096 bytes that unmarshal to a
      version 1 envelope which names a device and has not expired, with a key of 32 bytes
      and a signature of 64 that verifies under it over the envelope without a signature. */
  lemma AcceptedExactly(lib: Library, token: string, now: int)
    ensures
      ParseToken(lib, token, now).Accepted? <==>
        && Decode(token).Some? && |Decode(token).value| <= 4096
        && lib.unmarshal(Decode(token).value).Some?
        && var e := lib.unmarshal(Decode(token).value).value;
           && e.version == 1 && e.deviceId != "" && now / 1_000_000_000 <= e.expiresAt
           && Decode(e.publicKey).Some? && |Decode(e.publicKey).value| == 32
           && Decode(e.signature).Some? && |Decode(e.signature).value| == 64
           && lib.verify(Decode(e.publicKey).value, lib.marshal(e.(signature := "")), Decode(e.signature).value)
    ensures ParseToken(lib, token, now).Accepted? ==>
              var e := lib.unmarshal(Decode(token).value).value;
              ParseToken(lib, token, now) == Accepted(e.(signature := ""), Decode(e.publicKey).value)
  {
  }

  /** A token made at `made` parses back to the same device and key exactly until its
      lifetime, in whole seconds, is over. */
  lemma AcceptedUntilItExpires(lib: Library, secret: Bytes, id: string, nonce: Bytes, made: int, now: int)
    requires Lawful(lib) && Representable(Unsigned(lib, secret, id, nonce, made))
    ensures
      var unsigned := Unsigned(lib, secret, id, nonce, made);
      var parsed := ParseToken(lib, PairingToken(lib, secret, id, nonce, made), now);
      && (parsed == Accepted(unsigned, lib.publicKey(secret))
          <==> && |lib.marshal(Signed(lib, secret, unsigned))| <= LONGEST_ENVELOPE
               && id != ""
               && Unix(now) <= Unix(made + 600 * SECOND))
      && (!parsed.Accepted? ==> parsed == InvalidOrExpired)
      && (parsed.Accepted? ==> parsed == Accepted(unsigned, lib.publicKey(secret)))
  {
    var unsigned := Unsigned(lib, secret, id, nonce, made);
    var signed := Signed(lib, secret, unsigned);
    RoundTrip(lib.marshal(signed));
    RoundTrip(lib.publicKey(secret));
    RoundTrip(lib.sign(secret, lib.marshal(unsigned)));
    assert Representable(signed);
    assert signed.(signature := "") == unsigned;
  }

  // ------------------------------------------------------------------
  // Who signed
  // ------------------------------------------------------------------

  /** Everything private keys are used for: pairing tokens, and answers to the panel's
      challenges. */
  datatype KeyUse =
    | TokenMade(secret: Bytes, deviceId: string, nonce: Bytes, made: int)
    | ChallengeAnswered(secret: Bytes, challenge: Bytes)

  function Message(lib: Library, use: KeyUse): Bytes {
    match use
    case TokenMade(secret, id, nonce, made) => lib.marshal(Unsigned(lib, secret, id, nonce, made))
    case ChallengeAnswered(_, challenge) => challenge
  }

  ghost predicate WasSigned(lib: Library, uses: seq<KeyUse>, key: Bytes, message: Bytes) {
    exists i :: 0 <= i < |uses| && lib.publicKey(uses[i].secret) == key && Message(lib, uses[i]) == message
  }

  /** The signature a presented string carries, if it can be read. */
  function Presented(lib: Library, token: string): Option<Bytes> {
    match ReadEnvelope(lib, token)
    case None => None
    case Some(e) => Decode(e.signature)
  }

  /** Ideal signatures: one that somebody can present verifies only under a key whose
      holder signed that very message. */
  ghost predicate NotForged(lib: Library, uses: seq<KeyUse>, signature: Bytes) {
    forall key: Bytes, message: Bytes ::
      lib.verify(key, message, signature) ==> WasSigned(lib, uses, key, message)
  }

  ghost predicate Sane(lib: Library, use: KeyUse) {
    match use
    case TokenMade(secret, id, nonce, made) => Representable(Unsigned(lib, secret, id, nonce, made))
    case ChallengeAnswered(_, challenge) => |challenge| == CHALLENGE_SIZE
  }

  lemma MarshalIsInjective(lib: Library, e: Envelope, f: Envelope)
    requires Lawful(lib) && Representable(e) && Representable(f)
    requires lib.marshal(e) == lib.marshal(f)
    ensures e == f
  {
    assert lib.unmarshal(lib.marshal(e)) == Some(e);
    assert lib.unmarshal(lib.marshal(f)) == Some(f);
  }

  /** Whatever string is presented, an accepted envelope was made by the holder of the
      key it names, for that device and not longer ago than the lifetime: a key's answer
      to a challenge never passes for a pairing token. */
  lemma AcceptedWasMadeByTheHolder(lib: Library, uses: seq<KeyUse>, token: string, now: int)
    requires Lawful(lib)
    requires Presented(lib, token).Some? ==> NotForged(lib, uses, Presented(lib, token).value)
    requires forall i :: 0 <= i < |uses| ==> Sane(lib, uses[i])
    requires ParseToken(lib, token, now).Accepted?
    ensures
      var Accepted(e, key) := ParseToken(lib, token, now);
      exists i :: && 0 <= i < |uses|
                  && uses[i].TokenMade?
                  && lib.publicKey(uses[i].secret) == key
                  && e == Unsigned(lib, uses[i].secret, uses[i].deviceId, uses[i].nonce, uses[i].made)
                  && Unix(now) <= Unix(uses[i].made + 600 * SECOND)
  {
    var Accepted(e, key) := ParseToken(lib, token, now);
    var read := ReadEnvelope(lib, token).value;
    assert Representable(read);
    assert WasSigned(lib, uses, key, lib.marshal(e));
    var i :| 0 <= i < |uses| && lib.publicKey(uses[i].secret) == key && Message(lib, uses[i]) == lib.marshal(e);
    assert Sane(lib, uses[i]);
    assert uses[i].TokenMade?;
    MarshalIsInjective(lib, e, Unsigned(lib, uses[i].secret, uses[i].deviceId, uses[i].nonce, uses[i].made));
  }
}
