/**
 Signing and checking cards. The signature scheme and the hash are parameters: an `Env`
 holds them as functions, together with the decoder of stored bytes.
 */
module CardOps {
  import opened Wrappers
  import opened Octets
  import opened Schema
  import opened Codec

  type Address = Bytes

  datatype Env = Env(
    hash: Bytes -> Address,                    // BLAKE3
    keyOk: Bytes -> bool,                      // do these 32 bytes form a public key?
    verify: (Bytes, Bytes, Bytes) -> bool,     // public key, message, signature
    publicKey: Bytes -> Blob,                  // of a signing key
    sign: (Bytes, Bytes) -> Blob,              // signing key, message
    decode: Bytes -> Option<SignedCard>)       // canonical_decode at type SignedCard

  /** What the signature scheme promises (section 5.1 of RFC 8032). */
  ghost predicate SignatureLaw(env: Env)
  {
    forall sk, msg ::
      && |env.publicKey(sk)| == 32 && env.keyOk(env.publicKey(sk))
      && |env.sign(sk, msg)| == 64
      && env.verify(env.publicKey(sk), msg, env.sign(sk, msg))
  }

  /** The decoder inverts the encoder, whatever else it may accept. */
  ghost predicate DecoderLaw(env: Env)
  {
    forall c :: env.decode(EncodeSignedCard(c)) == Some(c)
  }

  /** The modelled codec is such a decoder. */
  lemma CodecIsDecoder(env: Env)
    requires env.decode == DecodeSignedCard
    ensures DecoderLaw(env)
  {
    forall c ensures env.decode(EncodeSignedCard(c)) == Some(c) {
      DecodesEncoded(c);
    }
  }

  lemma DecodesEncoded(c: SignedCard)
    ensures DecodeSignedCard(EncodeSignedCard(c)) == Some(c)
  {
    SignedCardRoundTrip(c, []);
    assert EncodeSignedCard(c) + [] == EncodeSignedCard(c);
  }

  datatype CardError =
    | InvalidPubkeyLength(n: nat)
    | InvalidSignatureLength(n: nat)
    | InvalidSignature
    | AddressMismatch

  datatype ConsumerError =
    | CardVerification(error: CardError)
    | FetchedAddressMismatch
    | CardRevoked

  function ComputeAddress(env: Env, pubkey: Bytes): (a: Address) { env.hash(pubkey) }

  function SignCard(env: Env, record: CardRecord, sk: Bytes): (c: SignedCard)
  {
    SignedCard(record, env.sign(sk, EncodeCard(record)))
  }

  function VerifyCard(env: Env, c: SignedCard): (r: Result<(), CardError>)
  {
    if |c.record.pubkey| != 32 then Err(InvalidPubkeyLength(|c.record.pubkey|))
    else if |c.sig| != 64 then Err(InvalidSignatureLength(|c.sig|))
    else if !env.keyOk(c.record.pubkey) then Err(InvalidSignature)
    else if !env.verify(c.record.pubkey, EncodeCard(c.record), c.sig) then Err(InvalidSignature)
    else Ok(())
  }

  function VerifyAddress(env: Env, c: SignedCard, expected: Address): (r: Result<(), CardError>)
  {
    if ComputeAddress(env, c.record.pubkey) != expected then Err(AddressMismatch) else Ok(())
  }

  /** What a consumer checks on a card it fetched from an address. */
  function VerifyFetchedCard(env: Env, c: SignedCard, expected: Address): (r: Result<(), ConsumerError>)
  {
    var verified := VerifyCard(env, c);
    if verified.Err? then Err(CardVerification(verified.error))
    else if ComputeAddress(env, c.record.pubkey) != expected then Err(FetchedAddressMismatch)
    else if c.record.status == Revoked then Err(CardRevoked)
    else Ok(())
  }

  /** The card carries a well-formed key and, by that key, a signature on the canonical bytes of its record. */
  ghost predicate Authentic(env: Env, c: SignedCard)
  {
    && |c.record.pubkey| == 32 && env.keyOk(c.record.pubkey)
    && |c.sig| == 64 && env.verify(c.record.pubkey, EncodeCard(c.record), c.sig)
  }

  lemma VerifiesIffAuthentic(env: Env, c: SignedCard)
    ensures VerifyCard(env, c).Ok? <==> Authentic(env, c)
  {
  }

  /** Which error is given, the first in this order that applies. */
  lemma VerifyErrorIff(env: Env, c: SignedCard, e: CardError)
    ensures VerifyCard(env, c) == Err(e) <==>
              match e
              case InvalidPubkeyLength(n) => n == |c.record.pubkey| != 32
              case InvalidSignatureLength(n) => |c.record.pubkey| == 32 && n == |c.sig| != 64
              case InvalidSignature => |c.record.pubkey| == 32 && |c.sig| == 64 && !Authentic(env, c)
              case AddressMismatch => false
  {
  }

  /** What a consumer is told: the signature is judged first, then the address, then the status. */
  lemma FetchedErrorIff(env: Env, c: SignedCard, expected: Address, e: ConsumerError)
    ensures VerifyFetchedCard(env, c, expected) == Err(e) <==>
              match e
              case CardVerification(error) => VerifyCard(env, c) == Err(error)
              case FetchedAddressMismatch => Authentic(env, c) && env.hash(c.record.pubkey) != expected
              case CardRevoked => Authentic(env, c) && env.hash(c.record.pubkey) == expected && c.record.status == Revoked
  {
    VerifiesIffAuthentic(env, c);
  }

  /** A card signed with the key it names verifies. */
  lemma SignedCardVerifies(env: Env, record: CardRecord, sk: Bytes)
    requires SignatureLaw(env) && record.pubkey == env.publicKey(sk)
    ensures SignCard(env, record, sk).record == record && Authentic(env, SignCard(env, record, sk))
    ensures VerifyCard(env, SignCard(env, record, sk)) == Ok(())
  {
    var message := EncodeCard(record);
    assert env.verify(env.publicKey(sk), message, env.sign(sk, message));
  }
}
