/** Digests and detached signatures over the canonical encoding. */
module SignedJson {
  import opened Base
  import opened CanonicalJson
  import opened JsonRoundTrip

  // "ed25519", "oath-json-v1" and "sha256:" as bytes.
  const ALGORITHM: Bytes := [101, 100, 50, 53, 53, 49, 57]
  const CANONICALIZATION: Bytes := [111, 97, 116, 104, 45, 106, 115, 111, 110, 45, 118, 49]
  const DIGEST_PREFIX: Bytes := [115, 104, 97, 50, 53, 54, 58]

  function DigestJson(h: Hash, v: Json): Bytes { DIGEST_PREFIX + h(Text(v)) }

  /** Equal digests mean equal values, unless the two canonical texts collide. */
  lemma DigestBindsMeaning(h: Hash, v: Json, w: Json)
    requires WellFormed(v) && WellFormed(w) && DigestJson(h, v) == DigestJson(h, w)
    ensures Denote(v) == Denote(w) || CollisionIn(h, {Text(v), Text(w)})
  {
    hide Text, Denote, WellFormed;
    assert DigestJson(h, v)[7..] == h(Text(v)) && DigestJson(h, w)[7..] == h(Text(w));
    if !CollisionIn(h, {Text(v), Text(w)}) {
      NoCollision(h, {Text(v), Text(w)}, Text(v), Text(w));
      CanonicalExactly(v, w);
    }
  }

  datatype DetachedSignature =
    DetachedSignature(algorithm: Bytes, canonicalization: Bytes, publicKey: Bytes, signature: Bytes)

  datatype ContractError =
    | UnsupportedAlgorithm(name: Bytes)
    | UnsupportedCanonicalization(name: Bytes)
    | BadBase64
    | InvalidPublicKey
    | InvalidSignature

  /** The signature scheme and the text encoding of keys, left abstract. */
  datatype Scheme = Scheme(
    publicOf: Bytes -> Bytes,
    sign: (Bytes, Bytes) -> Bytes,
    isKey: Bytes -> bool,
    verify: (Bytes, Bytes, Bytes) -> bool,
    encode: Bytes -> Bytes,
    decode: Bytes -> Option<Bytes>)

  function SignJson(scheme: Scheme, v: Json, key: Bytes): DetachedSignature {
    DetachedSignature(ALGORITHM, CANONICALIZATION, scheme.encode(scheme.publicOf(key)),
                      scheme.encode(scheme.sign(key, Text(v))))
  }

  function VerifyJson(scheme: Scheme, v: Json, detached: DetachedSignature): Result<(), ContractError> {
    if detached.algorithm != ALGORITHM then Err(UnsupportedAlgorithm(detached.algorithm))
    else if detached.canonicalization != CANONICALIZATION
    then Err(UnsupportedCanonicalization(detached.canonicalization))
    else match scheme.decode(detached.publicKey)
      case None => Err(BadBase64)
      case Some(key) =>
        if |key| != 32 then Err(InvalidPublicKey)
        else match scheme.decode(detached.signature)
          case None => Err(BadBase64)
          case Some(signature) =>
            if |signature| != 64 then Err(InvalidSignature)
            else if !scheme.isKey(key) then Err(InvalidPublicKey)
            else if scheme.verify(key, Text(v), signature) then Ok(())
            else Err(InvalidSignature)
  }

  /** What an accepted signature is: the two names as the standard spells them, a key of 32 bytes,
      a signature of 64, and the scheme's consent for the canonical text. */
  lemma AcceptsExactly(scheme: Scheme, v: Json, detached: DetachedSignature)
    ensures VerifyJson(scheme, v, detached) == Ok(()) <==>
            && detached.algorithm == Ascii("ed25519") && detached.canonicalization == Ascii("oath-json-v1")
            && scheme.decode(detached.publicKey).Some? && scheme.decode(detached.signature).Some?
            && var key, signature := scheme.decode(detached.publicKey).value, scheme.decode(detached.signature).value;
               |key| == 32 && scheme.isKey(key) && |signature| == 64 && scheme.verify(key, Text(v), signature)
  {
    hide Text;
    NamesSpelledOut();
  }

  lemma NamesSpelledOut()
    ensures ALGORITHM == Ascii("ed25519") && CANONICALIZATION == Ascii("oath-json-v1")
    ensures DIGEST_PREFIX == Ascii("sha256:")
  {
    assert |Ascii("ed25519")| == 7 && |Ascii("oath-json-v1")| == 12 && |Ascii("sha256:")| == 7;
  }

  /** What is assumed of the scheme, for one key and a finite set of messages: encodings
      decode, widths are right, and a signature made for one of the messages verifies for
      that message and for no other of them. */
  ghost predicate Faithful(scheme: Scheme, key: Bytes, M: set<Bytes>) {
    && (forall b :: scheme.decode(scheme.encode(b)) == Some(b))
    && |scheme.publicOf(key)| == 32 && scheme.isKey(scheme.publicOf(key))
    && (forall m :: m in M ==> |scheme.sign(key, m)| == 64)
    && (forall m, n :: m in M && n in M ==>
          (scheme.verify(scheme.publicOf(key), n, scheme.sign(key, m)) <==> m == n))
  }

  /** A signature verifies for exactly the values that mean what was signed; any change of
      meaning is reported as an invalid signature. */
  lemma SignatureBindsMeaning(scheme: Scheme, v: Json, w: Json, key: Bytes)
    requires WellFormed(v) && WellFormed(w) && Faithful(scheme, key, {Text(v), Text(w)})
    ensures VerifyJson(scheme, w, SignJson(scheme, v, key)) ==
            if Denote(v) == Denote(w) then Ok(()) else Err(InvalidSignature)
  {
    hide Text, Denote, WellFormed;
    CanonicalExactly(v, w);
  }
}
