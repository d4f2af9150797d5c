/** The author key registry of propagate/keystore.py: a map from author id to
    an Ed25519 key, with the signing primitive left uninterpreted. */
module Keys {
  import opened Base

  /** An elliptic-curve key as pycryptodome's `EccKey` presents it: the name
      of its curve and its key material, which the model never looks into. */
  datatype EccKey = EccKey(curve: string, material: Bytes)

  /** The Ed25519 primitive (section 5.1 of RFC 8032, the "rfc8032" mode),
      uninterpreted: `sign` is the signature it makes, `verify` whether it
      accepts a signature (false where it raises ValueError because the
      signature is not authentic). */
  datatype Ed25519 = Ed25519(sign: (EccKey, Bytes) -> Bytes, verify: (EccKey, Bytes, Bytes) -> bool)

  const Ed25519Curve := "Ed25519"

  /** What RFC 8032 promises of the primitive and the lemmas rely on:
      signatures are 64 bytes long, and a signature made with an Ed25519 key
      verifies under that key. */
  ghost predicate Conforms(ed: Ed25519) {
    && (forall k: EccKey, d: Bytes :: |ed.sign(k, d)| == 64)
    && (forall k: EccKey, d: Bytes :: k.curve == Ed25519Curve ==> ed.verify(k, d, ed.sign(k, d)))
  }

  datatype KeystoreError =
    | InvalidKeyKind(curve: string)  // ValueError from add_key
    | UnknownAuthor(authorId: Text)  // KeyError from the lookup in sign and verify

  class Keystore {
    /** `_keys`: author id to key. */
    var keys: map<Text, EccKey>

    /** Every registered key is an Ed25519 key. */
    ghost predicate Valid()
      reads this
    {
      forall a :: a in keys ==> keys[a].curve == Ed25519Curve
    }

    constructor ()
      ensures Valid() && keys == map[]
    {
      keys := map[];
    }

    /** Registers `key` for `authorId`, replacing any earlier key; a key on
        another curve is refused and nothing changes. */
    method AddKey(authorId: Text, key: EccKey) returns (r: Option<KeystoreError>)
      requires Valid()
      modifies this
      ensures Valid()
      ensures r == (if key.curve == Ed25519Curve then None else Some(InvalidKeyKind(key.curve)))
      ensures r.None? ==> keys == old(keys)[authorId := key]
      ensures r.Some? ==> keys == old(keys)
    {
      if key.curve != Ed25519Curve {
        return Some(InvalidKeyKind(key.curve));
      }
      keys := keys[authorId := key];
      r := None;
    }

    /** Signs `data` with the key of `authorId`. */
    function Sign(authorId: Text, data: Bytes, ed: Ed25519): (r: Result<Bytes, KeystoreError>)
      reads this
      ensures r.Ok? <==> authorId in keys
      ensures r.Err? ==> r.error == UnknownAuthor(authorId)
      ensures r.Ok? ==> r.value == ed.sign(keys[authorId], data)
    {
      if authorId in keys then Ok(ed.sign(keys[authorId], data)) else Err(UnknownAuthor(authorId))
    }

    /** Checks `signature` over `data` against the key of `authorId`; an
        inauthentic signature is the answer false, not an error. */
    function Verify(authorId: Text, data: Bytes, signature: Bytes, ed: Ed25519): (r: Result<bool, KeystoreError>)
      reads this
      ensures r.Ok? <==> authorId in keys
      ensures r.Err? ==> r.error == UnknownAuthor(authorId)
      ensures r.Ok? ==> (r.value <==> ed.verify(keys[authorId], data, signature))
    {
      if authorId in keys then Ok(ed.verify(keys[authorId], data, signature)) else Err(UnknownAuthor(authorId))
    }
  }

  /** What `sign` produces, `verify` accepts, for every registered author. */
  lemma SignThenVerify(ks: Keystore, authorId: Text, data: Bytes, ed: Ed25519)
    requires ks.Valid() && Conforms(ed) && authorId in ks.keys
    ensures ks.Sign(authorId, data, ed).Ok?
    ensures ks.Verify(authorId, data, ks.Sign(authorId, data, ed).value, ed) == Ok(true)
  {
  }
}
