/** Signing and verifying manifests (registry/src/signing.ts), over an abstract signature scheme. */
module ManifestSigning {
  import opened Wrappers
  import opened Utf
  import opened CanonicalJson
  import opened CanonicalRead
  import opened CanonicalNormal
  import opened CanonicalEquality

  type Manifest = seq<Keyed<Json>>

  const SIGNATURE: Text := [0x73, 0x69, 0x67, 0x6E, 0x61, 0x74, 0x75, 0x72, 0x65]
  const SIGNATURE_B64: Text := SIGNATURE + [0x42, 0x36, 0x34]
  const SIGNED_BY: Text := [0x73, 0x69, 0x67, 0x6E, 0x65, 0x64, 0x42, 0x79]

  /** The provider: keys, fingerprints, and signatures already in base64. */
  datatype Scheme<!Priv, !Pub> = Scheme(
    publicOf: Priv -> Pub,
    ed25519: Pub -> bool,
    fingerprint: Pub -> Text,
    sign: (Priv, Bytes) -> Text,
    verifies: (Pub, Bytes, Text) -> bool)

  /** A signature made with a key verifies under that key's public half, for the signed bytes, and nothing else. */
  ghost predicate Ideal<Priv(!new), Pub(!new)>(s: Scheme<Priv, Pub>) {
    forall k: Priv, p: Pub, signed: Bytes, shown: Bytes ::
      s.verifies(p, shown, s.sign(k, signed)) <==> p == s.publicOf(k) && shown == signed
  }

  /** There are such schemes, so what is proved of them is proved of something. */
  lemma SomeSchemeIsIdeal() returns (s: Scheme<Unit, Unit>)
    ensures Ideal(s)
  {
    s := Scheme(
      k => k, _ => true, p => [p], (k, bytes: Bytes) => [k] + AsText(bytes),
      (p, bytes: Bytes, t) => t == [p] + AsText(bytes));
    forall k: Unit, p: Unit, signed: Bytes, shown: Bytes
      ensures s.verifies(p, shown, s.sign(k, signed)) <==> p == s.publicOf(k) && shown == signed
    {
      var t, t' := [k] + AsText(signed), [p] + AsText(shown);
      if t == t' {
        assert t[0] == k && t'[0] == p && t[1..] == AsText(signed) && t'[1..] == AsText(shown);
        AsTextInjective(signed, shown);
      }
    }
  }

  function AsText(bytes: Bytes): (t: Text)
    ensures |t| == |bytes| && forall i :: 0 <= i < |bytes| ==> t[i] == bytes[i]
  {
    seq(|bytes|, i requires 0 <= i < |bytes| => bytes[i])
  }

  lemma AsTextInjective(a: Bytes, b: Bytes)
    requires AsText(a) == AsText(b)
    ensures a == b
  {
    assert |a| == |b|;
    forall i | 0 <= i < |a|
      ensures a[i] == b[i]
    {
      assert AsText(a)[i] == AsText(b)[i];
    }
  }

  datatype Error = NotEd25519 | NoSignature | FingerprintMismatch | NotBase64 | BadSignature
  datatype Result<+T> = Ok(value: T) | Err(error: Error)
  datatype SignedManifest = SignedManifest(signatureB64: Text, signedBy: Text, canonicalBytes: Bytes)

  function Lookup(ms: seq<Keyed<Json>>, key: Text): Json {
    if ms == [] then Undefined else if ms[0].key == key then ms[0].val else Lookup(ms[1..], key)
  }

  function Field(v: Json, key: Text): Json {
    if v.Obj? then Lookup(v.members, key) else Undefined
  }

  /** The manifest without its top-level signature. */
  function Strip(m: Manifest): (r: Manifest) {
    if m == [] then []
    else if m[0].key == SIGNATURE then Strip(m[1..])
    else [m[0]] + Strip(m[1..])
  }

  function CanonicalManifestBytes(m: Manifest): Bytes {
    Utf8(Canonicalize(Obj(Strip(m))))
  }

  function SignManifest<Priv, Pub>(s: Scheme<Priv, Pub>, m: Manifest, key: Priv): (r: Result<SignedManifest>) {
    if !s.ed25519(s.publicOf(key)) then Err(NotEd25519)
    else
      var bytes := CanonicalManifestBytes(m);
      Ok(SignedManifest(s.sign(key, bytes), s.fingerprint(s.publicOf(key)), bytes))
  }

  function VerifyManifest<Priv, Pub>(s: Scheme<Priv, Pub>, bytes: Bytes, signature: Json, pub: Pub): (r: Result<bool>) {
    if !s.ed25519(pub) then Err(NotEd25519)
    else if Field(signature, SIGNED_BY) != Str(s.fingerprint(pub)) then Err(FingerprintMismatch)
    else if !Field(signature, SIGNATURE_B64).Str? then Err(NotBase64)
    else if !s.verifies(pub, bytes, Field(signature, SIGNATURE_B64).s) then Err(BadSignature)
    else Ok(true)
  }

  predicate Truthy(v: Json) {
    match v
    case Undefined => false
    case Null => false
    case Bool(b) => b
    case NonFinite(nan) => !nan
    case Num(t) => t != [0x30]
    case Str(s) => s != []
    case _ => true
  }

  function VerifyManifestInline<Priv, Pub>(s: Scheme<Priv, Pub>, m: Manifest, pub: Pub): (r: Result<bool>) {
    var signature := Lookup(m, SIGNATURE);
    if !Truthy(signature) then Err(NoSignature)
    else VerifyManifest(s, CanonicalManifestBytes(m), signature, pub)
  }

  /** `{ ...m, signature }`: the member is replaced where it stands, or added at the end. */
  function Attach(m: Manifest, signature: Json): (r: Manifest) {
    if m == [] then [Keyed(SIGNATURE, signature)]
    else if m[0].key == SIGNATURE then [Keyed(SIGNATURE, signature)] + m[1..]
    else [m[0]] + Attach(m[1..], signature)
  }

  function SignatureField(signed: SignedManifest): Json {
    Obj([Keyed(SIGNATURE_B64, Str(signed.signatureB64)), Keyed(SIGNED_BY, Str(signed.signedBy))])
  }

  // ----- What the signature covers -----

  lemma {:induction false} StripElements(m: Manifest, e: Keyed<Json>)
    ensures e in Strip(m) <==> e in m && e.key != SIGNATURE
  {
    if m != [] {
      StripElements(m[1..], e);
    }
  }

  lemma {:induction false} StripProper(m: Manifest)
    requires Proper(Obj(m))
    ensures Proper(Obj(Strip(m)))
  {
    if m != [] {
      assert Proper(Obj(m[1..])) by {
        assert forall i :: 0 <= i < |m[1..]| ==> m[1..][i] == m[i + 1];
      }
      StripProper(m[1..]);
      if m[0].key != SIGNATURE {
        var r := Strip(m[1..]);
        forall j | 0 <= j < |r|
          ensures m[0].key != r[j].key
        {
          StripElements(m[1..], r[j]);
        }
        var all := [m[0]] + r;
        assert forall i :: 1 <= i < |all| ==> all[i] == r[i - 1];
      }
    }
  }

  lemma {:induction false} AttachStrip(m: Manifest, signature: Json)
    requires DistinctKeys(m)
    ensures Strip(Attach(m, signature)) == Strip(m)
    ensures Lookup(Attach(m, signature), SIGNATURE) == signature
  {
    if m != [] {
      if m[0].key == SIGNATURE {
        assert ([Keyed(SIGNATURE, signature)] + m[1..])[1..] == m[1..];
      } else {
        AttachStrip(m[1..], signature);
        assert ([m[0]] + Attach(m[1..], signature))[1..] == Attach(m[1..], signature);
      }
    }
  }

  /** The signed bytes agree exactly when the manifests agree apart from their top-level signatures. */
  lemma SignedBytesExact(m: Manifest, m0: Manifest)
    requires Proper(Obj(m)) && Proper(Obj(m0))
    ensures CanonicalManifestBytes(m) == CanonicalManifestBytes(m0) <==> Same(Obj(Strip(m)), Obj(Strip(m0)))
  {
    StripProper(m);
    StripProper(m0);
    CanonicalBytesExact(Obj(Strip(m)), Obj(Strip(m0)));
  }

  /** The signed bytes are JSON in UTF-8 for the manifest without its signature, and nothing more. */
  lemma SignedBytesDenote(m: Manifest)
    ensures var text := DecodeUtf8(CanonicalManifestBytes(m));
            text.Some? && ReadValue(text.value) == Some((Normalize(Obj(Strip(m))), []))
  {
    PrintedWellFormed(Obj(Strip(m)));
    Utf8RoundTrip(Canonicalize(Obj(Strip(m))));
    CanonicalRoundTrip(Obj(Strip(m)));
  }

  lemma SignatureFields(signed: SignedManifest)
    ensures Field(SignatureField(signed), SIGNATURE_B64) == Str(signed.signatureB64)
    ensures Field(SignatureField(signed), SIGNED_BY) == Str(signed.signedBy)
  {
    var ms := SignatureField(signed).members;
    assert ms[0].key[4] != SIGNED_BY[4];
    assert Lookup(ms, SIGNED_BY) == Lookup(ms[1..], SIGNED_BY);
    assert ms[1..][0] == ms[1];
  }

  lemma AcceptedExact<Priv(!new), Pub(!new)>(
    s: Scheme<Priv, Pub>, bytes: Bytes, signature: Json, key: Priv, signed: Bytes, pub: Pub)
    requires Ideal(s) && s.ed25519(s.publicOf(key))
    requires Field(signature, SIGNATURE_B64) == Str(s.sign(key, signed))
    requires Field(signature, SIGNED_BY) == Str(s.fingerprint(s.publicOf(key)))
    ensures VerifyManifest(s, bytes, signature, pub).Ok? <==> pub == s.publicOf(key) && bytes == signed
  {
  }

  /** Every manifest can be signed with an Ed25519 key and none with another, and what signing returns verifies: the
      bytes, which are those of the manifest, under the signer's key and no other. */
  lemma SigningMeans<Priv(!new), Pub(!new)>(s: Scheme<Priv, Pub>, m: Manifest, key: Priv, pub: Pub)
    requires Ideal(s)
    ensures SignManifest(s, m, key) == Err(NotEd25519) <==> !s.ed25519(s.publicOf(key))
    ensures s.ed25519(s.publicOf(key)) ==>
              && SignManifest(s, m, key).Ok?
              && var signed := SignManifest(s, m, key).value;
              && signed.canonicalBytes == CanonicalManifestBytes(m)
              && (VerifyManifest(s, signed.canonicalBytes, SignatureField(signed), pub).Ok? <==>
                  pub == s.publicOf(key))
  {
    if s.ed25519(s.publicOf(key)) {
      var signed := SignManifest(s, m, key).value;
      SignatureFields(signed);
      AcceptedExact(s, signed.canonicalBytes, SignatureField(signed), key, signed.canonicalBytes, pub);
    }
  }

  // ----- What verification accepts, for every manifest -----

  lemma {:induction false} LookupIs(ms: seq<Keyed<Json>>, key: Text, v: Json)
    requires DistinctKeys(ms) && v != Undefined
    ensures Lookup(ms, key) == v <==> Keyed(key, v) in ms
  {
    if ms != [] {
      assert forall i :: 0 <= i < |ms[1..]| ==> ms[1..][i] == ms[i + 1];
      LookupIs(ms[1..], key, v);
      assert ms == [ms[0]] + ms[1..];
    }
  }

  lemma FieldNames()
    ensures SIGNATURE == Ascii("signature") && SIGNATURE_B64 == Ascii("signatureB64") && SIGNED_BY == Ascii("signedBy")
  {
  }

  /** The member `key` of `v` is the string `s`. */
  ghost predicate HasText(v: Json, key: Text, s: Text) { v.Obj? && Keyed(key, Str(s)) in v.members }

  lemma FieldIsText(v: Json, key: Text, s: Text)
    requires Proper(v)
    ensures Field(v, key) == Str(s) <==> HasText(v, key, s)
  {
    if v.Obj? {
      LookupIs(v.members, key, Str(s));
    }
  }

  ghost predicate SignedText<Priv(!new), Pub(!new)>(
    s: Scheme<Priv, Pub>, bytes: Bytes, signature: Json, pub: Pub, text: Text)
  {
    HasText(signature, Ascii("signatureB64"), text) && s.verifies(pub, bytes, text)
  }

  /** Each verdict by what the signature holds, the first that applies. */
  lemma VerdictMeans<Priv(!new), Pub(!new)>(s: Scheme<Priv, Pub>, bytes: Bytes, signature: Json, pub: Pub)
    requires Proper(signature)
    ensures var verdict := VerifyManifest(s, bytes, signature, pub);
            && (verdict == Err(NotEd25519) <==> !s.ed25519(pub))
            && (verdict == Err(FingerprintMismatch) <==>
                s.ed25519(pub) && !HasText(signature, Ascii("signedBy"), s.fingerprint(pub)))
            && (verdict == Err(NotBase64) ==> forall text :: !HasText(signature, Ascii("signatureB64"), text))
            && (verdict == Err(BadSignature) ==>
                  && (exists text :: HasText(signature, Ascii("signatureB64"), text))
                  && (forall text :: !SignedText(s, bytes, signature, pub, text)))
            && (verdict.Ok? <==>
                && s.ed25519(pub) && HasText(signature, Ascii("signedBy"), s.fingerprint(pub))
                && exists text :: SignedText(s, bytes, signature, pub, text))
            && verdict in {Err(NotEd25519), Err(FingerprintMismatch), Err(NotBase64), Err(BadSignature), Ok(true)}
  {
    FieldNames();
    FieldIsText(signature, SIGNED_BY, s.fingerprint(pub));
    var field := Field(signature, SIGNATURE_B64);
    if field.Str? {
      FieldIsText(signature, SIGNATURE_B64, field.s);
      assert s.verifies(pub, bytes, field.s) ==> SignedText(s, bytes, signature, pub, field.s);
    }
    forall text | HasText(signature, Ascii("signatureB64"), text)
      ensures field == Str(text)
    {
      FieldIsText(signature, SIGNATURE_B64, text);
    }
  }

  /** `m` has a member `signature` with this value. */
  ghost predicate Bears(m: Manifest, signature: Json) { Keyed(Ascii("signature"), signature) in m }

  /** The values JavaScript takes for false. */
  predicate IsFalsy(v: Json) {
    v in {Undefined, Null, Bool(false), NonFinite(true), Num(Ascii("0")), Str(Ascii(""))}
  }

  lemma TruthyMeans(v: Json)
    ensures Truthy(v) <==> !IsFalsy(v)
  {
    assert Ascii("0") == [0x30] && Ascii("") == [];
  }

  lemma BornSignature(m: Manifest)
    requires Proper(Obj(m))
    ensures var v := Lookup(m, SIGNATURE);
            && (v != Undefined ==> Bears(m, v) && Proper(v))
            && (forall w :: Bears(m, w) && w != Undefined ==> w == v)
  {
    FieldNames();
    var v := Lookup(m, SIGNATURE);
    if v != Undefined {
      LookupIs(m, SIGNATURE, v);
      var i :| 0 <= i < |m| && m[i] == Keyed(SIGNATURE, v);
      assert Proper(m[i].val);
    }
    forall w | Bears(m, w) && w != Undefined
      ensures w == v
    {
      LookupIs(m, SIGNATURE, w);
    }
  }

  /** What an accepted manifest bears: a signature that names the key and verifies for everything else in it. */
  ghost predicate Vouches<Priv(!new), Pub(!new)>(s: Scheme<Priv, Pub>, m: Manifest, pub: Pub, signature: Json) {
    && Bears(m, signature) && HasText(signature, Ascii("signedBy"), s.fingerprint(pub))
    && exists text :: SignedText(s, CanonicalManifestBytes(m), signature, pub, text)
  }

  /** For every manifest: it is accepted exactly when the key is an Ed25519 key and the manifest bears a signature that
      vouches for it; and it counts as unsigned exactly when it bears no signature but a falsy one. */
  lemma VerificationMeans<Priv(!new), Pub(!new)>(s: Scheme<Priv, Pub>, m: Manifest, pub: Pub)
    requires Proper(Obj(m))
    ensures VerifyManifestInline(s, m, pub).Ok? <==>
            s.ed25519(pub) && exists signature :: Vouches(s, m, pub, signature)
    ensures VerifyManifestInline(s, m, pub) == Err(NoSignature) <==>
            forall signature :: Bears(m, signature) ==> IsFalsy(signature)
  {
    var v := Lookup(m, SIGNATURE);
    BornSignature(m);
    TruthyMeans(v);
    if v != Undefined {
      VerdictMeans(s, CanonicalManifestBytes(m), v, pub);
      assert Bears(m, v);
    }
    if VerifyManifestInline(s, m, pub).Ok? {
      assert Vouches(s, m, pub, v);
    }
    forall signature | Vouches(s, m, pub, signature)
      ensures signature == v && Truthy(v)
    {
    }
  }

  /** A signature made for `m0` and attached to `m` verifies exactly when the key is the signer's and `m` is `m0`
      apart from the top-level signature; a key with another fingerprint is told apart before any verification. */
  lemma InlineVerificationExact<Priv(!new), Pub(!new)>(
    s: Scheme<Priv, Pub>, m0: Manifest, key: Priv, m: Manifest, pub: Pub)
    requires Ideal(s) && Proper(Obj(m)) && Proper(Obj(m0)) && SignManifest(s, m0, key).Ok?
    ensures var shown := Attach(m, SignatureField(SignManifest(s, m0, key).value));
            && (VerifyManifestInline(s, shown, pub).Ok? <==>
                pub == s.publicOf(key) && Same(Obj(Strip(m)), Obj(Strip(m0))))
            && (s.ed25519(pub) && s.fingerprint(pub) != s.fingerprint(s.publicOf(key)) ==>
                  VerifyManifestInline(s, shown, pub) == Err(FingerprintMismatch))
  {
    var signed := SignManifest(s, m0, key).value;
    var field := SignatureField(signed);
    AttachStrip(m, field);
    SignatureFields(signed);
    SignedBytesExact(m, m0);
    assert CanonicalManifestBytes(Attach(m, field)) == CanonicalManifestBytes(m);
    AcceptedExact(s, CanonicalManifestBytes(m), field, key, CanonicalManifestBytes(m0), pub);
  }
}
