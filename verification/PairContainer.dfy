/** The PKCS8 container of a key pair and its encryption: lib/keyring/pair.dart (decodePkcs8,
    decodePair, encodePair) with the scrypt header of lib/util_crypto/scrypt.dart. */
module PairContainer {
  import opened Basics
  import opened Numbers

  const PKCS8_DIVIDER: bytes := [161, 35, 3, 33, 0]
  const PKCS8_HEADER: bytes := [48, 83, 2, 1, 1, 48, 5, 6, 3, 43, 101, 112, 4, 34, 4, 32]
  const NONCE_LENGTH: nat := 24
  const PUB_LENGTH: nat := 32
  const SALT_LENGTH: nat := 32
  const SEC_LENGTH: nat := 64
  const SEED_LENGTH: nat := 32
  const SCRYPT_LENGTH: nat := 44
  const SEED_OFFSET: nat := 16
  const SCRYPT: string := "scrypt"
  const BOX: string := "xsalsa20-poly1305"
  const ENCODING: seq<string> := [SCRYPT, BOX]

  datatype ScryptParams = ScryptParams(n: nat, p: nat, r: nat)

  const DEFAULT_PARAMS: ScryptParams := ScryptParams(32768, 1, 8)

  /** The cryptographic calls the container is built from; box arguments are message or
      ciphertext, nonce and key. */
  datatype Primitives = Primitives(
    scrypt: (string, bytes, ScryptParams) -> bytes,
    seal: (bytes, bytes, bytes) -> bytes,
    open: (bytes, bytes, bytes) -> Option<bytes>,
    text: string -> bytes)
  {
    /** Opening undoes sealing and scrypt gives at least the 32 bytes of a box key. */
    ghost predicate Faithful() {
      && (forall m, n, k :: open(seal(m, n, k), n, k) == Some(m))
      && (forall s, t, q :: |scrypt(s, t, q)| >= 32)
    }

    /** The box is authenticated: with another key it opens to nothing or to the sealed message. */
    ghost predicate Authentic() {
      forall m, n, k, k' :: open(seal(m, n, k), n, k') == None || open(seal(m, n, k), n, k') == Some(m)
    }
  }

  // ----- plain container -----

  function EncodePkcs8(secretKey: bytes, publicKey: bytes): bytes {
    PKCS8_HEADER + secretKey + PKCS8_DIVIDER + publicKey
  }

  function DecodePkcs8(encoded: bytes): Result<Keys> {
    var header :- Sublist(encoded, 0, |PKCS8_HEADER|);
    if header != PKCS8_HEADER then Err("Invalid Pkcs8 header found in body")
    else
      var secretKey :- Sublist(encoded, SEED_OFFSET, SEED_OFFSET + SEC_LENGTH);
      var newOffset := SEED_OFFSET + SEC_LENGTH;
      var divider :- Sublist(encoded, newOffset, newOffset + |PKCS8_DIVIDER|);
      if divider == PKCS8_DIVIDER then KeysAt(encoded, secretKey, newOffset)
      else
        // old style: a seed instead of a secret key
        var oldOffset := SEED_OFFSET + SEED_LENGTH;
        var seed :- Sublist(encoded, SEED_OFFSET, oldOffset);
        var oldDivider :- Sublist(encoded, oldOffset, oldOffset + |PKCS8_DIVIDER|);
        if oldDivider == PKCS8_DIVIDER then KeysAt(encoded, seed, oldOffset)
        else Err("Invalid Pkcs8 divider found in body")
  }

  function KeysAt(encoded: bytes, secretKey: bytes, divOffset: nat): Result<Keys> {
    var pubOffset := divOffset + |PKCS8_DIVIDER|;
    var publicKey :- Sublist(encoded, pubOffset, pubOffset + PUB_LENGTH);
    Ok(Keys(publicKey, secretKey))
  }

  /** With a 64-byte secret the container always parses back, to the first 32 bytes of the public key. */
  lemma Pkcs8RoundTrip(secretKey: bytes, publicKey: bytes)
    requires |secretKey| == SEC_LENGTH
    ensures DecodePkcs8(EncodePkcs8(secretKey, publicKey))
         == if |publicKey| >= PUB_LENGTH then Ok(Keys(publicKey[..PUB_LENGTH], secretKey)) else Err("RangeError")
  {
    var e := EncodePkcs8(secretKey, publicKey);
    assert e[0..16] == PKCS8_HEADER;
    assert e[16..80] == secretKey;
    assert e[80..85] == PKCS8_DIVIDER;
    if |publicKey| >= PUB_LENGTH {
      assert e[85..117] == publicKey[..PUB_LENGTH];
    }
  }

  /** With a 32-byte secret the first 32 bytes of the public key come back exactly when its bytes 27 to
      31 differ from the divider. Otherwise they are taken for the divider of the longer format, and
      the container is rejected, or misread if the public key reaches far enough. */
  lemma SeedContainerExact(seed: bytes, publicKey: bytes)
    requires |seed| == SEED_LENGTH
    ensures DecodePkcs8(EncodePkcs8(seed, publicKey))
         == if |publicKey| < PUB_LENGTH then Err("RangeError")
            else if publicKey[27..32] != PKCS8_DIVIDER then Ok(Keys(publicKey[..PUB_LENGTH], seed))
            else if |publicKey| < 64 then Err("RangeError")
            else Ok(Keys(publicKey[32..64], seed + PKCS8_DIVIDER + publicKey[..27]))
  {
    var e := EncodePkcs8(seed, publicKey);
    assert e[0..16] == PKCS8_HEADER;
    if |publicKey| >= PUB_LENGTH {
      assert e[80..85] == publicKey[27..32];
      assert e[16..48] == seed;
      assert e[48..53] == PKCS8_DIVIDER;
      assert e[53..85] == publicKey[..PUB_LENGTH];
      assert e[16..80] == seed + PKCS8_DIVIDER + publicKey[..27];
      if |publicKey| >= 64 {
        assert e[85..117] == publicKey[32..64];
      }
    }
  }

  /** Such a public key of 33 bytes: the pair is sealed into a container that nothing reads. */
  lemma DividerInKey()
    ensures DecodePkcs8(EncodePkcs8(Repeat(1, 32), Repeat(2, 27) + PKCS8_DIVIDER + [0])).Err?
  {
    var publicKey: bytes := Repeat(2, 27) + PKCS8_DIVIDER + [0];
    assert publicKey[27..32] == PKCS8_DIVIDER;
    SeedContainerExact(Repeat(1, 32), publicKey);
  }

  /** What a plain container holds: it begins with the encoding of a 64-byte secret, or of a 32-byte one when it
      does not read as the other, and a public key of 32 bytes. Anything may follow. */
  predicate Holds(c: bytes, keys: Keys) {
    && |keys.publicKey| == 32
    && EncodePkcs8(keys.secretKey, keys.publicKey) <= c
    && (|keys.secretKey| == 64 || (|keys.secretKey| == 32 && c[80..85] != PKCS8_DIVIDER))
  }

  /** The parser accepts exactly the containers that hold a pair, and answers it. */
  lemma Pkcs8Exact(c: bytes, keys: Keys)
    ensures DecodePkcs8(c) == Ok(keys) <==> Holds(c, keys)
  {
    if Holds(c, keys) {
      HeldIsRead(c, keys);
    }
    if DecodePkcs8(c) == Ok(keys) {
      var n := if c[80..85] == PKCS8_DIVIDER then 64 else 32;
      var e := EncodePkcs8(keys.secretKey, keys.publicKey);
      assert c[..53 + n] == c[..16] + c[16..16 + n] + c[16 + n..21 + n] + c[21 + n..53 + n];
      assert e == c[..53 + n];
    }
  }

  lemma HeldIsRead(c: bytes, keys: Keys)
    requires Holds(c, keys)
    ensures DecodePkcs8(c) == Ok(keys)
  {
    var n := |keys.secretKey|;
    var e := EncodePkcs8(keys.secretKey, keys.publicKey);
    assert forall i, j :: 0 <= i <= j <= |e| ==> c[i..j] == e[i..j];
    assert e[0..16] == PKCS8_HEADER;
    assert e[16..16 + n] == keys.secretKey;
    assert e[16 + n..21 + n] == PKCS8_DIVIDER;
    assert e[21 + n..53 + n] == keys.publicKey;
  }

  // ----- scrypt header and box -----

  /** `u8aFixLength` of lib/utils/u8a.dart for a given number of bits. */
  function FixLength(value: bytes, bitLength: nat, atStart: bool): (r: bytes)
    ensures |r| == (bitLength + 7) / 8
  {
    var byteLength := (bitLength + 7) / 8;
    if |value| == byteLength then value
    else if |value| > byteLength then value[..byteLength]
    else if atStart then value + Repeat(0, byteLength - |value|)
    else Repeat(0, byteLength - |value|) + value
  }

  function ScryptToU8a(salt: bytes, params: ScryptParams): bytes {
    salt + BytesLE(params.n, 4) + BytesLE(params.p, 4) + BytesLE(params.r, 4)
  }

  datatype ScryptHeader = ScryptHeader(salt: bytes, params: ScryptParams)

  function ScryptFromU8a(data: bytes): Result<ScryptHeader> {
    var salt :- Sublist(data, 0, 32);
    var n :- Sublist(data, 32 + 0, 32 + 4);
    var p :- Sublist(data, 32 + 4, 32 + 8);
    var r :- Sublist(data, 32 + 8, 32 + 12);
    var params := ScryptParams(ValueLE(n), ValueLE(p), ValueLE(r));
    if params == DEFAULT_PARAMS then Ok(ScryptHeader(salt, params)) else Err("Invalid injected scrypt params found")
  }

  function EncodePair(pr: Primitives, secretKey: Option<bytes>, publicKey: bytes, passphrase: Option<string>,
                      salt: bytes, nonce: bytes): Result<bytes>
  {
    if secretKey.None? then Err("Expected a valid secretKey to be passed to encode")
    else
      var encoded := EncodePkcs8(secretKey.value, publicKey);
      if passphrase.None? then Ok(encoded)
      else
        var password := pr.scrypt(passphrase.value, salt, DEFAULT_PARAMS);
        var key :- Sublist(password, 0, 32);
        Ok(ScryptToU8a(salt, DEFAULT_PARAMS) + nonce + pr.seal(encoded, nonce, key))
  }

  function DecodePair(pr: Primitives, passphrase: Option<string>, encrypted: Option<bytes>,
                      encType: Option<seq<string>>): Result<Keys>
  {
    if encrypted.None? then Err("No encrypted data available to decode")
    else if passphrase.None? && (encType.None? || BOX in encType.value) then Err("Password required to decode encrypted data")
    else if passphrase.None? then DecodePkcs8(encrypted.value)
    else
      var types := if encType.Some? then encType.value else ENCODING;
      var plain :-
        if SCRYPT in types then OpenWithScrypt(pr, passphrase.value, encrypted.value)
        else OpenBox(pr, pr.text(passphrase.value), encrypted.value);
      DecodePkcs8(plain)
  }

  function OpenWithScrypt(pr: Primitives, passphrase: string, encrypted: bytes): Result<bytes> {
    var header :- ScryptFromU8a(encrypted);
    var body :- Sublist(encrypted, SCRYPT_LENGTH, |encrypted|);
    OpenBox(pr, pr.scrypt(passphrase, header.salt, header.params), body)
  }

  function OpenBox(pr: Primitives, password: bytes, body: bytes): Result<bytes> {
    var nonce :- Sublist(body, 0, NONCE_LENGTH);
    var cipher :- Sublist(body, NONCE_LENGTH, |body|);
    match pr.open(cipher, nonce, FixLength(password, 256, true))
    case Some(encoded) => Ok(encoded)
    case None => Err("Unable to decode using the supplied passphrase")
  }

  lemma DefaultParamsSurvive()
    ensures ValueLE(BytesLE(DEFAULT_PARAMS.n, 4)) == DEFAULT_PARAMS.n
    ensures ValueLE(BytesLE(DEFAULT_PARAMS.p, 4)) == DEFAULT_PARAMS.p
    ensures ValueLE(BytesLE(DEFAULT_PARAMS.r, 4)) == DEFAULT_PARAMS.r
  {
    assert Pow(256, 4) == 0x1_0000_0000 by {
      assert Pow(256, 1) == 256 * Pow(256, 0) && Pow(256, 2) == 256 * Pow(256, 1) && Pow(256, 3) == 256 * Pow(256, 2);
    }
    NumberRoundTrip(DEFAULT_PARAMS.n, 4, Little);
    NumberRoundTrip(DEFAULT_PARAMS.p, 4, Little);
    NumberRoundTrip(DEFAULT_PARAMS.r, 4, Little);
  }

  /** The 44-byte header reads back as the salt and the default parameters, whatever follows it. */
  lemma ScryptHeaderRoundTrip(salt: bytes, t: bytes)
    requires |salt| == SALT_LENGTH
    ensures |ScryptToU8a(salt, DEFAULT_PARAMS)| == SCRYPT_LENGTH
    ensures ScryptFromU8a(ScryptToU8a(salt, DEFAULT_PARAMS) + t) == Ok(ScryptHeader(salt, DEFAULT_PARAMS))
  {
    hide BytesLE, ValueLE;
    DefaultParamsSurvive();
    var d := ScryptToU8a(salt, DEFAULT_PARAMS) + t;
    assert d[0..32] == salt;
    assert d[32..36] == BytesLE(DEFAULT_PARAMS.n, 4);
    assert d[36..40] == BytesLE(DEFAULT_PARAMS.p, 4);
    assert d[40..44] == BytesLE(DEFAULT_PARAMS.r, 4);
  }

  /** What the decoder opens: the salt and nonce are found again, so with any passphrase it opens the
      sealed bytes under the first 32 bytes of the scrypt output. */
  lemma OpenSealed(pr: Primitives, passphrase: string, salt: bytes, nonce: bytes, cipher: bytes)
    requires pr.Faithful() && |salt| == SALT_LENGTH && |nonce| == NONCE_LENGTH
    ensures var key := pr.scrypt(passphrase, salt, DEFAULT_PARAMS)[..32];
            OpenWithScrypt(pr, passphrase, ScryptToU8a(salt, DEFAULT_PARAMS) + nonce + cipher)
            == match pr.open(cipher, nonce, key)
               case Some(encoded) => Ok(encoded)
               case None => Err("Unable to decode using the supplied passphrase")
  {
    hide ScryptFromU8a, ScryptToU8a;
    var head := ScryptToU8a(salt, DEFAULT_PARAMS);
    var all := head + nonce + cipher;
    ScryptHeaderRoundTrip(salt, nonce + cipher);
    assert all == head + (nonce + cipher);
    assert all[SCRYPT_LENGTH..|all|] == nonce + cipher;
    assert (nonce + cipher)[0..NONCE_LENGTH] == nonce;
    assert (nonce + cipher)[NONCE_LENGTH..|nonce + cipher|] == cipher;
    var password := pr.scrypt(passphrase, salt, DEFAULT_PARAMS);
    assert |password| == 32 ==> password[..32] == password;
  }

  /** The types under which a passphrase goes through scrypt; null stands for the default types. */
  predicate UsesScrypt(encType: Option<seq<string>>) {
    encType.None? || SCRYPT in encType.value
  }

  /** Encryption adds nothing to the plain container and takes nothing from it: decrypting with the
      passphrase that was used answers what the plain container does, and with an authenticated box
      no other passphrase gives anything else. */
  lemma ContainerRoundTrip(pr: Primitives, secretKey: bytes, publicKey: bytes, passphrase: string, salt: bytes,
                           nonce: bytes, encType: Option<seq<string>>, other: string)
    requires pr.Faithful() && |salt| == SALT_LENGTH && |nonce| == NONCE_LENGTH && UsesScrypt(encType)
    ensures var c := EncodePair(pr, Some(secretKey), publicKey, Some(passphrase), salt, nonce);
            var plain := DecodePkcs8(EncodePkcs8(secretKey, publicKey));
            && c.Ok?
            && DecodePair(pr, Some(passphrase), Some(c.value), encType) == plain
            && (pr.Authentic() ==>
                  DecodePair(pr, Some(other), Some(c.value), encType).Err?
                  || DecodePair(pr, Some(other), Some(c.value), encType) == plain)
  {
    hide ScryptToU8a, EncodePkcs8, DecodePkcs8, OpenWithScrypt;
    var encoded := EncodePkcs8(secretKey, publicKey);
    var password := pr.scrypt(passphrase, salt, DEFAULT_PARAMS);
    assert password[0..32] == password[..32];
    var cipher := pr.seal(encoded, nonce, password[..32]);
    OpenSealed(pr, passphrase, salt, nonce, cipher);
    OpenSealed(pr, other, salt, nonce, cipher);
  }

  /** The encrypted container gives back the pair it was made from: always for a 64-byte secret with a
      32-byte public key, and for a 32-byte secret with a public key of at least 32 bytes, of which
      32 come back, when bytes 27 to 31 of that key differ from the divider. */
  lemma PairRoundTrip(pr: Primitives, keys: Keys, passphrase: string, salt: bytes, nonce: bytes,
                      encType: Option<seq<string>>)
    requires pr.Faithful() && |salt| == SALT_LENGTH && |nonce| == NONCE_LENGTH && UsesScrypt(encType)
    requires |keys.secretKey| == SEC_LENGTH || |keys.secretKey| == SEED_LENGTH
    requires PUB_LENGTH <= |keys.publicKey| < 64
    ensures var c := EncodePair(pr, Some(keys.secretKey), keys.publicKey, Some(passphrase), salt, nonce);
            && c.Ok?
            && DecodePair(pr, Some(passphrase), Some(c.value), encType)
            == if |keys.secretKey| == SEC_LENGTH || keys.publicKey[27..32] != PKCS8_DIVIDER
               then Ok(Keys(keys.publicKey[..PUB_LENGTH], keys.secretKey)) else Err("RangeError")
  {
    hide EncodePair, DecodePair, EncodePkcs8, DecodePkcs8;
    ContainerRoundTrip(pr, keys.secretKey, keys.publicKey, passphrase, salt, nonce, encType, passphrase);
    if |keys.secretKey| == SEC_LENGTH {
      Pkcs8RoundTrip(keys.secretKey, keys.publicKey);
    } else {
      SeedContainerExact(keys.secretKey, keys.publicKey);
    }
  }

  /** Without scrypt the box is opened with the bytes of the password itself, cut to 32 or followed by zeros
      up to 32: from the nonce and the sealed container decoding answers what the plain container does,
      and with an authenticated box no other passphrase gives anything else. */
  lemma PasswordRoundTrip(pr: Primitives, secretKey: bytes, publicKey: bytes, passphrase: string, nonce: bytes,
                          encType: seq<string>, other: string)
    requires pr.Faithful() && |nonce| == NONCE_LENGTH && SCRYPT !in encType
    ensures var t := pr.text(passphrase);
            var key := if |t| >= 32 then t[..32] else t + Repeat(0, 32 - |t|);
            var plain := EncodePkcs8(secretKey, publicKey);
            var c := nonce + pr.seal(plain, nonce, key);
            && DecodePair(pr, Some(passphrase), Some(c), Some(encType)) == DecodePkcs8(plain)
            && (pr.Authentic() ==>
                  DecodePair(pr, Some(other), Some(c), Some(encType)).Err?
                  || DecodePair(pr, Some(other), Some(c), Some(encType)) == DecodePkcs8(plain))
  {
    hide EncodePkcs8, DecodePkcs8;
    var t := pr.text(passphrase);
    var key := if |t| >= 32 then t[..32] else t + Repeat(0, 32 - |t|);
    FixLengthAtStart(t, 32);
    var sealed := pr.seal(EncodePkcs8(secretKey, publicKey), nonce, key);
    var c := nonce + sealed;
    assert c[0..NONCE_LENGTH] == nonce && c[NONCE_LENGTH..|c|] == sealed;
  }

  /** At the start the value is kept and zeros follow; at the end zeros come first. A longer value is cut. */
  lemma FixLengthAtStart(value: bytes, n: nat)
    ensures FixLength(value, 8 * n, true) == if |value| >= n then value[..n] else value + Repeat(0, n - |value|)
    ensures FixLength(value, 8 * n, false) == if |value| >= n then value[..n] else Repeat(0, n - |value|) + value
  {
    assert (8 * n + 7) / 8 == n;
    assert |value| == n ==> value[..n] == value;
  }

  /** So padding does not change the number a byte list stands for, in the byte order it is meant for. */
  lemma {:induction false} FixLengthKeepsValue(value: bytes, n: nat)
    requires |value| <= n
    ensures ValueLE(FixLength(value, 8 * n, true)) == ValueLE(value)
    ensures Value(FixLength(value, 8 * n, false), Big) == Value(value, Big)
  {
    hide ValueLE;
    FixLengthAtStart(value, n);
    assert |value| == n ==> value[..n] == value && value + [] == value;
    var zeros: bytes := Repeat(0, n - |value|);
    ZerosAfter(value, n - |value|);
    ZerosAfter(Reverse(value), n - |value|);
    assert Reverse(zeros + value) == Reverse(value) + zeros;
  }

  /** Which encrypted containers open with a passphrase, and to what: after the scrypt header, whose parameters
      must be 32768, 1 and 8, or at the start when there is no scrypt, 24 bytes of nonce and a box that
      opens to a container holding the pair, under the first 32 bytes of the scrypt or of the password. */
  lemma OpenExact(pr: Primitives, passphrase: string, c: bytes, encType: Option<seq<string>>, keys: Keys)
    ensures DecodePair(pr, Some(passphrase), Some(c), encType) == Ok(keys) <==>
              var at := if UsesScrypt(encType) then 44 else 0;
              && |c| >= at + 24
              && (UsesScrypt(encType) ==>
                    ValueLE(c[32..36]) == 32768 && ValueLE(c[36..40]) == 1 && ValueLE(c[40..44]) == 8)
              && var password := if UsesScrypt(encType) then pr.scrypt(passphrase, c[..32], ScryptParams(32768, 1, 8))
                                 else pr.text(passphrase);
                 var key := if |password| >= 32 then password[..32] else password + Repeat(0, 32 - |password|);
                 var plain := pr.open(c[at + 24..], c[at..at + 24], key);
                 plain.Some? && Holds(plain.value, keys)
  {
    hide ValueLE, DecodePkcs8, Holds, FixLength;
    if UsesScrypt(encType) && |c| >= 68 {
      var password := pr.scrypt(passphrase, c[..32], DEFAULT_PARAMS);
      FixLengthAtStart(password, 32);
      assert c[0..32] == c[..32];
      var body := c[44..|c|];
      assert c[44..|c|] == c[44..];
      assert body[..24] == c[44..68];
      assert body[24..] == c[68..];
      ScryptOpens(pr, passphrase, c);
      BoxHolds(pr, password, body, keys);
    } else if !UsesScrypt(encType) {
      FixLengthAtStart(pr.text(passphrase), 32);
      BoxHolds(pr, pr.text(passphrase), c, keys);
    }
  }

  lemma ScryptOpens(pr: Primitives, passphrase: string, c: bytes)
    requires |c| >= 44
    ensures OpenWithScrypt(pr, passphrase, c)
         == if ValueLE(c[32..36]) == 32768 && ValueLE(c[36..40]) == 1 && ValueLE(c[40..44]) == 8
            then OpenBox(pr, pr.scrypt(passphrase, c[..32], DEFAULT_PARAMS), c[44..|c|])
            else Err("Invalid injected scrypt params found")
  {
    hide ValueLE, OpenBox;
    assert c[0..32] == c[..32];
  }

  lemma BoxHolds(pr: Primitives, password: bytes, body: bytes, keys: Keys)
    ensures OpenBox(pr, password, body).Ok? && DecodePkcs8(OpenBox(pr, password, body).value) == Ok(keys) <==>
              && |body| >= 24
              && var plain := pr.open(body[24..], body[..24], FixLength(password, 256, true));
                 plain.Some? && Holds(plain.value, keys)
  {
    hide DecodePkcs8, Holds, FixLength;
    if OpenBox(pr, password, body).Ok? {
      Pkcs8Exact(OpenBox(pr, password, body).value, keys);
    }
    if |body| >= 24 {
      assert body[24..|body|] == body[24..] && body[0..24] == body[..24];
    }
  }

  /** Without a passphrase nothing is decrypted: the default types and all that name the box are refused,
      and under the others the container is read as it is. */
  lemma NoPassphraseExact(pr: Primitives, c: bytes, encType: Option<seq<string>>)
    ensures DecodePair(pr, None, Some(c), encType)
         == if encType.Some? && BOX !in encType.value then DecodePkcs8(c)
            else Err("Password required to decode encrypted data")
  {
    hide DecodePkcs8;
  }

  /** The bytes of a container, read one after the other: a 16-byte header, the secret, the divider and
      the public key. */
  ghost predicate PlainLayout(c: bytes, secretKey: bytes, publicKey: bytes) {
    && |c| == 16 + |secretKey| + 5 + |publicKey|
    && c[..16] == [48, 83, 2, 1, 1, 48, 5, 6, 3, 43, 101, 112, 4, 34, 4, 32]
    && c[16..16 + |secretKey|] == secretKey
    && c[16 + |secretKey|..21 + |secretKey|] == [161, 35, 3, 33, 0]
    && c[21 + |secretKey|..] == publicKey
  }

  lemma PlainHasLayout(secretKey: bytes, publicKey: bytes)
    ensures PlainLayout(EncodePkcs8(secretKey, publicKey), secretKey, publicKey)
  {
    var c := EncodePkcs8(secretKey, publicKey);
    assert c[..16] == PKCS8_HEADER;
    assert c[16..16 + |secretKey|] == secretKey;
    assert c[16 + |secretKey|..21 + |secretKey|] == PKCS8_DIVIDER;
    assert c[21 + |secretKey|..] == publicKey;
  }

  /** Of an encrypted container: 32 bytes of salt, the scrypt parameters 32768, 1 and 8 in four little-endian
      bytes each, the 24-byte nonce, and a box that the first 32 bytes of scrypt open to the plain one. */
  lemma EncryptedLayout(pr: Primitives, secretKey: bytes, publicKey: bytes, passphrase: string, salt: bytes, nonce: bytes)
    requires pr.Faithful() && |salt| == 32 && |nonce| == 24
    ensures var o := EncodePair(pr, Some(secretKey), publicKey, Some(passphrase), salt, nonce);
            && o.Ok? && |o.value| >= 68
            && o.value[..32] == salt
            && ValueLE(o.value[32..36]) == 32768 && ValueLE(o.value[36..40]) == 1 && ValueLE(o.value[40..44]) == 8
            && o.value[44..68] == nonce
            && var plain := pr.open(o.value[68..], nonce, pr.scrypt(passphrase, salt, ScryptParams(32768, 1, 8))[..32]);
               plain.Some? && PlainLayout(plain.value, secretKey, publicKey)
  {
    hide BytesLE, ValueLE, EncodePkcs8, PlainLayout;
    DefaultParamsSurvive();
    PlainHasLayout(secretKey, publicKey);
    var password := pr.scrypt(passphrase, salt, DEFAULT_PARAMS);
    assert password[0..32] == password[..32];
    var sealed := pr.seal(EncodePkcs8(secretKey, publicKey), nonce, password[..32]);
    var c := ScryptToU8a(salt, DEFAULT_PARAMS) + nonce + sealed;
    assert c[..32] == salt;
    assert c[32..36] == BytesLE(DEFAULT_PARAMS.n, 4);
    assert c[36..40] == BytesLE(DEFAULT_PARAMS.p, 4);
    assert c[40..44] == BytesLE(DEFAULT_PARAMS.r, 4);
    assert c[44..68] == nonce && c[68..] == sealed;
  }

  /** Without a passphrase the container is the plain PKCS8 form, for keys of any length, and gives back
      what the encrypted one does. */
  lemma PlainRoundTrip(pr: Primitives, keys: Keys, salt: bytes, nonce: bytes, encType: seq<string>)
    requires BOX !in encType
    ensures var c := EncodePair(pr, Some(keys.secretKey), keys.publicKey, None, salt, nonce);
            && c.Ok?
            && DecodePair(pr, None, Some(c.value), Some(encType)) == DecodePkcs8(EncodePkcs8(keys.secretKey, keys.publicKey))
            && ((|keys.secretKey| == SEC_LENGTH || |keys.secretKey| == SEED_LENGTH) && PUB_LENGTH <= |keys.publicKey| < 64 ==>
                  DecodePair(pr, None, Some(c.value), Some(encType))
                  == if |keys.secretKey| == SEC_LENGTH || keys.publicKey[27..32] != PKCS8_DIVIDER
                     then Ok(Keys(keys.publicKey[..PUB_LENGTH], keys.secretKey)) else Err("RangeError"))
  {
    hide EncodePkcs8, DecodePkcs8;
    if |keys.secretKey| == SEC_LENGTH {
      Pkcs8RoundTrip(keys.secretKey, keys.publicKey);
    } else if |keys.secretKey| == SEED_LENGTH {
      SeedContainerExact(keys.secretKey, keys.publicKey);
    }
  }

  /** The scrypt parameters a decoder would read in the plain container: bytes 16 to 27 of the secret. */
  function ReadAsParams(secretKey: bytes): ScryptParams
    requires |secretKey| >= 28
  {
    ScryptParams(ValueLE(secretKey[16..20]), ValueLE(secretKey[20..24]), ValueLE(secretKey[24..28]))
  }

  /** A plain container is not read under the default types: without a passphrase it is refused, and
      with one it fails unless the secret happens to spell the default scrypt parameters. */
  lemma PlainNotReopened(pr: Primitives, secretKey: bytes, publicKey: bytes, passphrase: Option<string>)
    requires |secretKey| >= 28
    requires passphrase.None? || ReadAsParams(secretKey) != DEFAULT_PARAMS
    ensures DecodePair(pr, passphrase, Some(EncodePkcs8(secretKey, publicKey)), None).Err?
  {
    hide ValueLE;
    var e := EncodePkcs8(secretKey, publicKey);
    assert e[32..36] == secretKey[16..20];
    assert e[36..40] == secretKey[20..24];
    assert e[40..44] == secretKey[24..28];
  }
}
