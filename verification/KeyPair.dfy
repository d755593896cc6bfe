/** `CreatePairClass` of lib/keyring/pair.dart: a key pair that can be locked, encoded and unlocked
    again. The class is proved to follow a step function, about whose runs the results are stated. */
module KeyPair {
  import opened Basics
  import opened PairContainer

  datatype KeyType = Ecdsa | Ed25519 | Ethereum | Sr25519

  /** The per-type functions of the source: address derivation, SS58 and ethereum encoding, seed
      expansion and signing. */
  datatype Setup = Setup(
    keyType: KeyType,
    typeAddress: bytes -> bytes,
    toSS58: bytes -> string,
    ethereumEncode: bytes -> string,
    fromSeed: bytes -> Keys,
    signature: (bytes, Keys) -> bytes)
  {
    function Address(publicKey: bytes): string {
      var raw := typeAddress(publicKey);
      if keyType.Ethereum? then ethereumEncode(raw) else toSS58(raw)
    }

    /** The pair a decoded container stands for: a 64-byte secret is taken as it is with the decoded
        public key, a seed is expanded to both keys. */
    function Expanded(decoded: Keys): Keys {
      if |decoded.secretKey| == 64 then decoded else fromSeed(decoded.secretKey)
    }

    function Prefix(): bytes {
      match keyType
      case Ecdsa => [2]
      case Ed25519 => [0]
      case Ethereum => [2]
      case Sr25519 => [1]
    }
  }

  // ----- locked secrets -----

  function Sum(b: bytes): nat {
    if b == [] then 0 else b[0] + Sum(b[1..])
  }

  /** `isLockedFunction`: no secret, an empty one, or one whose bytes sum to zero. */
  predicate IsLocked(secretKey: Option<bytes>) {
    secretKey.None? || |secretKey.value| == 0 || Sum(secretKey.value) == 0
  }

  lemma {:induction false} SumZero(b: bytes)
    ensures Sum(b) == 0 <==> forall i :: 0 <= i < |b| ==> b[i] == 0
  {
    if b != [] {
      SumZero(b[1..]);
      if Sum(b) == 0 {
        forall i | 0 <= i < |b|
          ensures b[i] == 0
        {
          assert i > 0 ==> b[i] == b[1..][i - 1];
        }
      } else {
        assert b[0] != 0 || exists i :: 0 <= i < |b[1..]| && b[1..][i] != 0;
        assert forall i :: 0 <= i < |b[1..]| ==> b[1..][i] == b[i + 1];
      }
    }
  }

  // ----- the step function -----

  /** The fields of the pair. `exposedKey` and `address` are what the getters show; signing and
      encoding use `publicKey` and `secretKey`. */
  datatype State = State(
    exposedKey: bytes,
    address: string,
    publicKey: bytes,
    secretKey: Option<bytes>,
    encoded: Option<bytes>,
    encTypes: Option<seq<string>>,
    meta: map<string, string>)

  datatype Op =
    | Lock
    | SetMeta(additional: map<string, string>)
    | Decode(passphrase: Option<string>, userEncoded: Option<bytes>)
    | Encode(password: Option<string>, salt: bytes, nonce: bytes)
    | Sign(message: bytes, withType: bool)

  datatype Output = Done | Produced(data: bytes) | Threw(error: string)

  function DecodeStep(setup: Setup, pr: Primitives, s: State, passphrase: Option<string>,
                      userEncoded: Option<bytes>): (State, Output)
  {
    match DecodePair(pr, passphrase, if userEncoded.Some? then userEncoded else s.encoded, s.encTypes)
    case Err(e) => (s, Threw(e))
    case Ok(decoded) =>
      var keys := setup.Expanded(decoded);
      (s.(publicKey := keys.publicKey, secretKey := Some(keys.secretKey)), Done)
  }

  function EncodeStep(pr: Primitives, s: State, password: Option<string>, salt: bytes, nonce: bytes): (State, Output) {
    match EncodePair(pr, s.secretKey, s.publicKey, password, salt, nonce)
    case Err(e) => (s, Threw(e))
    case Ok(c) => (s.(encoded := Some(c), encTypes := None), Produced(c))
  }

  function SignStep(setup: Setup, s: State, message: bytes, withType: bool): Output {
    if IsLocked(s.secretKey) then Threw("Cannot sign with a locked key pair")
    else
      Produced((if withType then setup.Prefix() else [])
               + setup.signature(message, Keys(s.publicKey, s.secretKey.value)))
  }

  function Step(setup: Setup, pr: Primitives, s: State, op: Op): (State, Output) {
    match op
    case Lock => (s.(secretKey := Some([])), Done)
    case SetMeta(additional) => (s.(meta := s.meta + additional), Done)
    case Decode(passphrase, userEncoded) => DecodeStep(setup, pr, s, passphrase, userEncoded)
    case Encode(password, salt, nonce) => EncodeStep(pr, s, password, salt, nonce)
    case Sign(message, withType) => (s, SignStep(setup, s, message, withType))
  }

  class CreatePairClass {
    const setup: Setup
    const pr: Primitives
    const address: string
    const addressRaw: bytes
    const exposedKey: bytes
    var publicKey: bytes
    var secretKey: Option<bytes>
    var encoded: Option<bytes>
    var encTypes: Option<seq<string>>
    var meta: map<string, string>

    ghost function View(): State
      reads this
    {
      State(exposedKey, address, publicKey, secretKey, encoded, encTypes, meta)
    }

    constructor (setup: Setup, pr: Primitives, publicKey: bytes, secretKey: Option<bytes>,
                 initMeta: Option<map<string, string>>, encoded: Option<bytes>, encTypes: Option<seq<string>>)
      requires setup.keyType.Ethereum? ==> |setup.typeAddress(publicKey)| >= 20
      ensures View() == State(publicKey, address, publicKey, secretKey, encoded, encTypes,
                              if initMeta.Some? then initMeta.value else map[])
      ensures address == if setup.keyType == Ethereum then setup.ethereumEncode(setup.typeAddress(publicKey))
                         else setup.toSS58(setup.typeAddress(publicKey))
      ensures this.setup == setup && this.pr == pr
      ensures addressRaw == var raw := setup.typeAddress(publicKey);
                            if setup.keyType.Ethereum? then raw[|raw| - 20..] else raw
    {
      var raw := setup.typeAddress(publicKey);
      this.setup := setup;
      this.pr := pr;
      this.publicKey := publicKey;
      this.secretKey := secretKey;
      this.encoded := encoded;
      this.encTypes := encTypes;
      this.addressRaw := if setup.keyType.Ethereum? then raw[|raw| - 20..] else raw;
      this.address := setup.Address(publicKey);
      this.meta := if initMeta.Some? then initMeta.value else map[];
      this.exposedKey := publicKey;
    }

    method DecodePkcs8(passphrase: Option<string>, userEncoded: Option<bytes>) returns (o: Output)
      modifies this`publicKey, this`secretKey
      ensures (View(), o) == Step(setup, pr, old(View()), Decode(passphrase, userEncoded))
    {
      hide DecodePair;
      var container := if userEncoded.Some? then userEncoded else encoded;
      var decoded := DecodePair(pr, passphrase, container, encTypes);
      if decoded.Err? {
        return Threw(decoded.error);
      }
      if |decoded.value.secretKey| == 64 {
        publicKey := decoded.value.publicKey;
        secretKey := Some(decoded.value.secretKey);
      } else {
        var pair := setup.fromSeed(decoded.value.secretKey);
        publicKey := pair.publicKey;
        secretKey := Some(pair.secretKey);
      }
      o := Done;
    }

    /** `_recode` when it does not decode first; the salt and nonce are the random bytes it draws. */
    method EncodePkcs8(password: Option<string>, salt: bytes, nonce: bytes) returns (o: Output)
      requires !IsLocked(secretKey) || encoded.None?
      modifies this`encoded, this`encTypes
      ensures (View(), o) == Step(setup, pr, old(View()), Encode(password, salt, nonce))
    {
      hide EncodePair, Sum;
      var c := EncodePair(pr, secretKey, publicKey, password, salt, nonce);
      if c.Err? {
        return Threw(c.error);
      }
      encoded := Some(c.value);
      encTypes := None;
      o := Produced(c.value);
    }

    method LockPair() returns (o: Output)
      modifies this`secretKey
      ensures (View(), o) == Step(setup, pr, old(View()), Lock)
    {
      secretKey := Some([]);
      o := Done;
    }

    method SetMetadata(additional: map<string, string>) returns (o: Output)
      modifies this`meta
      ensures (View(), o) == Step(setup, pr, old(View()), SetMeta(additional))
    {
      meta := meta + additional;
      o := Done;
    }

    method SignMessage(message: bytes, withType: bool) returns (o: Output)
      ensures (View(), o) == Step(setup, pr, View(), Sign(message, withType))
    {
      if IsLocked(secretKey) {
        return Threw("Cannot sign with a locked key pair");
      }
      o := Produced((if withType then setup.Prefix() else [])
                    + setup.signature(message, Keys(publicKey, secretKey.value)));
    }
  }

  // ----- runs -----

  function Run(setup: Setup, pr: Primitives, s: State, ops: seq<Op>): State
    decreases |ops|
  {
    if ops == [] then s else Run(setup, pr, Step(setup, pr, s, ops[0]).0, ops[1..])
  }

  /** An operation a caller makes with the pair's own containers only, under any passphrases, with
      32-byte salts and 24-byte nonces as drawn, encoding only while the pair is unlocked. */
  predicate Own(s: State, op: Op) {
    match op
    case Decode(_, userEncoded) => userEncoded.None?
    case Encode(password, salt, nonce) =>
      password.Some? && !IsLocked(s.secretKey) && |salt| == SALT_LENGTH && |nonce| == NONCE_LENGTH
    case _ => true
  }

  predicate OwnRun(setup: Setup, pr: Primitives, s: State, ops: seq<Op>)
    decreases |ops|
  {
    ops == [] || (Own(s, ops[0]) && OwnRun(setup, pr, Step(setup, pr, s, ops[0]).0, ops[1..]))
  }

  /** No passphrase restores anything but the given keys from the container. */
  ghost predicate OnlyRestores(setup: Setup, pr: Primitives, c: bytes, keys: Keys, encTypes: Option<seq<string>>) {
    forall passphrase :: var d := DecodePair(pr, passphrase, Some(c), encTypes); d.Err? || setup.Expanded(d.value) == keys
  }

  /** No passphrase opens the container at all. */
  ghost predicate NeverOpens(pr: Primitives, c: bytes, encTypes: Option<seq<string>>) {
    forall passphrase :: DecodePair(pr, passphrase, Some(c), encTypes).Err?
  }

  /** The pair still is the pair of `keys`: unlocked with its secret, or locked by an empty or missing one, with
      the exposed key used for signing, and with no container but of these keys. */
  ghost predicate Consistent(setup: Setup, pr: Primitives, s: State, keys: Keys, address: string) {
    && s.exposedKey == keys.publicKey && s.publicKey == keys.publicKey && s.address == address
    && (s.secretKey == Some(keys.secretKey) || s.secretKey == Some([]) || s.secretKey.None?)
    && (s.encoded.Some? ==> OnlyRestores(setup, pr, s.encoded.value, keys, s.encTypes))
  }

  /** The pairs the four key types make: a 64-byte secret with a 32-byte public key, or a 32-byte secret
      that expands to the pair, with a public key of 32 bytes or more (33 for ecdsa and ethereum). A
      key of 64 bytes or more is included unless it is misread. */
  predicate TypedKeys(setup: Setup, keys: Keys) {
    && !IsLocked(Some(keys.secretKey))
    && ((|keys.secretKey| == SEC_LENGTH && |keys.publicKey| == PUB_LENGTH)
        || (|keys.secretKey| == SEED_LENGTH && PUB_LENGTH <= |keys.publicKey| && setup.fromSeed(keys.secretKey) == keys
            && (|keys.publicKey| < 64 || keys.publicKey[27..32] != PKCS8_DIVIDER)))
  }

  /** The pairs whose container can be read back. */
  predicate Restorable(keys: Keys)
    requires |keys.publicKey| >= PUB_LENGTH
  {
    |keys.secretKey| == SEC_LENGTH || keys.publicKey[27..32] != PKCS8_DIVIDER
  }

  lemma TypedLength(setup: Setup, keys: Keys)
    requires TypedKeys(setup, keys)
    ensures |keys.publicKey| >= PUB_LENGTH
  {
  }

  lemma PlainRestores(setup: Setup, keys: Keys)
    requires TypedKeys(setup, keys)
    ensures var plain := DecodePkcs8(EncodePkcs8(keys.secretKey, keys.publicKey));
            if Restorable(keys) then plain.Ok? && setup.Expanded(plain.value) == keys else plain.Err?
  {
    hide DecodePkcs8, EncodePkcs8, Sum;
    if |keys.secretKey| == SEC_LENGTH {
      Pkcs8RoundTrip(keys.secretKey, keys.publicKey);
      assert keys.publicKey[..PUB_LENGTH] == keys.publicKey;
    } else {
      SeedContainerExact(keys.secretKey, keys.publicKey);
    }
  }

  lemma EncodedOnlyRestores(setup: Setup, pr: Primitives, keys: Keys, password: string, salt: bytes, nonce: bytes)
    requires pr.Faithful() && pr.Authentic() && TypedKeys(setup, keys) && |salt| == SALT_LENGTH && |nonce| == NONCE_LENGTH
    ensures var c := EncodePair(pr, Some(keys.secretKey), keys.publicKey, Some(password), salt, nonce);
            && c.Ok? && OnlyRestores(setup, pr, c.value, keys, None)
            && (DecodePair(pr, Some(password), Some(c.value), None).Ok? <==> Restorable(keys))
            && (!Restorable(keys) ==> NeverOpens(pr, c.value, None))
  {
    hide EncodePair, DecodePair, EncodePkcs8, DecodePkcs8, TypedKeys;
    TypedLength(setup, keys);
    PlainRestores(setup, keys);
    ContainerRoundTrip(pr, keys.secretKey, keys.publicKey, password, salt, nonce, None, password);
    var c := EncodePair(pr, Some(keys.secretKey), keys.publicKey, Some(password), salt, nonce);
    forall passphrase
      ensures var d := DecodePair(pr, passphrase, Some(c.value), None);
              d.Err? || (Restorable(keys) && setup.Expanded(d.value) == keys)
    {
      if passphrase.Some? {
        ContainerRoundTrip(pr, keys.secretKey, keys.publicKey, password, salt, nonce, None, passphrase.value);
      } else {
        NoPassphrase(pr, c.value);
      }
    }
  }

  lemma NoPassphrase(pr: Primitives, c: bytes)
    ensures DecodePair(pr, None, Some(c), None).Err?
  {
  }

  lemma StepConsistent(setup: Setup, pr: Primitives, s: State, op: Op, keys: Keys, address: string)
    requires pr.Faithful() && pr.Authentic() && TypedKeys(setup, keys)
    requires Consistent(setup, pr, s, keys, address) && Own(s, op)
    ensures Consistent(setup, pr, Step(setup, pr, s, op).0, keys, address)
  {
    hide EncodePair, DecodePair, Sum, TypedKeys, Setup.Expanded;
    match op
    case Encode(password, salt, nonce) =>
      EncodedOnlyRestores(setup, pr, keys, password.value, salt, nonce);
    case Decode(passphrase, _) =>
      if s.encoded.Some? {
        assert OnlyRestores(setup, pr, s.encoded.value, keys, s.encTypes);
      } else {
        NothingToDecode(pr, passphrase, s.encTypes);
      }
    case _ =>
  }

  lemma NothingToDecode(pr: Primitives, passphrase: Option<string>, encTypes: Option<seq<string>>)
    ensures DecodePair(pr, passphrase, None, encTypes).Err?
  {
  }

  /** Safety over whole runs, for every key type: however the pair is locked, encoded and decoded, with
      right or wrong passphrases, its address and exposed key never change, the key it signs with is
      the exposed one, and its secret is the original secret or locked. */
  lemma {:induction false} RunConsistent(setup: Setup, pr: Primitives, s: State, ops: seq<Op>, keys: Keys, address: string)
    requires pr.Faithful() && pr.Authentic() && TypedKeys(setup, keys)
    requires Consistent(setup, pr, s, keys, address) && OwnRun(setup, pr, s, ops)
    ensures Consistent(setup, pr, Run(setup, pr, s, ops), keys, address)
    decreases |ops|
  {
    hide EncodePair, DecodePair, Sum, TypedKeys, Step;
    if ops != [] {
      StepConsistent(setup, pr, s, ops[0], keys, address);
      RunConsistent(setup, pr, Step(setup, pr, s, ops[0]).0, ops[1..], keys, address);
    }
  }

  predicate NoEncode(ops: seq<Op>) {
    forall i :: 0 <= i < |ops| ==> !ops[i].Encode?
  }

  /** Without encoding, a run leaves the stored container alone. */
  lemma {:induction false} RunKeepsContainer(setup: Setup, pr: Primitives, s: State, ops: seq<Op>)
    requires NoEncode(ops)
    ensures Run(setup, pr, s, ops).encoded == s.encoded && Run(setup, pr, s, ops).encTypes == s.encTypes
    decreases |ops|
  {
    hide EncodePair, DecodePair;
    if ops != [] {
      assert !ops[0].Encode?;
      RunKeepsContainer(setup, pr, Step(setup, pr, s, ops[0]).0, ops[1..]);
    }
  }

  /** Encode under a passphrase at any unlocked point of a run, do anything but encode, lock; then
      decoding with that passphrase brings the pair back exactly when it is restorable. Otherwise it
      throws and leaves the pair locked, and so does any other passphrase. */
  lemma EncodeLockDecode(setup: Setup, pr: Primitives, s: State, before: seq<Op>, password: string, salt: bytes,
                         nonce: bytes, between: seq<Op>, keys: Keys, address: string)
    requires pr.Faithful() && pr.Authentic() && TypedKeys(setup, keys)
    requires Consistent(setup, pr, s, keys, address) && OwnRun(setup, pr, s, before)
    requires Own(Run(setup, pr, s, before), Encode(Some(password), salt, nonce)) && NoEncode(between)
    requires var u := Step(setup, pr, Run(setup, pr, s, before), Encode(Some(password), salt, nonce)).0;
             OwnRun(setup, pr, u, between)
    ensures var u := Step(setup, pr, Run(setup, pr, s, before), Encode(Some(password), salt, nonce)).0;
            var locked := Step(setup, pr, Run(setup, pr, u, between), Lock).0;
            var (restored, o) := Step(setup, pr, locked, Decode(Some(password), None));
            && IsLocked(locked.secretKey)
            && (if Restorable(keys)
                then && o == Done && restored.secretKey == Some(keys.secretKey) && !IsLocked(restored.secretKey)
                     && restored.publicKey == restored.exposedKey == keys.publicKey && restored.address == address
                else && o.Threw? && restored == locked
                     && locked.encoded.Some? && NeverOpens(pr, locked.encoded.value, locked.encTypes))
  {
    hide EncodePair, DecodePair, Sum, Run, OwnRun, Setup.Expanded;
    var t := Run(setup, pr, s, before);
    RunConsistent(setup, pr, s, before, keys, address);
    EncodedOnlyRestores(setup, pr, keys, password, salt, nonce);
    StepConsistent(setup, pr, t, Encode(Some(password), salt, nonce), keys, address);
    var u := Step(setup, pr, t, Encode(Some(password), salt, nonce)).0;
    RunKeepsContainer(setup, pr, u, between);
    RunConsistent(setup, pr, u, between, keys, address);
  }

  /** Locking, setting metadata, signing and decoding the own container. */
  predicate Quiet(ops: seq<Op>) {
    forall i :: 0 <= i < |ops| ==> !ops[i].Encode? && (ops[i].Decode? ==> ops[i].userEncoded.None?)
  }

  lemma {:induction false} LockedKept(setup: Setup, pr: Primitives, s: State, ops: seq<Op>)
    requires IsLocked(s.secretKey) && s.encoded.Some? && NeverOpens(pr, s.encoded.value, s.encTypes) && Quiet(ops)
    ensures var t := Run(setup, pr, s, ops);
            && IsLocked(t.secretKey) && t.encoded == s.encoded && t.encTypes == s.encTypes
            && t.publicKey == s.publicKey
    decreases |ops|
  {
    hide DecodePair, EncodePair, Sum, Setup.Expanded;
    if ops != [] {
      var op := ops[0];
      assert !op.Encode? && (op.Decode? ==> op.userEncoded.None?);
      if op.Decode? {
        assert DecodePair(pr, op.passphrase, s.encoded, s.encTypes).Err?;
      }
      assert Quiet(ops[1..]);
      LockedKept(setup, pr, Step(setup, pr, s, op).0, ops[1..]);
    }
  }

  /** A locked pair whose container nothing opens stays locked whatever is done with its own container: over
      any run every decode and every signature throws. */
  lemma StaysLocked(setup: Setup, pr: Primitives, s: State, ops: seq<Op>)
    requires IsLocked(s.secretKey) && s.encoded.Some? && NeverOpens(pr, s.encoded.value, s.encTypes) && Quiet(ops)
    ensures IsLocked(Run(setup, pr, s, ops).secretKey)
    ensures forall i :: 0 <= i < |ops| && (ops[i].Decode? || ops[i].Sign?) ==>
              Step(setup, pr, Run(setup, pr, s, ops[..i]), ops[i]).1.Threw?
  {
    hide DecodePair, EncodePair, Sum, Setup.Expanded, Run;
    LockedKept(setup, pr, s, ops);
    forall i | 0 <= i < |ops| && (ops[i].Decode? || ops[i].Sign?)
      ensures Step(setup, pr, Run(setup, pr, s, ops[..i]), ops[i]).1.Threw?
    {
      LockedKept(setup, pr, s, ops[..i]);
      var t := Run(setup, pr, s, ops[..i]);
      if ops[i].Decode? {
        assert DecodePair(pr, ops[i].passphrase, t.encoded, t.encTypes).Err?;
      }
    }
  }

  /** A pair that is not restorable and was encoded and locked stays locked over every further run. */
  lemma LostPairStaysLocked(setup: Setup, pr: Primitives, s: State, before: seq<Op>, password: string, salt: bytes,
                            nonce: bytes, between: seq<Op>, keys: Keys, address: string, after: seq<Op>)
    requires pr.Faithful() && pr.Authentic() && TypedKeys(setup, keys) && !Restorable(keys)
    requires Consistent(setup, pr, s, keys, address) && OwnRun(setup, pr, s, before)
    requires Own(Run(setup, pr, s, before), Encode(Some(password), salt, nonce)) && NoEncode(between)
    requires var u := Step(setup, pr, Run(setup, pr, s, before), Encode(Some(password), salt, nonce)).0;
             OwnRun(setup, pr, u, between)
    requires Quiet(after)
    ensures var u := Step(setup, pr, Run(setup, pr, s, before), Encode(Some(password), salt, nonce)).0;
            var locked := Step(setup, pr, Run(setup, pr, u, between), Lock).0;
            IsLocked(Run(setup, pr, locked, after).secretKey)
  {
    hide Run, OwnRun, Consistent, TypedKeys, NeverOpens, Quiet, Sum, EncodePair, DecodePair;
    EncodeLockDecode(setup, pr, s, before, password, salt, nonce, between, keys, address);
    var u := Step(setup, pr, Run(setup, pr, s, before), Encode(Some(password), salt, nonce)).0;
    StaysLocked(setup, pr, Step(setup, pr, Run(setup, pr, u, between), Lock).0, after);
  }

  /** Encoding without a passphrase cannot be undone by the pair itself: once it is locked, decoding its
      own container throws, without a passphrase always, and with one unless the secret happens to
      spell the default scrypt parameters. */
  lemma PlainEncodeStaysLocked(setup: Setup, pr: Primitives, s: State, salt: bytes, nonce: bytes, passphrase: Option<string>)
    requires s.secretKey.Some? && |s.secretKey.value| >= 28
    requires passphrase.None? || ReadAsParams(s.secretKey.value) != DEFAULT_PARAMS
    ensures var (u, made) := Step(setup, pr, s, Encode(None, salt, nonce));
            var locked := Step(setup, pr, u, Lock).0;
            var (t, o) := Step(setup, pr, locked, Decode(passphrase, None));
            made.Produced? && o.Threw? && t == locked
  {
    hide DecodePair, EncodePkcs8;
    PlainNotReopened(pr, s.secretKey.value, s.publicKey, passphrase);
  }

  /** Over every run after that the pair stays locked. */
  lemma PlainRunStaysLocked(setup: Setup, pr: Primitives, s: State, salt: bytes, nonce: bytes, after: seq<Op>)
    requires s.secretKey.Some? && |s.secretKey.value| >= 28 && ReadAsParams(s.secretKey.value) != DEFAULT_PARAMS
    requires Quiet(after)
    ensures var locked := Step(setup, pr, Step(setup, pr, s, Encode(None, salt, nonce)).0, Lock).0;
            IsLocked(Run(setup, pr, locked, after).secretKey)
  {
    hide DecodePair, EncodePkcs8, Run, Quiet;
    var locked := Step(setup, pr, Step(setup, pr, s, Encode(None, salt, nonce)).0, Lock).0;
    forall passphrase
      ensures DecodePair(pr, passphrase, locked.encoded, locked.encTypes).Err?
    {
      PlainNotReopened(pr, s.secretKey.value, s.publicKey, passphrase);
    }
    StaysLocked(setup, pr, locked, after);
  }

  /** A pair whose container was made without scrypt, as a backup may hold: decoding a box under the bytes of
      the password, as the pair's own container or one handed in, unlocks the pair it holds exactly when
      the plain container can be read, and otherwise changes nothing. */
  lemma UnlockByPassword(setup: Setup, pr: Primitives, s: State, keys: Keys, passphrase: string, nonce: bytes)
    requires pr.Faithful() && TypedKeys(setup, keys) && |nonce| == NONCE_LENGTH
    requires s.encTypes.Some? && SCRYPT !in s.encTypes.value
    ensures var text := pr.text(passphrase);
            var key := if |text| >= 32 then text[..32] else text + Repeat(0, 32 - |text|);
            var c := nonce + pr.seal(EncodePkcs8(keys.secretKey, keys.publicKey), nonce, key);
            var own := s.(encoded := Some(c));
            var unlocked := (u: State) => u.(publicKey := keys.publicKey, secretKey := Some(keys.secretKey));
            var (t, o) := Step(setup, pr, s, Decode(Some(passphrase), Some(c)));
            var (t', o') := Step(setup, pr, own, Decode(Some(passphrase), None));
            if Restorable(keys) then o == o' == Done && t == unlocked(s) && t' == unlocked(own)
            else o.Threw? && o'.Threw? && t == s && t' == own
  {
    hide EncodePkcs8, DecodePkcs8, DecodePair, Setup.Expanded;
    PasswordRoundTrip(pr, keys.secretKey, keys.publicKey, passphrase, nonce, s.encTypes.value, passphrase);
    PlainRestores(setup, keys);
  }

  /** What encoding makes: a container of the current keys in the documented layout, which is stored and
      handed out, under the default types from then on. Only a missing secret makes it throw. */
  lemma EncodeExact(setup: Setup, pr: Primitives, s: State, password: Option<string>, salt: bytes, nonce: bytes)
    requires pr.Faithful() && |salt| == SALT_LENGTH && |nonce| == NONCE_LENGTH
    ensures var (t, o) := Step(setup, pr, s, Encode(password, salt, nonce));
            if s.secretKey.None? then o.Threw? && t == s
            else
              && o.Produced? && t == s.(encoded := Some(o.data), encTypes := None)
              && (password.None? ==> PlainLayout(o.data, s.secretKey.value, s.publicKey))
              && (password.Some? ==>
                    && |o.data| >= 68 && o.data[..32] == salt && o.data[44..68] == nonce
                    && var key := pr.scrypt(password.value, salt, ScryptParams(32768, 1, 8))[..32];
                       var plain := pr.open(o.data[68..], nonce, key);
                       plain.Some? && PlainLayout(plain.value, s.secretKey.value, s.publicKey))
  {
    if s.secretKey.Some? {
      PlainHasLayout(s.secretKey.value, s.publicKey);
      if password.Some? {
        hide EncodePair, PlainLayout;
        EncryptedLayout(pr, s.secretKey.value, s.publicKey, password.value, salt, nonce);
      }
    }
  }

  predicate Sets(op: Op, key: string) {
    op.SetMeta? && key in op.additional
  }

  /** Over any run a metadata entry has the value last set for its key, */
  lemma {:induction false} MetaLastSet(setup: Setup, pr: Primitives, s: State, ops: seq<Op>, key: string, i: nat)
    requires i < |ops| && Sets(ops[i], key)
    requires forall j :: i < j < |ops| ==> !Sets(ops[j], key)
    ensures var meta := Run(setup, pr, s, ops).meta; key in meta && meta[key] == ops[i].additional[key]
    decreases |ops|
  {
    hide EncodePair, DecodePair;
    if i == 0 {
      assert forall j :: 0 <= j < |ops[1..]| ==> ops[1..][j] == ops[j + 1];
      MetaKept(setup, pr, Step(setup, pr, s, ops[0]).0, ops[1..], key);
    } else {
      MetaLastSet(setup, pr, Step(setup, pr, s, ops[0]).0, ops[1..], key, i - 1);
    }
  }

  /** or the one it started with. */
  lemma {:induction false} MetaKept(setup: Setup, pr: Primitives, s: State, ops: seq<Op>, key: string)
    requires forall j :: 0 <= j < |ops| ==> !Sets(ops[j], key)
    ensures var meta := Run(setup, pr, s, ops).meta;
            (key in meta <==> key in s.meta) && (key in meta ==> meta[key] == s.meta[key])
    decreases |ops|
  {
    hide EncodePair, DecodePair;
    if ops != [] {
      assert !Sets(ops[0], key);
      assert forall j :: 0 <= j < |ops[1..]| ==> ops[1..][j] == ops[j + 1];
      MetaKept(setup, pr, Step(setup, pr, s, ops[0]).0, ops[1..], key);
    }
  }

  /** The bytes of a signature: without type what the key type's function makes of the message and the
      current keys, with type the same after one byte that tells the key type. */
  lemma SignatureBytes(setup: Setup, pr: Primitives, s: State, message: bytes, keys: Keys)
    requires s.publicKey == keys.publicKey && s.secretKey == Some(keys.secretKey) && !IsLocked(s.secretKey)
    ensures Step(setup, pr, s, Sign(message, false)) == (s, Produced(setup.signature(message, keys)))
    ensures var typeByte := if setup.keyType == Ed25519 then 0 else if setup.keyType == Sr25519 then 1 else 2;
            Step(setup, pr, s, Sign(message, true)) == (s, Produced([typeByte] + setup.signature(message, keys)))
  {
    assert [] + setup.signature(message, keys) == setup.signature(message, keys);
  }

  /** Signing succeeds exactly when the secret is neither missing, empty nor all zero, and never
      changes the pair. */
  lemma SignExact(setup: Setup, pr: Primitives, s: State, message: bytes, withType: bool)
    ensures var (t, o) := Step(setup, pr, s, Sign(message, withType));
            && t == s
            && (o.Produced? <==> s.secretKey.Some? && exists i :: 0 <= i < |s.secretKey.value| && s.secretKey.value[i] != 0)
  {
    if s.secretKey.Some? {
      SumZero(s.secretKey.value);
    }
  }

  /** Over any run at all the getters for the address and the public key keep their first values. */
  lemma {:induction false} ExposedNeverChange(setup: Setup, pr: Primitives, s: State, ops: seq<Op>)
    ensures Run(setup, pr, s, ops).exposedKey == s.exposedKey && Run(setup, pr, s, ops).address == s.address
    decreases |ops|
  {
    hide EncodePair, DecodePair;
    if ops != [] {
      ExposedNeverChange(setup, pr, Step(setup, pr, s, ops[0]).0, ops[1..]);
    }
  }

  lemma {:induction false} RunSnoc(setup: Setup, pr: Primitives, s: State, ops: seq<Op>)
    requires ops != []
    ensures Run(setup, pr, s, ops) == Step(setup, pr, Run(setup, pr, s, ops[..|ops| - 1]), ops[|ops| - 1]).0
    decreases |ops|
  {
    hide Step;
    if |ops| == 1 {
      assert ops[..0] == [] && ops[1..] == [];
    } else {
      RunSnoc(setup, pr, Step(setup, pr, s, ops[0]).0, ops[1..]);
      assert ops[1..][..|ops| - 2] == ops[..|ops| - 1][1..];
    }
  }

  function Attempt(pr: Primitives, s: State, op: Op): Result<Keys>
    requires op.Decode?
  {
    DecodePair(pr, op.passphrase, if op.userEncoded.Some? then op.userEncoded else s.encoded, s.encTypes)
  }

  /** Operation i of the run is a decode, of the pair's own container or of one handed in, that succeeds. */
  predicate OpensAt(setup: Setup, pr: Primitives, s: State, ops: seq<Op>, i: nat)
    requires i < |ops|
  {
    ops[i].Decode? && Attempt(pr, Run(setup, pr, s, ops[..i]), ops[i]).Ok?
  }

  /** The pair held by the container that operation i opens. */
  function HeldAt(setup: Setup, pr: Primitives, s: State, ops: seq<Op>, i: nat): Keys
    requires i < |ops| && OpensAt(setup, pr, s, ops, i)
  {
    setup.Expanded(Attempt(pr, Run(setup, pr, s, ops[..i]), ops[i]).value)
  }

  lemma OpensBefore(setup: Setup, pr: Primitives, s: State, ops: seq<Op>, i: nat)
    requires i + 1 < |ops|
    ensures OpensAt(setup, pr, s, ops[..|ops| - 1], i) == OpensAt(setup, pr, s, ops, i)
    ensures OpensAt(setup, pr, s, ops, i) ==>
              HeldAt(setup, pr, s, ops[..|ops| - 1], i) == HeldAt(setup, pr, s, ops, i)
  {
    assert ops[..|ops| - 1][..i] == ops[..i];
  }

  /** Over any run, with containers of any origin, the pair signs with both keys of one container, the
      last one it opened, or is locked: the keys of two containers are never mixed. The signing key
      then is the exposed one exactly when that container holds the exposed key. */
  lemma {:induction false} SignsWithLastOpened(setup: Setup, pr: Primitives, s: State, ops: seq<Op>, i: nat)
    requires i < |ops| && OpensAt(setup, pr, s, ops, i)
    requires forall j :: i < j < |ops| ==> !OpensAt(setup, pr, s, ops, j)
    ensures var t := Run(setup, pr, s, ops);
            var held := HeldAt(setup, pr, s, ops, i);
            && t.publicKey == held.publicKey && (t.secretKey == Some(held.secretKey) || t.secretKey == Some([]))
            && t.exposedKey == s.exposedKey && t.address == s.address
            && (t.publicKey == t.exposedKey <==> held.publicKey == s.exposedKey)
    decreases |ops|
  {
    hide DecodePair, EncodePair, Setup.Expanded, Run;
    var init := ops[..|ops| - 1];
    RunSnoc(setup, pr, s, ops);
    ExposedNeverChange(setup, pr, s, ops);
    if i < |ops| - 1 {
      OpensBefore(setup, pr, s, ops, i);
      forall j | i < j < |init|
        ensures !OpensAt(setup, pr, s, init, j)
      {
        OpensBefore(setup, pr, s, ops, j);
      }
      SignsWithLastOpened(setup, pr, s, init, i);
      assert !OpensAt(setup, pr, s, ops, |ops| - 1);
    }
  }

  /** And a run that opens no container keeps the signing key it started with. */
  lemma {:induction false} NothingOpened(setup: Setup, pr: Primitives, s: State, ops: seq<Op>)
    requires forall j :: 0 <= j < |ops| ==> !OpensAt(setup, pr, s, ops, j)
    ensures var t := Run(setup, pr, s, ops);
            t.publicKey == s.publicKey && (t.secretKey == s.secretKey || t.secretKey == Some([]))
    decreases |ops|
  {
    hide DecodePair, EncodePair, Setup.Expanded;
    if ops != [] {
      hide Run;
      var init := ops[..|ops| - 1];
      RunSnoc(setup, pr, s, ops);
      forall j | 0 <= j < |init|
        ensures !OpensAt(setup, pr, s, init, j)
      {
        OpensBefore(setup, pr, s, ops, j);
      }
      NothingOpened(setup, pr, s, init);
      assert !OpensAt(setup, pr, s, ops, |ops| - 1);
    }
  }

  /** Over any run, with containers of any origin, an unlocked pair signs with the keys of the last container
      it opened: the bytes are the signature of these keys, after the byte 2 for ecdsa and ethereum, 0 for
      ed25519 and 1 for sr25519 exactly when the type is asked for. */
  lemma SignatureOfLastOpened(setup: Setup, pr: Primitives, s: State, ops: seq<Op>, i: nat, message: bytes)
    requires i < |ops| && OpensAt(setup, pr, s, ops, i)
    requires forall j :: i < j < |ops| ==> !OpensAt(setup, pr, s, ops, j)
    requires !IsLocked(Run(setup, pr, s, ops).secretKey)
    ensures var t, held := Run(setup, pr, s, ops), HeldAt(setup, pr, s, ops, i);
            var typeByte := match setup.keyType case Ecdsa => 2 case Ethereum => 2 case Ed25519 => 0 case Sr25519 => 1;
            && Step(setup, pr, t, Sign(message, false)).1 == Produced(setup.signature(message, held))
            && Step(setup, pr, t, Sign(message, true)).1 == Produced([typeByte] + setup.signature(message, held))
  {
    hide DecodePair, EncodePair, Run, Step, OpensAt, HeldAt, Sum;
    SignsWithLastOpened(setup, pr, s, ops, i);
    SignatureBytes(setup, pr, Run(setup, pr, s, ops), message, HeldAt(setup, pr, s, ops, i));
  }

  /** And before any container is opened, with the keys it was made with. */
  lemma SignatureUnopened(setup: Setup, pr: Primitives, s: State, ops: seq<Op>, message: bytes)
    requires forall j :: 0 <= j < |ops| ==> !OpensAt(setup, pr, s, ops, j)
    requires !IsLocked(Run(setup, pr, s, ops).secretKey)
    ensures s.secretKey.Some?
    ensures var t, held := Run(setup, pr, s, ops), Keys(s.publicKey, s.secretKey.value);
            var typeByte := match setup.keyType case Ecdsa => 2 case Ethereum => 2 case Ed25519 => 0 case Sr25519 => 1;
            && Step(setup, pr, t, Sign(message, false)).1 == Produced(setup.signature(message, held))
            && Step(setup, pr, t, Sign(message, true)).1 == Produced([typeByte] + setup.signature(message, held))
  {
    hide DecodePair, EncodePair, Run, Step, OpensAt, Sum;
    NothingOpened(setup, pr, s, ops);
    SignatureBytes(setup, pr, Run(setup, pr, s, ops), message, Keys(s.publicKey, s.secretKey.value));
  }
}
