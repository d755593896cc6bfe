/** lib/util_crypto/address.dart: SS58 addresses and the key of a multi-signature account. */
module Address {
  import opened Basics
  import opened Numbers
  import Compact
  import opened KeyPath
  import opened Sorting

  const ALLOWED_DECODED: seq<nat> := [1, 2, 4, 8, 32, 33]
  const ALLOWED_ENCODED: seq<nat> := [3, 4, 6, 10, 35, 36]
  const PREFIX: int := 42
  const SS58_PREFIX: bytes := [83, 83, 53, 56, 80, 82, 69]
  const KEY_MULTI_PREFIX: bytes := [109, 111, 100, 108, 112, 121, 47, 117, 116, 105, 108, 105, 115, 117, 98, 97]

  /** Base58 and the hash: library calls. `hash` takes the number of bits it produces. */
  datatype Codec = Codec(
    base58Encode: bytes -> string,
    base58Decode: string -> Result<bytes>,
    hash: (bytes, nat) -> bytes)
  {
    /** Base58 is a bijection onto the strings it decodes, and never writes the digit zero. */
    ghost predicate Sound() {
      && (forall b :: base58Decode(base58Encode(b)) == Ok(b) && '0' !in base58Encode(b))
      && (forall s :: base58Decode(s).Ok? ==> base58Encode(base58Decode(s).value) == s)
      && (forall b :: |hash(b, 512)| == 64)
    }

    function Sshash(key: bytes): bytes {
      hash(SS58_PREFIX + key, 512)
    }
  }

  /** What callers pass for an account: key bytes, or an address or hexadecimal string. */
  datatype Who = KeyBytes(b: bytes) | Encoded(s: string)

  datatype Checksum = Checksum(valid: bool, length: int)

  function CheckAddressChecksum(c: Codec, decoded: bytes): Checksum
    requires c.Sound() && |decoded| >= 3
  {
    var isPublicKey := |decoded| == 35 || |decoded| == 36;
    var length := |decoded| - if isPublicKey then 2 else 1;
    var h := c.Sshash(decoded[..length]);
    var valid := if isPublicKey then decoded[|decoded| - 2] == h[0] && decoded[|decoded| - 1] == h[1]
                 else decoded[|decoded| - 1] == h[0];
    Checksum(valid, length)
  }

  function DecodeAddress(c: Codec, who: Who, ignoreChecksum: Option<bool>): Result<bytes>
    requires c.Sound()
  {
    match who
    case KeyBytes(b) => Ok(b)
    case Encoded(s) =>
      if IsHex(s) then Ok(HexToU8a(s))
      else
        var decoded :- c.base58Decode(s);
        if |decoded| !in ALLOWED_ENCODED then Err("Invalid decoded address length")
        else
          var check := CheckAddressChecksum(c, decoded);
          if check.valid || ignoreChecksum == Some(true) then Ok(decoded[1..check.length])
          else Err("Invalid decoded address checksum")
  }

  function EncodeAddress(c: Codec, who: Who, ss58Format: Option<int>): Result<string>
    requires c.Sound()
  {
    var key :- DecodeAddress(c, who, None);
    if |key| !in ALLOWED_DECODED then Err("Expected a valid key to convert")
    else
      var isPublicKey := |key| == 32 || |key| == 33;
      // a Uint8List keeps the low eight bits of the prefix
      var input := [(if ss58Format.Some? then ss58Format.value else PREFIX) % 256] + key;
      Ok(c.base58Encode(input + c.Sshash(input)[..if isPublicKey then 2 else 1]))
  }

  lemma NotHex(s: string)
    requires '0' !in s
    ensures !IsHex(s)
  {
    if |s| >= 2 {
      assert s[0] in s;
    }
  }

  /** An address decodes to the key it was made from, for every key length and prefix. */
  lemma AddressRoundTrip(c: Codec, key: bytes, ss58Format: Option<int>, ignoreChecksum: Option<bool>)
    requires c.Sound() && |key| in ALLOWED_DECODED
    ensures var s := EncodeAddress(c, KeyBytes(key), ss58Format);
            s.Ok? && DecodeAddress(c, Encoded(s.value), ignoreChecksum) == Ok(key)
  {
    hide IsHex, HexToU8a, CheckAddressChecksum, Codec.Sshash;
    var f := (if ss58Format.Some? then ss58Format.value else PREFIX) % 256;
    var input := [f] + key;
    HashLength(c, input);
    var n := if |key| == 32 || |key| == 33 then 2 else 1;
    var all := input + c.Sshash(input)[..n];
    NotHex(c.base58Encode(all));
    ChecksumHolds(c, input, n);
    assert all[1..|input|] == key;
  }

  lemma HashLength(c: Codec, input: bytes)
    requires c.Sound()
    ensures |c.Sshash(input)| == 64
  {
  }

  /** The checksum of an address is accepted, two bytes long for public keys and one byte for the others. */
  lemma ChecksumHolds(c: Codec, input: bytes, n: nat)
    requires c.Sound() && |input| >= 2 && |c.Sshash(input)| >= 2
    requires n == if |input| == 33 || |input| == 34 then 2 else 1
    requires |input| != 35
    ensures CheckAddressChecksum(c, input + c.Sshash(input)[..n]) == Checksum(true, |input|)
  {
    hide Codec.Sound, Codec.Sshash;
    var all := input + c.Sshash(input)[..n];
    assert all[..|input|] == input;
  }

  lemma PrefixTexts()
    ensures SS58_PREFIX == Ascii("SS58PRE") && KEY_MULTI_PREFIX == Ascii("modlpy/utilisuba")
  {
    var s, k := "SS58PRE", "modlpy/utilisuba";
    assert Ascii(s) == SS58_PREFIX;
    assert Ascii(k) == KEY_MULTI_PREFIX;
  }

  /** The bytes of an address: the low byte of the prefix, 42 by default, the key, and one or two bytes of
      the 512-bit hash of "SS58PRE" and what precedes them, two for keys of 32 and 33 bytes. */
  lemma AddressBytes(c: Codec, key: bytes, ss58Format: Option<int>)
    requires c.Sound()
    ensures var s := EncodeAddress(c, KeyBytes(key), ss58Format);
            && (s.Ok? <==> |key| in {1, 2, 4, 8, 32, 33})
            && (s.Ok? ==>
                  var body := [if ss58Format.Some? then ss58Format.value % 256 else 42] + key;
                  var h := c.hash(Ascii("SS58PRE") + body, 512);
                  |h| == 64 && c.base58Decode(s.value) == Ok(body + h[..if |key| >= 32 then 2 else 1]))
  {
    PrefixTexts();
  }

  /** Which strings are addresses: those whose base58 bytes have an allowed length and end in the hash bytes
      of the rest, which `ignoreChecksum` waives. The key is the rest without its first byte. */
  lemma DecodeAddressExact(c: Codec, s: string, ignoreChecksum: Option<bool>)
    requires c.Sound() && !IsHex(s)
    ensures var b := c.base58Decode(s);
            var r := DecodeAddress(c, Encoded(s), ignoreChecksum);
            if b.Err? || |b.value| !in {3, 4, 6, 10, 35, 36} then r.Err?
            else
              var n := |b.value| - if |b.value| >= 35 then 2 else 1;
              var h := c.hash(Ascii("SS58PRE") + b.value[..n], 512);
              |h| == 64
              && if ignoreChecksum == Some(true) || b.value[n..] == h[..|b.value| - n] then r == Ok(b.value[1..n]) else r.Err?
  {
    hide IsHex, HexToU8a, CheckAddressChecksum;
    PrefixTexts();
    var b := c.base58Decode(s);
    if b.Ok? && |b.value| in {3, 4, 6, 10, 35, 36} {
      ChecksumExact(c, b.value);
    }
  }

  lemma ChecksumExact(c: Codec, b: bytes)
    requires c.Sound() && |b| in {3, 4, 6, 10, 35, 36}
    ensures var n := |b| - if |b| >= 35 then 2 else 1;
            var h := c.Sshash(b[..n]);
            |h| == 64 && CheckAddressChecksum(c, b) == Checksum(b[n..] == h[..|b| - n], n)
  {
    var n := |b| - if |b| >= 35 then 2 else 1;
    var h := c.Sshash(b[..n]);
    HashLength(c, b[..n]);
    hide Codec.Sound, Codec.Sshash;
    if |b| >= 35 {
      assert b[n..] == [b[|b| - 2], b[|b| - 1]] && h[..2] == [h[0], h[1]];
    } else {
      assert b[n..] == [b[|b| - 1]] && h[..1] == [h[0]];
    }
  }

  /** A hexadecimal string, in small or capital letters, names the key it is the digits of, whatever the checksum
      option. */
  lemma HexAddress(c: Codec, s: string, ignoreChecksum: Option<bool>)
    requires c.Sound() && HexText(s)
    ensures var k := DecodeAddress(c, Encoded(s), ignoreChecksum);
            k.Ok? && ReadsHex(s, k.value)
  {
    hide HexToU8a, IsHex, HexText, ReadsHex;
    HexSame(s);
  }

  /** Every accepted address is the address of its key under the prefix it starts with: the decoder
      accepts exactly what the encoder writes. */
  lemma AddressImage(c: Codec, s: string)
    requires c.Sound() && !IsHex(s)
    ensures var k := DecodeAddress(c, Encoded(s), None);
            k.Ok? ==> && |k.value| in ALLOWED_DECODED
                      && c.base58Decode(s).Ok? && c.base58Decode(s).value != []
                      && EncodeAddress(c, KeyBytes(k.value), Some(c.base58Decode(s).value[0])) == Ok(s)
  {
    hide HexToU8a, IsHex, CheckAddressChecksum, Codec.Sshash;
    var k := DecodeAddress(c, Encoded(s), None);
    if k.Ok? {
      var decoded := c.base58Decode(s).value;
      ValidChecksum(c, decoded);
      var length := CheckAddressChecksum(c, decoded).length;
      var input := decoded[..length];
      assert input == [decoded[0]] + k.value;
      var f: byte := decoded[0];
      assert EncodeAddress(c, KeyBytes(k.value), Some(f)) == Ok(s);
    }
  }

  /** What an accepted checksum says: the bytes after the hashed ones are the first bytes of the hash. */
  lemma ValidChecksum(c: Codec, decoded: bytes)
    requires c.Sound() && |decoded| >= 3 && CheckAddressChecksum(c, decoded).valid
    ensures var length := CheckAddressChecksum(c, decoded).length;
            && length == |decoded| - (if |decoded| == 35 || |decoded| == 36 then 2 else 1)
            && |c.Sshash(decoded[..length])| >= 2
            && decoded == decoded[..length] + c.Sshash(decoded[..length])[..|decoded| - length]
  {
    var length := CheckAddressChecksum(c, decoded).length;
    HashLength(c, decoded[..length]);
    hide Codec.Sound, Codec.Sshash;
    assert decoded == decoded[..length] + decoded[length..];
  }

  // ----- multi-signature keys -----

  function DecodeAll(c: Codec, who: seq<Who>): Result<seq<bytes>>
    requires c.Sound()
    decreases |who|
  {
    if who == [] then Ok([])
    else
      var first :- DecodeAddress(c, who[0], None);
      var rest :- DecodeAll(c, who[1..]);
      Ok([first] + rest)
  }

  function Concat(parts: seq<bytes>): bytes {
    if parts == [] then [] else parts[0] + Concat(parts[1..])
  }

  /** The key of an account whose signatories are already sorted. */
  function KeyOfSorted(c: Codec, sorted: seq<bytes>, threshold: int): bytes {
    c.hash(KEY_MULTI_PREFIX + Compact.Bytes(|sorted|) + Concat(sorted) + BytesOf(threshold, 2, Little), 256)
  }

  method SortKeys(keys: seq<bytes>) returns (r: Result<seq<bytes>>)
    ensures r.Ok? <==> Comparable(keys)
    ensures r.Ok? ==> Sorted(r.value) && multiset(r.value) == multiset(keys)
  {
    hide Comparable, Sorted;
    var a := new bytes[|keys|](i requires 0 <= i < |keys| => keys[i]);
    assert a[..] == keys;
    var done := U8aSorted(a);
    r := if done.Ok? then Ok(a[..]) else Err(done.error);
  }

  method CreateKeyMulti(c: Codec, who: seq<Who>, threshold: int) returns (r: Result<bytes>)
    requires c.Sound()
    ensures r.Ok? <==> DecodeAll(c, who).Ok? && Comparable(DecodeAll(c, who).value)
    ensures r.Ok? ==> exists sorted :: && Sorted(sorted) && multiset(sorted) == multiset(DecodeAll(c, who).value)
                                       && r.value == KeyOfSorted(c, sorted, threshold)
  {
    hide Codec.Sound, Comparable, Sorted, Compact.Bytes, BytesOf;
    var decoded := DecodeAll(c, who);
    if decoded.Err? {
      return Err(decoded.error);
    }
    var done := SortKeys(decoded.value);
    if done.Err? {
      return Err(done.error);
    }
    var keys, sorted := decoded.value, done.value;
    assert |sorted| == |multiset(sorted)| == |multiset(keys)| == |who| by {
      DecodeAllLength(c, who);
    }
    var length := Compact.CompactToU8a(|who|);
    var t := EncodeBigInt(threshold, Little, Some(16));
    r := Ok(c.hash(KEY_MULTI_PREFIX + length + Concat(sorted) + t, 256));
  }

  lemma {:induction false} DecodeAllLength(c: Codec, who: seq<Who>)
    requires c.Sound() && DecodeAll(c, who).Ok?
    ensures |DecodeAll(c, who).value| == |who|
    decreases |who|
  {
    hide Codec.Sound;
    if who != [] {
      DecodeAllLength(c, who[1..]);
    }
  }

  /** who names the given keys: each entry is the key itself or its address under some prefix. */
  predicate Names(c: Codec, who: seq<Who>, keys: seq<bytes>, formats: seq<Option<int>>)
    requires c.Sound()
  {
    && |who| == |keys| == |formats|
    && forall i :: 0 <= i < |keys| ==>
         |keys[i]| in ALLOWED_DECODED
         && (who[i] == KeyBytes(keys[i]) || (who[i].Encoded? && EncodeAddress(c, KeyBytes(keys[i]), formats[i]) == Ok(who[i].s)))
  }

  lemma {:induction false} NamesDecode(c: Codec, who: seq<Who>, keys: seq<bytes>, formats: seq<Option<int>>)
    requires c.Sound() && Names(c, who, keys, formats)
    ensures DecodeAll(c, who) == Ok(keys)
    decreases |who|
  {
    hide EncodeAddress;
    if who != [] {
      AddressRoundTrip(c, keys[0], formats[0], None);
      NamesDecode(c, who[1..], keys[1..], formats[1..]);
      assert [keys[0]] + keys[1..] == keys;
    }
  }

  /** Whether lists can be sorted does not depend on their order. */
  lemma PermutedComparable(keys: seq<bytes>, others: seq<bytes>)
    requires Comparable(keys) && multiset(keys) == multiset(others)
    ensures Comparable(others)
  {
    hide Compare;
    forall i, j | 0 <= i < |others| && 0 <= j < |others| && i != j
      ensures Compare(others[i], others[j]).Ok?
    {
      assert others[i] in multiset(keys) && others[j] in multiset(keys);
      var p :| 0 <= p < |keys| && keys[p] == others[i];
      var q :| 0 <= q < |keys| && keys[q] == others[j];
      if p == q {
        TwiceInMultiset(others, if i < j then i else j, if i < j then j else i);
        ComparableDistinct(keys);
        OnceInMultiset(keys, p);
      }
    }
  }

  lemma ComparableDistinct(keys: seq<bytes>)
    requires Comparable(keys)
    ensures forall i, j :: 0 <= i < j < |keys| ==> keys[i] != keys[j]
  {
    hide Compare;
    forall i, j | 0 <= i < j < |keys|
      ensures keys[i] != keys[j]
    {
      CompareExact(keys[i], keys[j]);
    }
  }

  lemma TwiceInMultiset(s: seq<bytes>, i: nat, j: nat)
    requires i < j < |s| && s[i] == s[j]
    ensures multiset(s)[s[i]] >= 2
  {
    assert s == s[..j] + [s[j]] + s[j + 1..];
    assert s[i] in s[..j];
  }

  lemma OnceInMultiset(s: seq<bytes>, p: nat)
    requires p < |s| && forall i, j :: 0 <= i < j < |s| ==> s[i] != s[j]
    ensures multiset(s)[s[p]] == 1
  {
    assert s == s[..p] + [s[p]] + s[p + 1..];
    assert s[p] !in s[..p] && s[p] !in s[p + 1..];
  }

  /** The multi-signature key depends only on the set of signatories and the threshold: for two calls whose
      lists name the same keys, in any order and under any prefixes, either both fail or both give the
      same key. They succeed exactly when no key is equal to or a prefix of another, as for distinct
      keys of one length. */
  method MultiKeyIndependent(c: Codec, who: seq<Who>, others: seq<Who>, threshold: int,
                             ghost keys: seq<bytes>, ghost formats: seq<Option<int>>,
                             ghost permuted: seq<bytes>, ghost otherFormats: seq<Option<int>>)
    returns (first: Result<bytes>, second: Result<bytes>)
    requires c.Sound() && multiset(keys) == multiset(permuted)
    requires Names(c, who, keys, formats) && Names(c, others, permuted, otherFormats)
    ensures first.Ok? <==> Comparable(keys)
    ensures second.Ok? <==> Comparable(keys)
    ensures first.Ok? ==> first == second
    ensures SameLengthDistinct(keys) ==> first.Ok?
  {
    hide Comparable, Names, Sorted, Codec.Sound, SameLengthDistinct, DecodeAll;
    NamesDecode(c, who, keys, formats);
    NamesDecode(c, others, permuted, otherFormats);
    first := CreateKeyMulti(c, who, threshold);
    second := CreateKeyMulti(c, others, threshold);
    if SameLengthDistinct(keys) {
      SameLengthComparable(keys);
    }
    if Comparable(keys) {
      PermutedComparable(keys, permuted);
      ghost var s :| Sorted(s) && multiset(s) == multiset(keys) && first.value == KeyOfSorted(c, s, threshold);
      ghost var t :| Sorted(t) && multiset(t) == multiset(permuted) && second.value == KeyOfSorted(c, t, threshold);
      SortedUnique(s, t);
    } else if Comparable(permuted) {
      PermutedComparable(permuted, keys);
    }
  }

  // ----- what is hashed -----

  predicate AllOfLength(parts: seq<bytes>, n: nat) {
    forall i :: 0 <= i < |parts| ==> |parts[i]| == n
  }

  /** Reading count pieces of n bytes each, with nothing left over. */
  function Pieces(b: bytes, n: nat, count: nat): Option<seq<bytes>>
    decreases count
  {
    if count == 0 then if b == [] then Some([]) else None
    else if |b| < n then None
    else
      match Pieces(b[n..], n, count - 1)
      case None => None
      case Some(rest) => Some([b[..n]] + rest)
  }

  /** Keys of one length written after each other are read back in their order. */
  lemma {:induction false} PiecesOfConcat(parts: seq<bytes>, n: nat)
    requires AllOfLength(parts, n)
    ensures Pieces(Concat(parts), n, |parts|) == Some(parts)
    decreases |parts|
  {
    if parts != [] {
      var rest := parts[1..];
      PiecesOfConcat(rest, n);
      assert Concat(parts)[..n] == parts[0] && Concat(parts)[n..] == Concat(rest);
      assert [parts[0]] + rest == parts;
    }
  }

  /** Read from its front the input of the hash is the text "modlpy/utilisuba", the number of keys as a
      compact integer, the keys in their order, and the threshold modulo 65536 in two bytes, low byte first. */
  ghost predicate MultiInput(input: bytes, sorted: seq<bytes>, threshold: int, n: nat) {
    && |input| >= 18 && input[..16] == Ascii("modlpy/utilisuba")
    && var count := Compact.FromU8a(input[16..]);
       && count.Ok? && count.value.value == |sorted| && 16 + count.value.offset <= |input| - 2
       && Pieces(input[16 + count.value.offset..|input| - 2], n, |sorted|) == Some(sorted)
       && (input[|input| - 2] as int) + 256 * (input[|input| - 1] as int) == threshold % 0x1_0000
  }

  lemma TwoBytes(v: int)
    ensures var b := BytesOf(v, 2, Little); (b[0] as int) + 256 * (b[1] as int) == v % 0x1_0000
  {
    BytesStep(v, 2);
    BytesStep(v / 256, 1);
    TwoDigits(v);
  }

  lemma TwoDigits(v: int)
    ensures v % 256 + 256 * (v / 256 % 256) == v % 0x1_0000
  {
  }

  lemma KeyInput(c: Codec, sorted: seq<bytes>, threshold: int, n: nat) returns (input: bytes)
    requires AllOfLength(sorted, n) && Compact.Encodable(|sorted|)
    ensures KeyOfSorted(c, sorted, threshold) == c.hash(input, 256) && MultiInput(input, sorted, threshold, n)
    ensures input == KEY_MULTI_PREFIX + (Compact.Bytes(|sorted|) + (Concat(sorted) + BytesOf(threshold, 2, Little)))
  {
    hide Compact.Bytes, Compact.FromU8a, Compact.Encodable, Concat, Pieces, BytesOf, AllOfLength, Ascii;
    PrefixTexts();
    var count, keys, low := Compact.Bytes(|sorted|), Concat(sorted), BytesOf(threshold, 2, Little);
    input := KEY_MULTI_PREFIX + (count + (keys + low));
    assert input == KEY_MULTI_PREFIX + count + keys + low;
    Compact.RoundTrip(|sorted|, keys + low);
    PiecesOfConcat(sorted, n);
    TwoBytes(threshold);
    InputParts(KEY_MULTI_PREFIX, count, keys, low);
  }

  lemma InputParts(prefix: bytes, count: bytes, keys: bytes, low: bytes)
    requires |prefix| == 16 && |low| == 2
    ensures var input := prefix + (count + (keys + low));
            && |input| == 18 + |count| + |keys|
            && input[..16] == prefix && input[16..] == count + (keys + low)
            && input[16 + |count|..|input| - 2] == keys
            && input[|input| - 2] == low[0] && input[|input| - 1] == low[1]
  {
  }

  ghost predicate Injective(c: Codec) {
    forall x, y :: c.hash(x, 256) == c.hash(y, 256) ==> x == y
  }

  lemma SameLowBytes(a: int, b: int)
    ensures BytesOf(a, 2, Little) == BytesOf(b, 2, Little) <==> a % 0x1_0000 == b % 0x1_0000
  {
    hide BytesOf;
    TwoBytes(a);
    TwoBytes(b);
    var x, y := BytesOf(a, 2, Little), BytesOf(b, 2, Little);
    assert x == [x[0], x[1]] && y == [y[0], y[1]];
  }

  /** Without collisions the key tells the sorted keys and the threshold modulo 65536. */
  lemma KeyDetermines(c: Codec, s: seq<bytes>, t: seq<bytes>, a: int, b: int, n: nat)
    requires Injective(c) && AllOfLength(s, n) && AllOfLength(t, n)
    requires Compact.Encodable(|s|) && Compact.Encodable(|t|)
    ensures KeyOfSorted(c, s, a) == KeyOfSorted(c, t, b) <==> s == t && a % 0x1_0000 == b % 0x1_0000
  {
    hide Compact.Bytes, Compact.Encodable, Concat, BytesOf, MultiInput;
    var x := KeyInput(c, s, a, n);
    var y := KeyInput(c, t, b, n);
    SameLowBytes(a, b);
    if x == y {
      var p, q := Concat(s) + BytesOf(a, 2, Little), Concat(t) + BytesOf(b, 2, Little);
      assert x[16..] == Compact.Bytes(|s|) + p && y[16..] == Compact.Bytes(|t|) + q;
      Compact.PrefixFree(|s|, |t|, p, q);
      assert Concat(s) == p[..|p| - 2] && Concat(t) == q[..|q| - 2];
      assert BytesOf(a, 2, Little) == p[|p| - 2..] && BytesOf(b, 2, Little) == q[|q| - 2..];
      PiecesOfConcat(s, n);
      PiecesOfConcat(t, n);
    }
  }

  /** Two calls for accounts whose keys all have one length: what is hashed is the input described by
      `MultiInput`, and with a hash without collisions the two keys are equal exactly when the accounts
      have the same keys and the thresholds agree modulo 65536. */
  method MultiKeyDetermines(c: Codec, who: seq<Who>, others: seq<Who>, threshold: int, otherThreshold: int, ghost n: nat)
    returns (first: Result<bytes>, second: Result<bytes>)
    requires c.Sound() && Compact.Encodable(|who|) && Compact.Encodable(|others|)
    requires DecodeAll(c, who).Ok? && AllOfLength(DecodeAll(c, who).value, n)
    requires DecodeAll(c, others).Ok? && AllOfLength(DecodeAll(c, others).value, n)
    ensures first.Ok? ==>
              exists sorted, input :: && Sorted(sorted) && multiset(sorted) == multiset(DecodeAll(c, who).value)
                                      && AllOfLength(sorted, n) && MultiInput(input, sorted, threshold, n)
                                      && first.value == c.hash(input, 256)
    ensures first.Ok? && second.Ok? && Injective(c) ==>
              (first == second <==> && multiset(DecodeAll(c, who).value) == multiset(DecodeAll(c, others).value)
                                    && threshold % 0x1_0000 == otherThreshold % 0x1_0000)
  {
    hide Codec.Sound, DecodeAll, Sorted, Comparable, MultiInput, KeyOfSorted, Compact.Encodable, Injective, AllOfLength;
    first := CreateKeyMulti(c, who, threshold);
    second := CreateKeyMulti(c, others, otherThreshold);
    ghost var keys, otherKeys := DecodeAll(c, who).value, DecodeAll(c, others).value;
    if first.Ok? {
      ghost var s :| Sorted(s) && multiset(s) == multiset(keys) && first.value == KeyOfSorted(c, s, threshold);
      SortedLength(c, who, s, n);
      ghost var input := KeyInput(c, s, threshold, n);
      if second.Ok? && Injective(c) {
        ghost var t :| Sorted(t) && multiset(t) == multiset(otherKeys) && second.value == KeyOfSorted(c, t, otherThreshold);
        SortedLength(c, others, t, n);
        KeyDetermines(c, s, t, threshold, otherThreshold, n);
        if multiset(keys) == multiset(otherKeys) {
          SortedUnique(s, t);
        }
      }
    }
  }

  lemma SortedLength(c: Codec, who: seq<Who>, s: seq<bytes>, n: nat)
    requires c.Sound() && DecodeAll(c, who).Ok? && AllOfLength(DecodeAll(c, who).value, n)
    requires multiset(s) == multiset(DecodeAll(c, who).value)
    ensures |s| == |who| && AllOfLength(s, n)
  {
    hide DecodeAll, Codec.Sound;
    DecodeAllLength(c, who);
    var keys := DecodeAll(c, who).value;
    assert |s| == |multiset(s)| == |multiset(keys)| == |keys|;
    forall i | 0 <= i < |s|
      ensures |s[i]| == n
    {
      assert s[i] in multiset(keys) && s[i] in keys;
    }
  }

  // ----- sorted addresses -----

  /** The addresses of a list of keys under one prefix, all of them of an allowed length. */
  predicate Addresses(c: Codec, keys: seq<bytes>, ss58Format: Option<int>, addresses: seq<string>)
    requires c.Sound()
  {
    && |addresses| == |keys|
    && forall i :: 0 <= i < |keys| ==>
         |keys[i]| in ALLOWED_DECODED && EncodeAddress(c, KeyBytes(keys[i]), ss58Format) == Ok(addresses[i])
  }

  lemma EncodeKey(c: Codec, key: bytes, ss58Format: Option<int>)
    requires c.Sound()
    ensures EncodeAddress(c, KeyBytes(key), ss58Format).Ok? <==> |key| in ALLOWED_DECODED
  {
  }

  lemma AddressesSnoc(c: Codec, keys: seq<bytes>, i: nat, ss58Format: Option<int>, out: seq<string>, s: string)
    requires c.Sound() && i < |keys| && Addresses(c, keys[..i], ss58Format, out)
    requires |keys[i]| in ALLOWED_DECODED && EncodeAddress(c, KeyBytes(keys[i]), ss58Format) == Ok(s)
    ensures Addresses(c, keys[..i + 1], ss58Format, out + [s])
  {
    hide Codec.Sound, EncodeAddress;
    assert keys[..i + 1] == keys[..i] + [keys[i]];
  }

  lemma AllAllowed(c: Codec, keys: seq<bytes>, others: seq<bytes>, ss58Format: Option<int>, out: seq<string>)
    requires c.Sound() && Addresses(c, keys, ss58Format, out) && multiset(keys) == multiset(others)
    ensures forall key :: key in multiset(others) ==> |key| in ALLOWED_DECODED
  {
    hide Codec.Sound, EncodeAddress;
    forall key | key in multiset(others)
      ensures |key| in ALLOWED_DECODED
    {
      assert key in multiset(keys) && key in keys;
    }
  }

  method SortAddresses(c: Codec, addresses: seq<Who>, ss58Format: Option<int>)
    returns (r: Result<seq<string>>, ghost sorted: seq<bytes>)
    requires c.Sound()
    ensures r.Ok? <==> && DecodeAll(c, addresses).Ok? && Comparable(DecodeAll(c, addresses).value)
                       && forall key :: key in multiset(DecodeAll(c, addresses).value) ==> |key| in ALLOWED_DECODED
    ensures r.Ok? ==> && Sorted(sorted) && multiset(sorted) == multiset(DecodeAll(c, addresses).value)
                      && Addresses(c, sorted, ss58Format, r.value)
  {
    hide Codec.Sound, Comparable, Sorted, EncodeAddress, DecodeAll;
    sorted := [];
    var decoded := DecodeAll(c, addresses);
    if decoded.Err? {
      return Err(decoded.error), sorted;
    }
    var done := SortKeys(decoded.value);
    if done.Err? {
      return Err(done.error), sorted;
    }
    var keys := done.value;
    sorted := keys;
    var out: seq<string> := [];
    assert Addresses(c, keys[..0], ss58Format, out);
    hide Addresses;
    for i := 0 to |keys|
      invariant Addresses(c, keys[..i], ss58Format, out)
    {
      EncodeKey(c, keys[i], ss58Format);
      var s := EncodeAddress(c, KeyBytes(keys[i]), ss58Format);
      if s.Err? {
        assert keys[i] in multiset(keys);
        return Err(s.error), sorted;
      }
      AddressesSnoc(c, keys, i, ss58Format, out, s.value);
      out := out + [s.value];
    }
    assert keys[..|keys|] == keys;
    AllAllowed(c, keys, decoded.value, ss58Format, out);
    r := Ok(out);
  }

  function AllEncoded(addresses: seq<string>): (who: seq<Who>)
    ensures |who| == |addresses| && forall i :: 0 <= i < |who| ==> who[i] == Encoded(addresses[i])
  {
    seq(|addresses|, i requires 0 <= i < |addresses| => Encoded(addresses[i]))
  }

  lemma AddressesUnique(c: Codec, keys: seq<bytes>, ss58Format: Option<int>, a: seq<string>, b: seq<string>)
    requires c.Sound() && Addresses(c, keys, ss58Format, a) && Addresses(c, keys, ss58Format, b)
    ensures a == b
  {
    hide Codec.Sound, EncodeAddress;
  }

  /** Addresses decode to their keys, in order. */
  lemma AddressesDecode(c: Codec, keys: seq<bytes>, ss58Format: Option<int>, addresses: seq<string>)
    requires c.Sound() && Addresses(c, keys, ss58Format, addresses)
    ensures DecodeAll(c, AllEncoded(addresses)) == Ok(keys)
    ensures forall key :: key in multiset(keys) ==> |key| in ALLOWED_DECODED
  {
    hide Codec.Sound, EncodeAddress;
    NamesDecode(c, AllEncoded(addresses), keys, Repeat(ss58Format, |keys|));
    assert forall key :: key in multiset(keys) ==> key in keys;
  }

  /** Sorting the sorted addresses again changes nothing: they decode to the sorted keys. */
  method SortAddressesAgain(c: Codec, addresses: seq<Who>, ss58Format: Option<int>)
    returns (once: Result<seq<string>>, twice: Result<seq<string>>)
    requires c.Sound()
    ensures once.Ok? ==> twice == once
  {
    hide Codec.Sound, Comparable, Sorted, EncodeAddress, Addresses, DecodeAll;
    ghost var keys: seq<bytes>, again: seq<bytes>;
    once, keys := SortAddresses(c, addresses, ss58Format);
    twice := once;
    if once.Ok? {
      AddressesDecode(c, keys, ss58Format, once.value);
      SortedIsComparable(keys);
      twice, again := SortAddresses(c, AllEncoded(once.value), ss58Format);
      SortedUnique(keys, again);
      AddressesUnique(c, keys, ss58Format, once.value, twice.value);
    }
  }
}
