/** Derivation paths of lib/util_crypto/key.dart: junctions, the path parser and the key fold. */
module KeyPath {
  import opened Basics
  import opened Numbers
  import Compact
  import R = Radix

  const JUNCTION_ID_LEN: nat := 32

  /** The library calls the junctions use: a 32-byte hash and the UTF-8 encoder. */
  datatype Library = Library(blake2: bytes -> bytes, utf8: string -> bytes) {
    ghost predicate Sound() {
      forall b :: |blake2(b)| == 32
    }
  }

  // ----- hexadecimal strings -----

  function HexDigits(b: bytes): (s: string)
    ensures |s| == 2 * |b| && R.AllDigits(s, 16)
  {
    if b == [] then "" else [R.DigitChar(b[0] / 16), R.DigitChar(b[0] % 16)] + HexDigits(b[1..])
  }

  predicate IsHex(s: string) {
    |s| >= 2 && |s| % 2 == 0 && s[0] == '0' && s[1] == 'x' && R.AllDigits(s[2..], 16)
  }

  function HexToU8a(s: string): bytes
    requires IsHex(s)
  {
    seq((|s| - 2) / 2, i requires 0 <= i < (|s| - 2) / 2 =>
      assert s[2 + 2 * i] == s[2..][2 * i] && s[3 + 2 * i] == s[2..][2 * i + 1];
      R.CharDigit(s[2 + 2 * i]) * 16 + R.CharDigit(s[3 + 2 * i]))
  }

  lemma {:induction false} HexDigitAt(b: bytes, i: nat)
    requires i < |b|
    ensures HexDigits(b)[2 * i] == R.DigitChar(b[i] / 16) && HexDigits(b)[2 * i + 1] == R.DigitChar(b[i] % 16)
  {
    if i > 0 {
      HexDigitAt(b[1..], i - 1);
    }
  }

  lemma HexRoundTrip(b: bytes)
    ensures IsHex("0x" + HexDigits(b)) && HexToU8a("0x" + HexDigits(b)) == b
  {
    hide HexDigits;
    var s := "0x" + HexDigits(b);
    assert s[2..] == HexDigits(b);
    forall i | 0 <= i < |b|
      ensures HexToU8a(s)[i] == b[i]
    {
      HexDigitAt(b, i);
      R.DigitOfChar(b[i] / 16);
      R.DigitOfChar(b[i] % 16);
      assert s[2 + 2 * i] == HexDigits(b)[2 * i] && s[3 + 2 * i] == HexDigits(b)[2 * i + 1];
    }
  }

  // ----- junctions -----

  datatype JunctionValue = Number(n: int) | Text(t: string) | Raw(b: bytes)

  datatype Junction = Junction(chainCode: bytes, isHard: bool)

  /** What `soft` stores for a value: numbers go through their 32-byte little-endian hexadecimal form,
      text through hexadecimal or its length-prefixed UTF-8 bytes, long byte lists through the hash. */
  function ChainCode(lib: Library, v: JunctionValue): bytes {
    match v
    case Number(n) => BytesLE(n, 32)
    case Text(t) => if IsHex(t) then RawCode(lib, HexToU8a(t)) else RawCode(lib, Compact.AddLength(lib.utf8(t)))
    case Raw(b) => RawCode(lib, b)
  }

  function RawCode(lib: Library, b: bytes): bytes {
    if |b| > JUNCTION_ID_LEN then lib.blake2(b) else b + Repeat(0, JUNCTION_ID_LEN - |b|)
  }

  // ----- what a chain code is, read back from its bytes -----

  /** Up to 32 bytes are stored with zeros after them, more as their hash. */
  ghost predicate HoldsBytes(lib: Library, code: bytes, b: bytes)
    requires |code| == 32
  {
    if |b| <= 32 then code[..|b|] == b && forall i :: |b| <= i < 32 ==> code[i] == 0
    else code == lib.blake2(b)
  }

  /** Text is stored with its length in front: a text of up to 31 bytes can be stripped off the code and only
      zeros follow, and of a longer one the code is the hash of what strips to it. */
  ghost predicate HoldsText(lib: Library, code: bytes, u: bytes)
    requires |code| == 32
  {
    if |u| <= 31 then
      && Compact.StripLength(code) == Ok(Compact.Stripped(1 + |u|, u))
      && forall i :: 1 + |u| <= i < 32 ==> code[i] == 0
    else
      Compact.Encodable(|u|) ==>
        exists x :: code == lib.blake2(x) && Compact.StripLength(x) == Ok(Compact.Stripped(|x|, u))
  }

  /** The chain code of the name of a step: of a decimal number its value, low byte first; of hexadecimal text
      the bytes it stands for; of any other text its UTF-8 bytes. */
  ghost predicate CodeOf(lib: Library, name: string, code: bytes) {
    && |code| == 32
    && if name != "" && forall i :: 0 <= i < |name| ==> '0' <= name[i] <= '9' then
         ValueLE(code) == R.DigitsValue(name, 10)
       else if HexText(name) then
         exists b: bytes :: 2 * |b| + 2 == |name| && ReadsHex(name, b) && HoldsBytes(lib, code, b)
       else HoldsText(lib, code, lib.utf8(name))
  }

  predicate HexText(name: string) {
    && |name| >= 2 && |name| % 2 == 0 && name[..2] == "0x"
    && forall i :: 2 <= i < |name| ==> '0' <= name[i] <= '9' || 'a' <= name[i] <= 'f' || 'A' <= name[i] <= 'F'
  }

  predicate ReadsHex(name: string, b: bytes) {
    && 2 * |b| + 2 == |name|
    && forall i :: 0 <= i < |b| ==> b[i] == R.CharDigit(name[2 + 2 * i]) * 16 + R.CharDigit(name[3 + 2 * i])
  }

  lemma RawCodeExact(lib: Library, b: bytes)
    requires lib.Sound()
    ensures |RawCode(lib, b)| == 32 && HoldsBytes(lib, RawCode(lib, b), b)
  {
    if |b| <= 32 {
      assert RawCode(lib, b)[..|b|] == b;
    }
  }

  lemma TextCodeExact(lib: Library, u: bytes)
    requires lib.Sound()
    ensures |RawCode(lib, Compact.AddLength(u))| == 32
    ensures HoldsText(lib, RawCode(lib, Compact.AddLength(u)), u)
  {
    hide Compact.StripLength, Compact.Bytes, Compact.Encodable;
    var framed := Compact.AddLength(u);
    RawCodeExact(lib, framed);
    if |u| <= 31 {
      Compact.BytesOne(|u|);
      Compact.SmallEncodable(|u|);
      Compact.StripAdded(u, Repeat(0, 31 - |u|));
    } else {
      LongFrame(u);
      if Compact.Encodable(|u|) {
        Compact.StripAdded(u, []);
        assert framed + [] == framed;
      }
    }
  }

  lemma LongFrame(u: bytes)
    requires |u| > 31
    ensures |Compact.AddLength(u)| > 32
  {
    hide Compact.Bytes;
    Compact.BytesNonempty(|u|);
  }

  lemma HexSame(name: string)
    ensures IsHex(name) <==> HexText(name)
    ensures IsHex(name) ==> ReadsHex(name, HexToU8a(name))
  {
    if |name| >= 2 {
      assert name[..2] == [name[0], name[1]];
      assert forall i :: 2 <= i < |name| ==> name[i] == name[2..][i - 2];
      assert forall i :: 0 <= i < |name[2..]| ==> name[2..][i] == name[i + 2];
    }
  }

  /** What `soft` stores: a number modulo 2^256, low byte first; bytes; hexadecimal text; other text. */
  lemma ChainCodeExact(lib: Library, v: JunctionValue)
    requires lib.Sound()
    ensures |ChainCode(lib, v)| == 32
    ensures Pow(256, 32) == Pow(2, 256) > 0
    ensures v.Number? ==> ValueLE(ChainCode(lib, v)) == v.n % Pow(2, 256)
    ensures v.Raw? ==> HoldsBytes(lib, ChainCode(lib, v), v.b)
    ensures v.Text? && HexText(v.t) ==>
              exists b: bytes :: 2 * |b| + 2 == |v.t| && ReadsHex(v.t, b) && HoldsBytes(lib, ChainCode(lib, v), b)
    ensures v.Text? && !HexText(v.t) ==> HoldsText(lib, ChainCode(lib, v), lib.utf8(v.t))
  {
    hide HoldsBytes, HoldsText, RawCode, ReadsHex, HexText, IsHex, HexToU8a, Pow, BytesLE, ValueLE, Compact.AddLength;
    PowerOf256(32);
    PowPositive(256, 32);
    match v
    case Number(n) => NumberRoundTrip(n, 32, Little);
    case Raw(b) => RawCodeExact(lib, b);
    case Text(t) =>
      HexSame(t);
      if IsHex(t) {
        RawCodeExact(lib, HexToU8a(t));
      } else {
        TextCodeExact(lib, lib.utf8(t));
      }
  }

  /** The code of a name, as the path parser makes it. */
  lemma NameCode(lib: Library, name: string)
    requires lib.Sound() && CodeValue(name).Ok?
    ensures CodeOf(lib, name, ChainCode(lib, CodeValue(name).value))
  {
    hide HoldsBytes, HoldsText, HexText, ReadsHex, ChainCode, R.DigitsValue, ValueLE, Pow;
    ChainCodeExact(lib, CodeValue(name).value);
    if IsNumber(name) {
      SmallNumber(R.DigitsValue(name, 10));
    }
  }

  lemma SmallNumber(n: nat)
    requires n <= 0x7FFF_FFFF_FFFF_FFFF
    ensures Pow(2, 256) > 0 && n % Pow(2, 256) == n
  {
    SixtyFourBits();
    hide Pow;
    PowGrows(2, 64, 256);
    ModUnique(n, n, 0, Pow(2, 256));
  }

  lemma SixtyFourBits()
    ensures Pow(2, 64) == 0x1_0000_0000_0000_0000
  {
    PowAdd(2, 8, 8);
    PowAdd(2, 16, 16);
    PowAdd(2, 32, 32);
  }

  lemma ChainCodeLength(lib: Library, v: JunctionValue)
    requires lib.Sound()
    ensures |ChainCode(lib, v)| == JUNCTION_ID_LEN
  {
  }

  /** `^\d+$` */
  predicate IsNumber(code: string) {
    code != "" && forall i :: 0 <= i < |code| ==> '0' <= code[i] <= '9'
  }

  /** `int.parse` throws above the largest 64-bit integer. */
  predicate NumberFits(code: string) {
    IsNumber(code) ==> R.DigitsValue(code, 10) <= 0x7FFF_FFFF_FFFF_FFFF
  }

  function CodeValue(code: string): Result<JunctionValue> {
    if !IsNumber(code) then Ok(Text(code))
    else if NumberFits(code) then Ok(Number(R.DigitsValue(code, 10)))
    else Err("FormatException")
  }

  /** `DeriveJunction.from` as a value. */
  function JunctionFrom(lib: Library, value: string): Result<Junction> {
    var isHard := |value| > 0 && value[0] == '/';
    var v :- CodeValue(if isHard then value[1..] else value);
    Ok(Junction(ChainCode(lib, v), isHard))
  }

  /** What `DeriveJunction.from` makes of any text: hard with a slash in front, and the code of what follows
      the slash, unless that is a number beyond 64 bits. */
  lemma JunctionExact(lib: Library, value: string)
    requires lib.Sound()
    ensures var hard := value != "" && value[0] == '/';
            var name := if hard then value[1..] else value;
            var j := JunctionFrom(lib, value);
            && (j.Ok? <==> NumberFits(name))
            && (j.Ok? ==> j.value.isHard == hard && CodeOf(lib, name, j.value.chainCode))
  {
    hide CodeOf, ChainCode;
    var name := if value != "" && value[0] == '/' then value[1..] else value;
    if CodeValue(name).Ok? {
      NameCode(lib, name);
    }
  }

  class DeriveJunction {
    const lib: Library
    const code: array<byte>
    var hardened: bool

    ghost predicate Valid() {
      lib.Sound() && code.Length == JUNCTION_ID_LEN
    }

    function View(): Junction
      reads this, code
    {
      Junction(code[..], hardened)
    }

    constructor (lib: Library)
      requires lib.Sound()
      ensures Valid() && fresh(code) && this.lib == lib && View() == Junction(Repeat(0, JUNCTION_ID_LEN), false)
    {
      this.lib := lib;
      var zeros := new byte[JUNCTION_ID_LEN](_ => 0);
      this.code := zeros;
      this.hardened := false;
    }

    method Harden()
      modifies this`hardened
      ensures View() == Junction(old(View()).chainCode, true)
    {
      hardened := true;
    }

    method Soften()
      modifies this`hardened
      ensures View() == Junction(old(View()).chainCode, false)
    {
      hardened := false;
    }

    /** `soft`: calls itself on the converted value at most three times. */
    method Soft(value: JunctionValue)
      requires Valid()
      modifies code
      ensures View() == Junction(ChainCode(lib, value), old(View()).isHard)
      decreases if value.Number? then 3 else if value.Text? then 2 else if |value.b| > JUNCTION_ID_LEN then 1 else 0
    {
      hide HexDigits, HexToU8a;
      match value
      case Number(n) =>
        var b := EncodeBigInt(n, Little, Some(256));
        HexRoundTrip(b);
        Soft(Text("0x" + HexDigits(b)));
        assert b + Repeat(0, 0) == b;
      case Text(t) =>
        if IsHex(t) {
          Soft(Raw(HexToU8a(t)));
        } else {
          Soft(Raw(Compact.AddLength(lib.utf8(t))));
        }
      case Raw(b) =>
        if |b| > JUNCTION_ID_LEN {
          Soft(Raw(lib.blake2(b)));
          assert lib.blake2(b) + Repeat(0, 0) == lib.blake2(b);
        } else {
          forall i | 0 <= i < code.Length {
            code[i] := if i < |b| then b[i] else 0;
          }
          assert code[..] == b + Repeat(0, JUNCTION_ID_LEN - |b|);
        }
    }

    static method From(lib: Library, value: string) returns (r: Result<DeriveJunction>)
      requires lib.Sound()
      ensures JunctionFrom(lib, value).Err? ==> r.Err?
      ensures JunctionFrom(lib, value).Ok? ==> r.Ok? && fresh(r.value) && fresh(r.value.code)
      ensures JunctionFrom(lib, value).Ok? ==> r.value.View() == JunctionFrom(lib, value).value
    {
      var result := new DeriveJunction(lib);
      var isHard := |value| > 0 && value[0] == '/';
      var v := CodeValue(if isHard then value[1..] else value);
      if v.Err? {
        return Err(v.error);
      }
      result.Soft(v.value);
      if isHard {
        result.Harden();
      }
      r := Ok(result);
    }
  }

  // ----- the path parser -----

  /** How many characters at the front of s are not a slash. */
  function NameLength(s: string): (k: nat)
    ensures k <= |s| && (forall i :: 0 <= i < k ==> s[i] != '/') && (k < |s| ==> s[k] == '/')
  {
    if s == "" || s[0] == '/' then 0 else 1 + NameLength(s[1..])
  }

  /** The length of the match of `(//?)([^/]+)` at the front of s, 0 if there is none. */
  function MatchLength(s: string): (k: nat)
    ensures k <= |s|
  {
    if s == "" || s[0] != '/' then 0
    else
      var slashes := if |s| > 1 && s[1] == '/' then 2 else 1;
      var name := NameLength(s[slashes..]);
      if name > 0 then slashes + name else 0
  }

  /** `regJunction.allMatches(s)`: matches from left to right, skipping characters that start none. */
  function AllMatches(s: string): seq<string>
    decreases |s|
  {
    if s == "" then []
    else if MatchLength(s) > 0 then [s[..MatchLength(s)]] + AllMatches(s[MatchLength(s)..])
    else AllMatches(s[1..])
  }

  function Join(parts: seq<string>): string {
    if parts == [] then "" else parts[0] + Join(parts[1..])
  }

  datatype ExtractResult = ExtractResult(parts: seq<string>, path: seq<Junction>)

  function Junctions(lib: Library, parts: seq<string>): Result<seq<Junction>> {
    if parts == [] then Ok([])
    else if parts[0] == "" then Err("RangeError")
    else
      var first :- JunctionFrom(lib, parts[0][1..]);
      var rest :- Junctions(lib, parts[1..]);
      Ok([first] + rest)
  }

  function ExtractPath(lib: Library, derivePath: string): Result<ExtractResult> {
    var parts := AllMatches(derivePath);
    var path :- Junctions(lib, parts);
    if Join(parts) != derivePath then Err("Re-constructed path does not match input")
    else Ok(ExtractResult(parts, path))
  }

  method KeyExtractPath(lib: Library, derivePath: string) returns (r: Result<ExtractResult>)
    requires lib.Sound()
    ensures r.Ok? <==> ExtractPath(lib, derivePath).Ok?
    ensures r.Ok? ==> r == ExtractPath(lib, derivePath)
  {
    var parts := AllMatches(derivePath);
    var path: seq<Junction> := [];
    MatchesNonempty(derivePath);
    for i := 0 to |parts|
      invariant Junctions(lib, parts).Ok? <==> Junctions(lib, parts[i..]).Ok?
      invariant Junctions(lib, parts).Ok? ==> Junctions(lib, parts).value == path + Junctions(lib, parts[i..]).value
    {
      assert parts[i..][0] == parts[i] && parts[i..][1..] == parts[i + 1..];
      assert parts[i] != "";
      var j := DeriveJunction.From(lib, parts[i][1..]);
      if j.Err? {
        return Err(j.error);
      }
      path := path + [j.value.View()];
    }
    assert parts[|parts|..] == [] && path + [] == path;
    if Join(parts) != derivePath {
      return Err("Re-constructed path does not match input");
    }
    r := Ok(ExtractResult(parts, path));
  }

  lemma {:induction false} MatchesNonempty(s: string)
    ensures forall i :: 0 <= i < |AllMatches(s)| ==> AllMatches(s)[i] != ""
    decreases |s|
  {
    hide MatchLength;
    if s != "" {
      var k := MatchLength(s);
      if k > 0 {
        MatchesNonempty(s[k..]);
      } else {
        MatchesNonempty(s[1..]);
      }
    }
  }

  // ----- the grammar of paths -----

  /** One step of a path: two slashes when hard, one when soft, and a name without slashes. */
  datatype Segment = Segment(hard: bool, name: string) {
    predicate Proper() {
      name != "" && forall i :: 0 <= i < |name| ==> name[i] != '/'
    }

    function Print(): string {
      (if hard then "//" else "/") + name
    }
  }

  predicate Proper(segs: seq<Segment>) {
    forall i :: 0 <= i < |segs| ==> segs[i].Proper()
  }

  function Printed(segs: seq<Segment>): (parts: seq<string>)
    ensures |parts| == |segs| && forall i :: 0 <= i < |segs| ==> parts[i] == segs[i].Print()
  {
    seq(|segs|, i requires 0 <= i < |segs| => segs[i].Print())
  }

  lemma {:induction false} NameLengthExact(name: string, t: string)
    requires forall i :: 0 <= i < |name| ==> name[i] != '/'
    requires t == "" || t[0] == '/'
    ensures NameLength(name + t) == |name|
  {
    if name != "" {
      NameLengthExact(name[1..], t);
      assert (name + t)[1..] == name[1..] + t;
    }
  }

  /** A printed segment followed by nothing or by a slash is read as exactly that segment. */
  lemma SegmentMatches(g: Segment, t: string)
    requires g.Proper() && (t == "" || t[0] == '/')
    ensures MatchLength(g.Print() + t) == |g.Print()|
  {
    var s := g.Print() + t;
    NameLengthExact(g.name, t);
    if g.hard {
      assert s[2..] == g.name + t;
    } else {
      assert s[1] == g.name[0];
      assert s[1..] == g.name + t;
    }
  }

  lemma {:induction false} PrintedMatches(segs: seq<Segment>)
    requires Proper(segs)
    ensures AllMatches(Join(Printed(segs))) == Printed(segs)
    ensures Join(Printed(segs)) == "" || Join(Printed(segs))[0] == '/'
  {
    hide MatchLength;
    if segs != [] {
      var t := Join(Printed(segs[1..]));
      PrintedMatches(segs[1..]);
      assert Printed(segs)[1..] == Printed(segs[1..]);
      SegmentMatches(segs[0], t);
      var s := segs[0].Print() + t;
      assert s[|segs[0].Print()|..] == t && s[..|segs[0].Print()|] == segs[0].Print();
    }
  }

  /** The segment a match stands for. */
  function SegmentOf(part: string): Segment {
    if |part| > 1 && part[1] == '/' then Segment(true, part[2..])
    else Segment(false, if part == "" then "" else part[1..])
  }

  lemma MatchIsSegment(s: string)
    requires MatchLength(s) > 0
    ensures var g := SegmentOf(s[..MatchLength(s)]); g.Proper() && g.Print() == s[..MatchLength(s)]
  {
    var part := s[..MatchLength(s)];
    var slashes := if |s| > 1 && s[1] == '/' then 2 else 1;
    assert part == s[..slashes] + part[slashes..];
    forall i | 0 <= i < |part[slashes..]|
      ensures part[slashes..][i] != '/'
    {
      assert part[slashes..][i] == s[slashes..][i];
    }
    if slashes == 2 {
      assert s[..2] == "//";
    } else {
      assert s[..1] == "/" && part[1] != '/';
    }
  }

  lemma {:induction false} MatchesArePrinted(s: string) returns (segs: seq<Segment>)
    ensures Proper(segs) && Printed(segs) == AllMatches(s)
    decreases |s|
  {
    hide MatchLength, SegmentOf, Segment.Proper, Segment.Print;
    if s == "" {
      segs := [];
    } else if MatchLength(s) > 0 {
      var k := MatchLength(s);
      var rest := MatchesArePrinted(s[k..]);
      MatchIsSegment(s);
      segs := [SegmentOf(s[..k])] + rest;
      assert Printed(segs) == [s[..k]] + Printed(rest);
    } else {
      segs := MatchesArePrinted(s[1..]);
    }
  }

  /** A path prints in one way only. */
  lemma PathUnique(segs: seq<Segment>, others: seq<Segment>)
    requires Proper(segs) && Proper(others) && Join(Printed(segs)) == Join(Printed(others))
    ensures segs == others
  {
    PrintedMatches(segs);
    PrintedMatches(others);
    forall i | 0 <= i < |segs|
      ensures segs[i] == others[i]
    {
      assert Printed(segs)[i] == Printed(others)[i];
      PrintInjective(segs[i], others[i]);
    }
  }

  lemma PrintInjective(g: Segment, h: Segment)
    requires g.Proper() && h.Proper() && g.Print() == h.Print()
    ensures g == h
  {
    var s := g.Print();
    assert s[1] == (if g.hard then '/' else g.name[0]) && s[1] == (if h.hard then '/' else h.name[0]);
    if g.hard {
      assert g.name == s[2..] && h.name == s[2..];
    } else {
      assert g.name == s[1..] && h.name == s[1..];
    }
  }

  /** The junction of one segment: hard as printed, from the value of its name. */
  lemma JunctionOfSegment(lib: Library, g: Segment)
    requires g.Proper() && lib.Sound()
    ensures g.Print() != ""
    ensures var j := JunctionFrom(lib, g.Print()[1..]);
            && (j.Ok? <==> NumberFits(g.name))
            && (j.Ok? ==> j.value.isHard == g.hard && |j.value.chainCode| == 32 && CodeOf(lib, g.name, j.value.chainCode))
  {
    hide NumberFits, JunctionFrom;
    var value := g.Print()[1..];
    if g.hard {
      assert value == "/" + g.name && value[1..] == g.name;
    } else {
      assert value == g.name;
    }
    JunctionExact(lib, value);
  }

  ghost predicate Fits(lib: Library, g: Segment, j: Junction) {
    && j.isHard == g.hard && |j.chainCode| == 32 && CodeOf(lib, g.name, j.chainCode)
    && g.Print() != "" && JunctionFrom(lib, g.Print()[1..]) == Ok(j)
  }

  ghost predicate AllNumbersFit(segs: seq<Segment>) {
    forall i :: 0 <= i < |segs| ==> NumberFits(segs[i].name)
  }

  ghost predicate AllFit(lib: Library, segs: seq<Segment>, js: seq<Junction>) {
    |js| == |segs| && forall i :: 0 <= i < |segs| ==> Fits(lib, segs[i], js[i])
  }

  lemma NumbersOfTail(segs: seq<Segment>)
    requires segs != []
    ensures AllNumbersFit(segs) <==> NumberFits(segs[0].name) && AllNumbersFit(segs[1..])
  {
    hide NumberFits;
    if AllNumbersFit(segs[1..]) {
      forall i | 0 < i < |segs|
        ensures NumberFits(segs[1..][i - 1].name) && segs[i] == segs[1..][i - 1]
      {
      }
    }
  }

  lemma FitsCons(lib: Library, segs: seq<Segment>, j: Junction, js: seq<Junction>)
    requires segs != [] && Fits(lib, segs[0], j) && AllFit(lib, segs[1..], js)
    ensures AllFit(lib, segs, [j] + js)
  {
    hide Fits;
    forall i | 0 < i < |segs|
      ensures Fits(lib, segs[i], ([j] + js)[i])
    {
      assert segs[i] == segs[1..][i - 1] && ([j] + js)[i] == js[i - 1];
    }
  }

  lemma {:induction false} JunctionsOfSegments(lib: Library, segs: seq<Segment>)
    requires Proper(segs) && lib.Sound()
    ensures var js := Junctions(lib, Printed(segs));
            && (js.Ok? <==> AllNumbersFit(segs))
            && (js.Ok? ==> AllFit(lib, segs, js.value))
  {
    hide JunctionFrom, NumberFits;
    if segs != [] {
      hide AllNumbersFit, AllFit;
      JunctionOfSegment(lib, segs[0]);
      JunctionsOfSegments(lib, segs[1..]);
      NumbersOfTail(segs);
      var js := Junctions(lib, Printed(segs[1..]));
      assert Printed(segs)[1..] == Printed(segs[1..]);
      if js.Ok? && NumberFits(segs[0].name) {
        FitsCons(lib, segs, JunctionFrom(lib, segs[0].Print()[1..]).value, js.value);
      }
    }
  }

  /** The parts are the printed segments, and each junction has the hardness and the code of its segment. */
  ghost predicate Follows(lib: Library, r: ExtractResult, segs: seq<Segment>) {
    && r.parts == Printed(segs) && |r.path| == |segs|
    && (forall i :: 0 <= i < |segs| ==> r.path[i].isHard == segs[i].hard && CodeOf(lib, segs[i].name, r.path[i].chainCode))
  }

  /** The parser accepts exactly the printed forms of proper segments whose all-digit names fit a
      64-bit integer; the parts print back to the path, and junction i is hard exactly when segment i
      is and carries the code of its name. */
  lemma ExtractExact(lib: Library, path: string)
    requires lib.Sound()
    ensures ExtractPath(lib, path).Ok? <==>
              exists segs: seq<Segment> :: Proper(segs) && Join(Printed(segs)) == path
                                           && forall i :: 0 <= i < |segs| ==> NumberFits(segs[i].name)
    ensures forall segs: seq<Segment> :: Proper(segs) && Join(Printed(segs)) == path && ExtractPath(lib, path).Ok? ==>
              Follows(lib, ExtractPath(lib, path).value, segs)
  {
    hide JunctionFrom, NumberFits, CodeOf, MatchLength, AllMatches;
    var segs := MatchesArePrinted(path);
    JunctionsOfSegments(lib, segs);
    forall others: seq<Segment> | Proper(others) && Join(Printed(others)) == path
      ensures others == segs && Join(AllMatches(path)) == path
    {
      PrintedMatches(others);
      PathUnique(segs, others) by {
        assert Printed(segs) == Printed(others);
      }
    }
    if ExtractPath(lib, path).Ok? {
      assert Proper(segs) && Join(Printed(segs)) == path;
    }
  }

  // ----- the key fold -----

  /** The derivation of one key type; only sr25519 supports soft junctions. */
  datatype Deriver = Deriver(supportsSoft: bool, hard: (Keys, bytes) -> Result<Keys>, soft: (Keys, bytes) -> Result<Keys>) {
    function Derive(keys: Keys, j: Junction): Result<Keys> {
      if j.isHard then hard(keys, j.chainCode)
      else if supportsSoft then soft(keys, j.chainCode)
      else Err("A soft key was found in the path (and is unsupported)")
    }
  }

  function KeyFromPath(d: Deriver, keys: Keys, path: seq<Junction>): Result<Keys>
    decreases |path|
  {
    if path == [] then Ok(keys)
    else
      var next :- d.Derive(keys, path[0]);
      KeyFromPath(d, next, path[1..])
  }

  /** Deriving along p followed by q is deriving along p and then along q. */
  lemma {:induction false} KeyFromConcat(d: Deriver, keys: Keys, p: seq<Junction>, q: seq<Junction>)
    ensures KeyFromPath(d, keys, p + q)
         == match KeyFromPath(d, keys, p)
            case Ok(middle) => KeyFromPath(d, middle, q)
            case Err(e) => Err(e)
    decreases |p|
  {
    if p == [] {
      assert p + q == q;
    } else {
      assert (p + q)[1..] == p[1..] + q;
      var next := d.Derive(keys, p[0]);
      if next.Ok? {
        KeyFromConcat(d, next.value, p[1..], q);
      }
    }
  }

  /** One key is made from another by the hard or the soft function of the key type with the chain code. */
  predicate StepTo(d: Deriver, j: Junction, k: Keys, next: Keys) {
    if j.isHard then d.hard(k, j.chainCode) == Ok(next)
    else d.supportsSoft && d.soft(k, j.chainCode) == Ok(next)
  }

  /** Deriving steps through keys, one step for each junction. */
  predicate Steps(d: Deriver, path: seq<Junction>, ks: seq<Keys>) {
    |ks| == |path| + 1 && forall i :: 0 <= i < |path| ==> StepTo(d, path[i], ks[i], ks[i + 1])
  }

  lemma StepsOfTail(d: Deriver, path: seq<Junction>, k: Keys, rest: seq<Keys>)
    requires path != [] && rest != []
    ensures Steps(d, path, [k] + rest) <==> StepTo(d, path[0], k, rest[0]) && Steps(d, path[1..], rest)
  {
    hide StepTo;
    var ks := [k] + rest;
    assert ks[1..] == rest && ks[0] == k && ks[1] == rest[0];
    if Steps(d, path, ks) {
      assert StepTo(d, path[0], ks[0], ks[0 + 1]);
      forall i | 0 <= i < |path[1..]|
        ensures StepTo(d, path[1..][i], rest[i], rest[i + 1])
      {
        assert StepTo(d, path[i + 1], ks[i + 1], ks[i + 1 + 1]);
      }
    }
    if Steps(d, path[1..], rest) && StepTo(d, path[0], k, rest[0]) {
      forall i | 0 <= i < |path|
        ensures StepTo(d, path[i], ks[i], ks[i + 1])
      {
        assert i > 0 ==> StepTo(d, path[1..][i - 1], rest[i - 1], rest[i - 1 + 1]);
      }
    }
  }

  lemma {:induction false} KeySteps(d: Deriver, keys: Keys, path: seq<Junction>) returns (ks: seq<Keys>)
    requires KeyFromPath(d, keys, path).Ok?
    ensures Steps(d, path, ks) && ks[0] == keys && ks[|path|] == KeyFromPath(d, keys, path).value
    decreases |path|
  {
    if path == [] {
      ks := [keys];
    } else {
      var rest := KeySteps(d, d.Derive(keys, path[0]).value, path[1..]);
      StepsOfTail(d, path, keys, rest);
      ks := [keys] + rest;
    }
  }

  lemma {:induction false} StepsAreTaken(d: Deriver, path: seq<Junction>, ks: seq<Keys>)
    requires Steps(d, path, ks)
    ensures KeyFromPath(d, ks[0], path) == Ok(ks[|path|])
    decreases |path|
  {
    if path != [] {
      assert ks == [ks[0]] + ks[1..];
      StepsOfTail(d, path, ks[0], ks[1..]);
      StepsAreTaken(d, path[1..], ks[1..]);
    }
  }

  lemma {:induction false} JoinAppend(a: seq<string>, b: seq<string>)
    ensures Join(a + b) == Join(a) + Join(b)
    decreases |a|
  {
    if a == [] {
      assert a + b == b;
    } else {
      JoinAppend(a[1..], b);
      assert (a + b)[1..] == a[1..] + b;
    }
  }

  lemma {:induction false} JunctionsAppend(lib: Library, a: seq<string>, b: seq<string>)
    requires Junctions(lib, a).Ok? && Junctions(lib, b).Ok?
    ensures Junctions(lib, a + b) == Ok(Junctions(lib, a).value + Junctions(lib, b).value)
    decreases |a|
  {
    hide JunctionFrom;
    if a == [] {
      assert a + b == b && [] + Junctions(lib, b).value == Junctions(lib, b).value;
    } else {
      JunctionsAppend(lib, a[1..], b);
      assert (a + b)[1..] == a[1..] + b && (a + b)[0] == a[0];
      var first := [JunctionFrom(lib, a[0][1..]).value];
      var rest, last := Junctions(lib, a[1..]).value, Junctions(lib, b).value;
      assert first + (rest + last) == (first + rest) + last;
    }
  }

  /** The matches of two accepted paths written after each other are those of the one and of the other:
      an accepted path ends in a name and the next one starts with a slash. */
  lemma MatchesAppend(p: string, q: string)
    requires Join(AllMatches(p)) == p && Join(AllMatches(q)) == q
    ensures AllMatches(p + q) == AllMatches(p) + AllMatches(q)
  {
    hide AllMatches, Join, MatchLength;
    var first := MatchesArePrinted(p);
    var second := MatchesArePrinted(q);
    assert Printed(first + second) == Printed(first) + Printed(second);
    JoinAppend(Printed(first), Printed(second));
    PrintedMatches(first + second);
  }

  /** Parsing a derivation path and deriving along it, as the `derive` of a key pair does. */
  function DeriveAlong(lib: Library, d: Deriver, keys: Keys, path: string): Result<Keys> {
    var r :- ExtractPath(lib, path);
    KeyFromPath(d, keys, r.path)
  }

  /** Two accepted paths written after each other are accepted, with the parts and junctions of both, and
      deriving along the text of the two is deriving along the first and then along the second. */
  lemma DeriveAlongBoth(lib: Library, d: Deriver, keys: Keys, p: string, q: string)
    requires ExtractPath(lib, p).Ok? && ExtractPath(lib, q).Ok?
    ensures var (first, second) := (ExtractPath(lib, p).value, ExtractPath(lib, q).value);
            ExtractPath(lib, p + q) == Ok(ExtractResult(first.parts + second.parts, first.path + second.path))
    ensures DeriveAlong(lib, d, keys, p + q)
         == match DeriveAlong(lib, d, keys, p)
            case Ok(middle) => DeriveAlong(lib, d, middle, q)
            case Err(e) => Err(e)
  {
    hide AllMatches, Join, Junctions, KeyFromPath;
    MatchesAppend(p, q);
    JoinAppend(AllMatches(p), AllMatches(q));
    JunctionsAppend(lib, AllMatches(p), AllMatches(q));
    KeyFromConcat(d, keys, ExtractPath(lib, p).value.path, ExtractPath(lib, q).value.path);
  }

  /** A way along a path: the segments the path prints, the junction of each with the code of its name, and the
      keys passed through, one step for each junction. */
  datatype Walk = Walk(segs: seq<Segment>, js: seq<Junction>, ks: seq<Keys>)

  ghost predicate Walks(lib: Library, d: Deriver, path: string, w: Walk) {
    && Proper(w.segs) && Join(Printed(w.segs)) == path && AllNumbersFit(w.segs)
    && AllFit(lib, w.segs, w.js) && Steps(d, w.js, w.ks)
  }

  /** Deriving along a text succeeds with a pair exactly when the text prints proper segments whose numbers fit,
      and the pair is reached from the first one by one step for each segment, hard or soft as the segment
      is, with the code of its name. */
  lemma DeriveAlongExact(lib: Library, d: Deriver, keys: Keys, path: string, result: Keys)
    requires lib.Sound()
    ensures DeriveAlong(lib, d, keys, path) == Ok(result) <==>
              exists w :: Walks(lib, d, path, w) && w.ks[0] == keys && w.ks[|w.js|] == result
  {
    hide DeriveAlong, AllFit, AllNumbersFit, Proper, Join, StepTo;
    if DeriveAlong(lib, d, keys, path).Ok? {
      var w := WalkAlong(lib, d, keys, path);
      assert Walks(lib, d, path, w);
    }
    forall w | Walks(lib, d, path, w) && w.ks[0] == keys
      ensures DeriveAlong(lib, d, keys, path) == Ok(w.ks[|w.js|])
    {
      WalkIsTaken(lib, d, path, w);
    }
  }

  lemma WalkAlong(lib: Library, d: Deriver, keys: Keys, path: string) returns (w: Walk)
    requires lib.Sound() && DeriveAlong(lib, d, keys, path).Ok?
    ensures Walks(lib, d, path, w)
    ensures w.ks[0] == keys && w.ks[|w.js|] == DeriveAlong(lib, d, keys, path).value
  {
    hide KeyFromPath, AllFit, AllNumbersFit, Proper, Join, AllMatches, Junctions, StepTo;
    var segs := MatchesArePrinted(path);
    JunctionsOfSegments(lib, segs);
    var js := ExtractPath(lib, path).value.path;
    var ks := KeySteps(d, keys, js);
    w := Walk(segs, js, ks);
  }

  lemma WalkIsTaken(lib: Library, d: Deriver, path: string, w: Walk)
    requires lib.Sound() && Walks(lib, d, path, w)
    ensures DeriveAlong(lib, d, w.ks[0], path) == Ok(w.ks[|w.js|])
  {
    hide KeyFromPath, AllFit, AllNumbersFit, Proper, Join, AllMatches, Junctions, StepTo;
    PrintedMatches(w.segs);
    JunctionsOfSegments(lib, w.segs);
    FitUnique(lib, w.segs, w.js, Junctions(lib, Printed(w.segs)).value);
    StepsAreTaken(d, w.js, w.ks);
  }

  lemma FitUnique(lib: Library, segs: seq<Segment>, js: seq<Junction>, others: seq<Junction>)
    requires AllFit(lib, segs, js) && AllFit(lib, segs, others)
    ensures js == others
  {
    hide CodeOf, JunctionFrom;
    forall i | 0 <= i < |segs|
      ensures js[i] == others[i]
    {
      assert Fits(lib, segs[i], js[i]) && Fits(lib, segs[i], others[i]);
    }
  }

  /** A step named by a decimal number is accepted up to the largest 64-bit integer, and its code is the number. */
  lemma NumberedStep(lib: Library, n: nat)
    requires lib.Sound()
    ensures var r := ExtractPath(lib, "/" + R.ToRadix(n, 10));
            && (r.Ok? <==> n <= 9223372036854775807)
            && (r.Ok? ==> |r.value.path| == 1 && |r.value.path[0].chainCode| == 32 && ValueLE(r.value.path[0].chainCode) == n)
  {
    hide R.ToRadix, R.DigitsValue, AllMatches, Join, ValueLE, JunctionFrom;
    var name := R.ToRadix(n, 10);
    R.ValueOfToRadix(n, 10);
    Decimal(name);
    var g := Segment(false, name);
    OneStepExact(lib, g);
  }

  lemma Decimal(name: string)
    requires R.AllDigits(name, 10)
    ensures forall i :: 0 <= i < |name| ==> '0' <= name[i] <= '9'
  {
    forall i | 0 <= i < |name|
      ensures '0' <= name[i] <= '9'
    {
      assert R.CharDigit(name[i]) < 10;
    }
  }

  lemma OneStepExact(lib: Library, g: Segment)
    requires lib.Sound() && g.Proper()
    ensures ExtractPath(lib, g.Print()).Ok? <==> NumberFits(g.name)
    ensures ExtractPath(lib, g.Print()).Ok? ==>
              var r := ExtractPath(lib, g.Print()).value;
              |r.path| == 1 && r.path[0].isHard == g.hard && CodeOf(lib, g.name, r.path[0].chainCode)
  {
    hide AllMatches, Segment.Print, Segment.Proper, NumberFits, CodeOf, JunctionFrom;
    var segs := [g];
    PrintedMatches(segs);
    JunctionsOfSegments(lib, segs);
    assert Printed(segs) == [g.Print()] && [g.Print()][1..] == [];
    assert Join([]) == "" && Join([g.Print()]) == g.Print() + "" == g.Print();
    var js := Junctions(lib, Printed(segs));
    assert AllNumbersFit(segs) <==> NumberFits(segs[0].name);
    if js.Ok? {
      assert Fits(lib, segs[0], js.value[0]);
    }
  }

  /** That both parts are accepted matters: "/" is not, and before "/a" it turns a soft step into a hard one. */
  lemma LoneSlash(lib: Library)
    requires lib.Sound()
    ensures ExtractPath(lib, "/").Err?
    ensures ExtractPath(lib, "/a").Ok? && ExtractPath(lib, "/" + "/a").Ok?
    ensures !ExtractPath(lib, "/a").value.path[0].isHard && ExtractPath(lib, "/" + "/a").value.path[0].isHard
  {
    hide JunctionFrom, ChainCode, ExtractPath;
    var name := "a";
    assert name[0] == 'a' && !IsNumber(name);
    OneStepExact(lib, Segment(false, "a"));
    OneStepExact(lib, Segment(true, "a"));
    assert "/" + "a" == "/a" && "//" + "a" == "/" + "/a";
    NoStep(lib);
  }

  lemma NoStep(lib: Library)
    ensures ExtractPath(lib, "/").Err?
  {
    assert "/"[1..] == "";
    assert NameLength("") == 0;
    assert MatchLength("/") == 0;
    assert AllMatches("/") == AllMatches("") == [];
    assert Join([]) == "";
  }

  /** Without soft derivation a path with any soft junction is refused; with hard derivations that
      never throw, every other path is followed. */
  lemma {:induction false} SoftRefused(d: Deriver, keys: Keys, path: seq<Junction>)
    requires !d.supportsSoft && forall k, c :: d.hard(k, c).Ok?
    ensures KeyFromPath(d, keys, path).Ok? <==> forall i :: 0 <= i < |path| ==> path[i].isHard
    decreases |path|
  {
    if path != [] && path[0].isHard {
      SoftRefused(d, d.hard(keys, path[0].chainCode).value, path[1..]);
      assert forall i :: 0 < i < |path| ==> path[i] == path[1..][i - 1];
    }
  }
}
