/** `MetadataVersioned` of lib/metadata/MetadataVersioned.dart: metadata of a raw version is upgraded
    step by step on demand, the steps are remembered, and each getter overwrites the stored value. */
module Metadata {
  import opened Basics

  /** The versioned value inside the structure: its enum index, which is the version, and its data. */
  datatype Versioned<M> = Versioned(index: int, data: M)

  /** The conversions are arbitrary: `convert(t, previous, raw version)` makes version t. */
  type Convert<!M> = (int, M, int) -> M

  /** The value at version t as the composition of the conversions from version v. */
  function Chain<M>(convert: Convert<M>, raw: M, v: int, t: int): M
    requires v <= t
    decreases t - v
  {
    ChainFrom(convert, raw, v, t, v)
  }

  /** The conversions u+1, ..., t applied to a value of version u, for raw version v. */
  function ChainFrom<M>(convert: Convert<M>, x: M, u: int, t: int, v: int): M
    requires u <= t
    decreases t - u
  {
    if u == t then x else convert(t, ChainFrom(convert, x, u, t - 1, v), v)
  }

  /** Stopping at any version on the way gives the same value. */
  lemma {:induction false} ChainThrough<M>(convert: Convert<M>, raw: M, v: int, u: int, t: int)
    requires v <= u <= t
    ensures ChainFrom(convert, Chain(convert, raw, v, u), u, t, v) == Chain(convert, raw, v, t)
    decreases t
  {
    if u < t {
      ChainThroughStep(convert, raw, v, u, t);
    }
  }

  lemma {:induction false} ChainThroughStep<M>(convert: Convert<M>, raw: M, v: int, u: int, t: int)
    requires v <= u <= t
    ensures ChainFrom(convert, ChainFrom(convert, raw, v, u, v), u, t, v) == ChainFrom(convert, raw, v, t, v)
    decreases t - u
  {
    if u < t {
      ChainThroughStep(convert, raw, v, u, t - 1);
    }
  }

  /** Which conversions a chain is made of, seen with conversions that only note their arguments: those to the
      versions after u up to t, in this order, each told the raw version v. */
  lemma {:induction false} ChainCalls(u: int, t: int, v: int)
    requires u <= t
    ensures ChainFrom(Noting(), [], u, t, v) == seq(t - u, i requires 0 <= i < t - u => (u + 1 + i, v))
    decreases t - u
  {
    if u < t {
      ChainCalls(u, t - 1, v);
    }
  }

  function Noting(): Convert<seq<(int, int)>> {
    (version, notes, raw) => notes + [(version, raw)]
  }

  predicate NoDuplicates(s: seq<int>) {
    forall i, j :: 0 <= i < j < |s| ==> s[i] != s[j]
  }

  /** What asking for version t answers: the pure chain, or an error below the raw version. */
  function Answer<M>(convert: Convert<M>, base: Versioned<M>, t: int): Result<M> {
    if t < base.index then Err("Cannot convert metadata") else Ok(Chain(convert, base.data, base.index, t))
  }

  /** A memoised value, or the given one when there is none. */
  function Lookup<M>(memo: map<int, M>, t: int, otherwise: M): M {
    if t in memo then memo[t] else otherwise
  }

  class MetadataVersioned<M> {
    const convert: Convert<M>
    /** The enum constructor `updateMeta` applies: index and data to the data of the new enum. */
    const wrap: (int, M) -> M
    var converted: map<int, M>
    var metadataAll: Option<Versioned<M>>
    var stored: Versioned<M>
    ghost var base: Versioned<M>
    ghost var ran: seq<int>

    ghost predicate Valid()
      reads this
    {
      && 9 <= base.index <= 12
      && stored.index == base.index
      && (if metadataAll.Some? then metadataAll.value == base else stored == base && converted == map[])
      && (forall t :: t in converted ==> base.index < t <= 13 && converted[t] == Chain(convert, base.data, base.index, t))
      && NoDuplicates(ran) && (forall t :: t in ran <==> t in converted)
    }

    constructor (convert: Convert<M>, wrap: (int, M) -> M, value: Versioned<M>)
      requires 9 <= value.index <= 12
      ensures Valid() && base == value && ran == [] && this.convert == convert && this.wrap == wrap
    {
      this.convert := convert;
      this.wrap := wrap;
      this.converted := map[];
      this.metadataAll := None;
      this.stored := value;
      this.base := value;
      this.ran := [];
    }

    /** The `_metadata` getter: the stored value as it was when first asked for. */
    method GetMetadata() returns (m: Versioned<M>)
      requires Valid()
      modifies this`metadataAll
      ensures Valid() && m == base && metadataAll == Some(base)
    {
      if metadataAll.Some? {
        return metadataAll.value;
      }
      metadataAll := Some(stored);
      m := stored;
    }

    method GetVersionNumber() returns (v: int)
      requires Valid()
      modifies this`metadataAll
      ensures Valid() && v == base.index && metadataAll == Some(base)
    {
      var m := GetMetadata();
      v := m.index;
    }

    method AssertVersion(version: int) returns (r: Result<bool>)
      requires Valid()
      modifies this`metadataAll
      ensures Valid() && metadataAll == Some(base)
      ensures r == if base.index <= version then Ok(base.index == version) else Err("Cannot convert metadata")
    {
      var v := GetVersionNumber();
      r := if v <= version then Ok(v == version) else Err("Cannot convert metadata");
    }

    /** `updateMeta`: once the value has been read it changes nothing that is read later; before the
        first read it replaces the raw value, of the same version. */
    method UpdateMeta(data: M)
      requires Valid()
      modifies this`stored, this`base
      ensures Valid() && stored == Versioned(old(stored).index, wrap(old(stored).index, data))
      ensures base == if metadataAll.Some? then old(base) else stored
    {
      stored := Versioned(stored.index, wrap(stored.index, data));
      if metadataAll.None? {
        base := stored;
      }
    }

    method AsV9() returns (r: Result<M>)
      requires Valid()
      modifies this`metadataAll
      ensures Valid() && r == Answer(convert, base, 9)
      ensures r.Ok? ==> metadataAll == Some(base)
    {
      var check := AssertVersion(9);
      if check.Err? {
        return Err(check.error);
      }
      var m := GetMetadata();
      r := Ok(m.data);
    }

    /** The memo entry `_getVersion` makes from the value of the version before. */
    method Remember(version: int, previous: M)
      requires Valid() && metadataAll.Some? && base.index < version <= 13 && version !in converted
      requires previous == Chain(convert, base.data, base.index, version - 1)
      modifies this`converted, this`ran, this`metadataAll
      ensures Valid() && metadataAll == Some(base) && ran == old(ran) + [version] && version in converted
      ensures old(converted).Keys <= converted.Keys
      ensures converted[version] == Chain(convert, base.data, base.index, version)
    {
      var v := GetVersionNumber();
      converted := converted[version := convert(version, previous, v)];
      ran := ran + [version];
    }

    /** `_getVersion` for the getters asV10, asV11, asV12 and, with 13, asLatest. */
    method GetVersion(version: int) returns (r: Result<M>)
      requires Valid() && 10 <= version <= 13
      modifies this
      ensures Valid() && base == old(base) && r == Answer(convert, base, version)
      ensures old(ran) <= ran && old(converted).Keys <= converted.Keys
      ensures r.Ok? ==> stored == Versioned(base.index, wrap(base.index, r.value)) && metadataAll == Some(base)
      ensures r.Err? ==> stored == old(stored) && ran == old(ran)
      ensures forall t :: t in ran && t !in old(ran) ==> t <= version
      decreases version
    {
      var check := AssertVersion(version);
      if check.Err? {
        return Err(check.error);
      }
      if check.value {
        var m := GetMetadata();
        var result := Lookup(converted, version, m.data);
        UpdateMeta(result);
        return Ok(result);
      }
      if version !in converted {
        var previous: Result<M>;
        if version == 10 {
          previous := AsV9();
        } else {
          previous := GetVersion(version - 1);
        }
        if previous.Err? {
          return previous;
        }
        Remember(version, previous.value);
      }
      UpdateMeta(converted[version]);
      r := Ok(converted[version]);
    }

    /** The getter for version t: asV9 reads the raw value directly, the others go through the memo. */
    method As(t: int) returns (r: Result<M>)
      requires Valid() && 9 <= t <= 13
      modifies this
      ensures Valid() && base == old(base) && r == Answer(convert, base, t) && old(ran) <= ran
    {
      if t == 9 {
        r := AsV9();
      } else {
        r := GetVersion(t);
      }
    }

    /** Any sequence of getter calls: each answer is the pure chain on the raw value, no conversion
        runs twice, and the raw value and version stay fixed although every call overwrites the
        stored value. */
    method Calls(targets: seq<int>) returns (answers: seq<Result<M>>)
      requires Valid() && forall i :: 0 <= i < |targets| ==> 9 <= targets[i] <= 13
      modifies this
      ensures Valid() && base == old(base) && stored.index == old(stored).index
      ensures |answers| == |targets|
      ensures forall i :: 0 <= i < |targets| ==> answers[i] == Answer(convert, base, targets[i])
      ensures old(ran) <= ran && NoDuplicates(ran)
    {
      answers := [];
      for i := 0 to |targets|
        invariant Valid() && base == old(base) && |answers| == i && old(ran) <= ran
        invariant forall j :: 0 <= j < i ==> answers[j] == Answer(convert, base, targets[j])
      {
        var a := As(targets[i]);
        answers := answers + [a];
      }
    }
  }
}
