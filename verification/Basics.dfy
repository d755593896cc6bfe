/** Values every component shares: bytes, optional values, thrown errors and list slices. */
module Basics {

  type byte = b: int | 0 <= b < 256
  type bytes = seq<byte>

  datatype Option<+T> = None | Some(value: T)

  /** A Dart call either returns a value or throws; the thrown message is kept as text. */
  datatype Result<+T> = Ok(value: T) | Err(error: string) {
    predicate IsFailure() {
      Err?
    }

    function PropagateFailure<U>(): Result<U>
      requires Err?
    {
      Err(error)
    }

    function Extract(): T
      requires Ok?
    {
      value
    }
  }

  /** Dart's `List.sublist(start, end)`, which throws a RangeError outside the list. */
  function Sublist<T>(s: seq<T>, start: int, end: int): Result<seq<T>> {
    if 0 <= start <= end <= |s| then Ok(s[start..end]) else Err("RangeError")
  }

  /** The two halves of a key pair, as the functions per key type take and return them. */
  datatype Keys = Keys(publicKey: bytes, secretKey: bytes)

  /** The bytes of a text of ASCII characters. */
  function Ascii(s: string): (b: bytes)
    requires forall i :: 0 <= i < |s| ==> s[i] as int < 128
    ensures |b| == |s| && forall i :: 0 <= i < |s| ==> b[i] == s[i] as int
  {
    seq(|s|, i requires 0 <= i < |s| => s[i] as int)
  }

  function Abs(x: int): nat {
    if x < 0 then -x else x
  }

  function Min(a: int, b: int): int {
    if a <= b then a else b
  }

  function Repeat<T>(x: T, n: nat): (s: seq<T>)
    ensures |s| == n && forall i :: 0 <= i < n ==> s[i] == x
  {
    seq(n, _ => x)
  }

  /** b to the power e. */
  function Pow(b: int, e: nat): int {
    if e == 0 then 1 else b * Pow(b, e - 1)
  }

  lemma {:induction false} PowAdd(b: int, i: nat, j: nat)
    ensures Pow(b, i + j) == Pow(b, i) * Pow(b, j)
  {
    if i > 0 {
      PowAdd(b, i - 1, j);
      assert b * (Pow(b, i - 1) * Pow(b, j)) == (b * Pow(b, i - 1)) * Pow(b, j);
    }
  }

  lemma {:induction false} PowPositive(b: int, e: nat)
    requires b > 0
    ensures Pow(b, e) > 0
  {
    if e > 0 {
      PowPositive(b, e - 1);
    }
  }

  lemma {:induction false} PowGrows(b: int, i: nat, j: nat)
    requires b > 0 && i <= j
    ensures 0 < Pow(b, i) <= Pow(b, j)
  {
    PowPositive(b, i);
    if i < j {
      PowGrows(b, i, j - 1);
      assert b * Pow(b, j - 1) >= Pow(b, j - 1);
    }
  }
}
