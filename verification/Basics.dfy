/** Small things several modules need. */
module Basics {

  type byte = x: int | 0 <= x < 256
  type Bytes = seq<byte>

  datatype Option<T> = None | Some(value: T)

  function Min(a: int, b: int): int {
    if a <= b then a else b
  }

  function Max(a: int, b: int): int {
    if a >= b then a else b
  }

  lemma Assoc<T>(a: seq<T>, b: seq<T>, c: seq<T>)
    ensures (a + b) + c == a + (b + c)
  {
  }

  /** A list whose front part has been walked over: its next element, the list without it, and the
      list with the front part one longer. */
  lemma Unlink<T>(kept: seq<T>, rest: seq<T>)
    requires rest != []
    ensures var q, i := kept + rest, |kept|;
            && q[i] == rest[0]
            && q[..i] + q[i + 1..] == kept + rest[1..]
            && q == (kept + [rest[0]]) + rest[1..]
  {
    var q, i := kept + rest, |kept|;
    assert q[..i] == kept && q[i + 1..] == rest[1..];
  }

  /** Memory with some of it replaced. */
  function Splice<T>(s: seq<T>, at: nat, part: seq<T>): (r: seq<T>)
    requires at + |part| <= |s|
    ensures |r| == |s|
  {
    s[..at] + part + s[at + |part|..]
  }
}
