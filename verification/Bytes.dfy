/** Bytes, byte strings, and the order `std::string` gives them. */
module Bytes {

  type byte = x: int | 0 <= x < 256

  type bytes = seq<byte>

  datatype Option<+T> = None | Some(value: T)

  /** What a parser found, and the text after it. */
  datatype Parsed<+T> = Fail | Done(value: T, rest: bytes)

  /** `std::string::operator<`: the first differing byte decides, a proper prefix comes first. */
  predicate Less(a: bytes, b: bytes)
    decreases |a|
  {
    b != [] && (a == [] || a[0] < b[0] || (a[0] == b[0] && Less(a[1..], b[1..])))
  }

  lemma {:induction false} LessTrichotomy(a: bytes, b: bytes)
    ensures Less(a, b) || Less(b, a) || a == b
    ensures !(Less(a, b) && Less(b, a)) && (a == b ==> !Less(a, b))
    decreases |a|
  {
    if a != [] && b != [] && a[0] == b[0] {
      LessTrichotomy(a[1..], b[1..]);
      assert a == [a[0]] + a[1..] && b == [b[0]] + b[1..];
    }
  }

  lemma {:induction false} LessTransitive(a: bytes, b: bytes, c: bytes)
    requires Less(a, b) && Less(b, c)
    ensures Less(a, c)
    decreases |a|
  {
    if a != [] && a[0] == b[0] == c[0] {
      LessTransitive(a[1..], b[1..], c[1..]);
    }
  }

  /** The buffer holds the text and its terminating zero. */
  ghost predicate Holds(a: array<byte>, text: bytes)
    reads a
  {
    |text| < a.Length && a[..|text| + 1] == text + [0]
  }

  /** `memcpy` into a buffer. */
  method Fill(a: array<byte>, at: nat, data: bytes)
    requires at + |data| <= a.Length
    modifies a
    ensures a[..at + |data|] == old(a[..at]) + data
  {
    for i := 0 to |data|
      invariant a[..at + i] == old(a[..at]) + data[..i]
    {
      a[at + i] := data[i];
    }
  }
}
