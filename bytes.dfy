/** Byte strings and the slice helpers the SAM parser is built on: finding a
    delimiter, counting it, and splitting on it (`slice::split`, `str::split`). */
module Bytes {

  /** One octet of input (`u8`). */
  type byte = x: int | 0 <= x < 0x100

  type Bytes = seq<byte>

  const TAB: byte := 0x09
  const AT: byte := '@' as int
  const COLON: byte := ':' as int
  const COMMA: byte := ',' as int
  const DOT: byte := '.' as int
  const PLUS: byte := '+' as int
  const MINUS: byte := '-' as int

  /** Position of the first `b` in `s`, or `|s|` when `b` does not occur
      (`iter().position(..).unwrap_or(len)`). */
  function IndexOf(s: Bytes, b: byte): (i: nat)
    ensures i <= |s|
    ensures b !in s[..i]
    ensures i < |s| ==> s[i] == b
    decreases |s|
  {
    if s == [] then 0
    else if s[0] == b then 0
    else
      var j := IndexOf(s[1..], b);
      assert s[..1 + j] == [s[0]] + s[1..][..j];
      1 + j
  }

  /** Number of occurrences of `b` in `s`. */
  function Count(s: Bytes, b: byte): nat
    decreases |s|
  {
    if s == [] then 0 else (if s[0] == b then 1 else 0) + Count(s[1..], b)
  }

  /** The pieces of `s` between occurrences of `d`, empty pieces included;
      a string without `d` (the empty string too) is one piece. */
  function Split(s: Bytes, d: byte): (parts: seq<Bytes>)
    ensures |parts| > 0
    ensures forall k :: 0 <= k < |parts| ==> d !in parts[k]
    decreases |s|
  {
    var i := IndexOf(s, d);
    if i == |s| then [s] else [s[..i]] + Split(s[i + 1..], d)
  }

  /** The pieces glued back together with `d` between neighbours. */
  function Join(parts: seq<Bytes>, d: byte): Bytes
    decreases |parts|
  {
    if |parts| == 0 then []
    else if |parts| == 1 then parts[0]
    else parts[0] + [d] + Join(parts[1..], d)
  }

  lemma {:induction false} CountConcat(a: Bytes, b: Bytes, d: byte)
    ensures Count(a + b, d) == Count(a, d) + Count(b, d)
    decreases |a|
  {
    if a == [] {
      assert a + b == b;
    } else {
      assert (a + b)[1..] == a[1..] + b;
      CountConcat(a[1..], b, d);
    }
  }

  lemma {:induction false} CountAbsent(s: Bytes, d: byte)
    requires d !in s
    ensures Count(s, d) == 0
    decreases |s|
  {
    if s != [] {
      CountAbsent(s[1..], d);
    }
  }

  /** A byte found at `i` and nowhere else occurs once. */
  lemma CountOnce(s: Bytes, d: byte, i: nat)
    requires i < |s| && s[i] == d
    requires d !in s[..i] && d !in s[i + 1..]
    ensures Count(s, d) == 1
  {
    assert s == s[..i] + ([d] + s[i + 1..]);
    CountConcat(s[..i], [d] + s[i + 1..], d);
    CountConcat([d], s[i + 1..], d);
    CountAbsent(s[..i], d);
    CountAbsent(s[i + 1..], d);
  }

  /** Splitting yields one more piece than there are delimiters. */
  lemma {:induction false} SplitCount(s: Bytes, d: byte)
    ensures |Split(s, d)| == Count(s, d) + 1
    decreases |s|
  {
    var i := IndexOf(s, d);
    if i == |s| {
      assert s[..i] == s;
      CountAbsent(s, d);
    } else {
      SplitCount(s[i + 1..], d);
      assert s == s[..i] + ([d] + s[i + 1..]);
      CountConcat(s[..i], [d] + s[i + 1..], d);
      CountConcat([d], s[i + 1..], d);
      CountAbsent(s[..i], d);
    }
  }

  /** Joining the pieces with the delimiter gives back the original bytes. */
  lemma {:induction false} JoinSplit(s: Bytes, d: byte)
    ensures Join(Split(s, d), d) == s
    decreases |s|
  {
    var i := IndexOf(s, d);
    if i < |s| {
      var tail := Split(s[i + 1..], d);
      assert Split(s, d) == [s[..i]] + tail;
      JoinCons(s[..i], tail, d);
      JoinSplit(s[i + 1..], d);
      assert (s[..i] + [d]) + s[i + 1..] == s;
    }
  }

  lemma JoinCons(head: Bytes, tail: seq<Bytes>, d: byte)
    requires |tail| > 0
    ensures Join([head] + tail, d) == head + [d] + Join(tail, d)
  {
    assert ([head] + tail)[1..] == tail;
  }

  lemma IndexOfJoined(a: Bytes, b: Bytes, d: byte)
    requires d !in a
    ensures IndexOf(a + [d] + b, d) == |a|
  {
    var s := a + [d] + b;
    var i := IndexOf(s, d);
    assert s[|a|] == d;
    assert s[..|a|] == a;
  }

  /** The first occurrence is the one with no earlier occurrence. */
  lemma IndexOfAt(s: Bytes, d: byte, i: nat)
    requires i <= |s| && d !in s[..i]
    requires i < |s| ==> s[i] == d
    ensures IndexOf(s, d) == i
  {
  }

  lemma IndexOfAbsent(s: Bytes, d: byte)
    requires d !in s
    ensures IndexOf(s, d) == |s|
  {
  }

  /** Splitting delimiter-free pieces joined with the delimiter gives back the pieces. */
  lemma {:induction false} SplitJoin(parts: seq<Bytes>, d: byte)
    requires |parts| > 0
    requires forall k :: 0 <= k < |parts| ==> d !in parts[k]
    ensures Split(Join(parts, d), d) == parts
    decreases |parts|
  {
    if |parts| == 1 {
      IndexOfAbsent(parts[0], d);
    } else {
      var rest := Join(parts[1..], d);
      var s := parts[0] + [d] + rest;
      assert parts == [parts[0]] + parts[1..];
      JoinCons(parts[0], parts[1..], d);
      IndexOfJoined(parts[0], rest, d);
      assert s[..|parts[0]|] == parts[0];
      assert s[|parts[0]| + 1..] == rest;
      SplitJoin(parts[1..], d);
    }
  }
}
