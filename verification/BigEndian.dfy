/**
 Fixed-width big-endian integers: the 8-byte keys of the Raft entry store
 (`U64<BigEndian>`) and the 4-byte frame lengths of encoded version edits.
 */
module BigEndian {
  type byte = x: nat | x < 256

  function Pow256(n: nat): (p: nat)
    ensures p > 0
  {
    if n == 0 then 1 else 256 * Pow256(n - 1)
  }

  /** The `n` low-order bytes of `x`, most significant first. */
  function Bytes(n: nat, x: nat): (s: seq<byte>)
    ensures |s| == n
  {
    if n == 0 then [] else Bytes(n - 1, x / 256) + [x % 256]
  }

  function Number(s: seq<byte>): nat {
    if s == [] then 0 else Number(s[..|s| - 1]) * 256 + s[|s| - 1]
  }

  /** `memcmp` order, the order in which the database keeps its keys. */
  predicate Less(a: seq<byte>, b: seq<byte>) {
    b != [] && (a == [] || a[0] < b[0] || (a[0] == b[0] && Less(a[1..], b[1..])))
  }

  lemma {:induction false} NumberIsBounded(s: seq<byte>)
    ensures Number(s) < Pow256(|s|)
  {
    if s != [] {
      NumberIsBounded(s[..|s| - 1]);
    }
  }

  lemma {:induction false} NumberOfBytes(n: nat, x: nat)
    requires x < Pow256(n)
    ensures Number(Bytes(n, x)) == x
  {
    if n > 0 {
      NumberOfBytes(n - 1, x / 256);
      var s := Bytes(n, x);
      assert s[..|s| - 1] == Bytes(n - 1, x / 256);
    }
  }

  lemma {:induction false} BytesOfNumber(s: seq<byte>)
    ensures Bytes(|s|, Number(s)) == s
  {
    if s != [] {
      BytesOfNumber(s[..|s| - 1]);
    }
  }

  /** Keys of one width compare by their last byte only when all earlier bytes agree. */
  lemma {:induction false} LessByLastByte(a: seq<byte>, b: seq<byte>)
    requires |a| == |b| > 0
    ensures Less(a, b) <==>
            Less(a[..|a| - 1], b[..|b| - 1]) || (a[..|a| - 1] == b[..|b| - 1] && a[|a| - 1] < b[|b| - 1])
  {
    var i, j := a[..|a| - 1], b[..|b| - 1];
    if |a| > 1 {
      LessByLastByte(a[1..], b[1..]);
      assert a[1..][..|a| - 2] == i[1..] && b[1..][..|b| - 2] == j[1..];
      assert i == [a[0]] + i[1..] && j == [b[0]] + j[1..];
    }
  }

  /** Byte order on keys of one width is exactly numeric order. */
  lemma {:induction false} LessIsNumeric(a: seq<byte>, b: seq<byte>)
    requires |a| == |b|
    ensures Less(a, b) <==> Number(a) < Number(b)
  {
    if a != [] {
      LessByLastByte(a, b);
      LessIsNumeric(a[..|a| - 1], b[..|b| - 1]);
      BytesOfNumber(a[..|a| - 1]);
      BytesOfNumber(b[..|b| - 1]);
    }
  }
}
