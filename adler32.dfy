/** The Adler-32 checksum of section 2.2 of RFC 1950, computed byte by byte
    the way zlib.adler32 does, with its closed form and the fact that it
    notices any change to a single byte. */
module Adler32 {
  import opened Bytes

  /** The largest prime below 2^16. */
  const BASE: nat := 65521

  /** The sum of all bytes. */
  function Sum(s: seq<byte>): int
  {
    if s == [] then 0 else Sum(s[..|s| - 1]) + s[|s| - 1]
  }

  /** The sum of 1 + Sum(p) over every non-empty prefix p of s. */
  function SumOfA(s: seq<byte>): int
  {
    if s == [] then 0 else SumOfA(s[..|s| - 1]) + 1 + Sum(s)
  }

  /** The running pair (A, B) after every byte of s has been absorbed. */
  function State(s: seq<byte>): (r: (nat, nat))
    ensures r.0 < BASE && r.1 < BASE
  {
    if s == [] then (1, 0)
    else
      var (a, b) := State(s[..|s| - 1]);
      var a' := (a + s[|s| - 1]) % BASE;
      (a', (b + a') % BASE)
  }

  /** The checksum: B in the high 16 bits, A in the low 16 bits. */
  function Checksum(s: seq<byte>): (c: nat)
    ensures c < 0x1_0000_0000
    ensures c % 0x1_0000 == State(s).0 && c / 0x1_0000 == State(s).1
  {
    State(s).1 * 0x1_0000 + State(s).0
  }

  lemma ModAddLeft(x: int, y: int)
    ensures (x % BASE + y) % BASE == (x + y) % BASE
  {
    var q := x / BASE;
    assert x == q * BASE + x % BASE;
  }

  /** Adding a non-zero amount smaller than BASE moves the residue. */
  lemma ModMoves(x: int, d: int)
    requires 0 < d < BASE || 0 < -d < BASE
    ensures (x + d) % BASE != x % BASE
  {
    var q, r := x / BASE, (x + d) / BASE;
    assert x == q * BASE + x % BASE;
    assert x + d == r * BASE + (x + d) % BASE;
  }

  /** RFC 1950: A is 1 plus the sum of the bytes and B is the sum of the
      successive values of A, both modulo BASE. */
  lemma {:induction false} StateClosedForm(s: seq<byte>)
    ensures State(s) == ((1 + Sum(s)) % BASE, SumOfA(s) % BASE)
  {
    if s != [] {
      var p := s[..|s| - 1];
      var x := s[|s| - 1];
      StateClosedForm(p);
      ModAddLeft(1 + Sum(p), x);
      ModAddLeft(SumOfA(p), 1 + Sum(s));
      ModAddLeft(1 + Sum(s), SumOfA(p) % BASE);
    }
  }

  /** Replacing one byte changes the byte sum by exactly the difference. */
  lemma {:induction false} SumUpdate(s: seq<byte>, i: nat, v: byte)
    requires i < |s|
    ensures Sum(s[i := v]) == Sum(s) - s[i] + v
  {
    var t := s[i := v];
    if i == |s| - 1 {
      assert t[..|t| - 1] == s[..|s| - 1];
    } else {
      assert t[..|t| - 1] == s[..|s| - 1][i := v];
      SumUpdate(s[..|s| - 1], i, v);
    }
  }

  /** Changing any single byte of the data changes its checksum. */
  lemma ChecksumDetectsByteChange(s: seq<byte>, i: nat, v: byte)
    requires i < |s| && v != s[i]
    ensures Checksum(s[i := v]) != Checksum(s)
  {
    var t := s[i := v];
    SumUpdate(s, i, v);
    StateClosedForm(s);
    StateClosedForm(t);
    ModMoves(1 + Sum(s), v - s[i]);
    assert State(t).0 != State(s).0;
  }
}
