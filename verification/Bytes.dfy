/** Bytes, fixed-width encodings and buffer updates shared by the other modules. */
module Bytes {

  type byte = b: int | 0 <= b < 256 witness 0

  datatype Option<+T> = None | Some(value: T)

  ghost function Pow256(k: nat): (p: nat)
    ensures p > 0
  {
    if k == 0 then 1 else 256 * Pow256(k - 1)
  }

  lemma {:induction false} Pow256Values()
    ensures Pow256(1) == 0x100 && Pow256(2) == 0x1_0000 && Pow256(4) == 0x1_0000_0000
    ensures Pow256(8) == 0x1_0000_0000_0000_0000
  {
    assert Pow256(3) == 0x100_0000 && Pow256(5) == 0x100_0000_0000 && Pow256(6) == 0x1_0000_0000_0000;
  }

  /** `n` modulo 256^k in little-endian order. */
  function LE(n: nat, k: nat): (s: seq<byte>)
    ensures |s| == k
    decreases k
  {
    if k == 0 then [] else [n % 256] + LE(n / 256, k - 1)
  }

  function UnLE(s: seq<byte>): nat
  {
    if s == [] then 0 else s[0] + 256 * UnLE(s[1..])
  }

  lemma {:induction false} LERoundTrip(n: nat, k: nat)
    requires n < Pow256(k)
    ensures UnLE(LE(n, k)) == n
    decreases k
  {
    if k > 0 {
      LERoundTrip(n / 256, k - 1);
      assert LE(n, k)[1..] == LE(n / 256, k - 1);
    }
  }

  lemma {:induction false} LEZero(k: nat)
    ensures LE(0, k) == Zeros(k)
    ensures UnLE(Zeros(k)) == 0
  {
    if k > 0 {
      LEZero(k - 1);
      assert Zeros(k) == [0] + Zeros(k - 1);
      assert Zeros(k)[1..] == Zeros(k - 1);
    }
  }

  lemma {:induction false} UnLEZero(s: seq<byte>)
    requires UnLE(s) == 0
    ensures s == Zeros(|s|)
  {
    if s != [] {
      UnLEZero(s[1..]);
      assert s == [s[0]] + s[1..];
    }
  }

  lemma {:induction false} UnLEBound(s: seq<byte>)
    ensures UnLE(s) < Pow256(|s|)
    ensures LE(UnLE(s), |s|) == s
  {
    if s != [] {
      UnLEBound(s[1..]);
      assert s == [s[0]] + s[1..];
    }
  }

  function Zeros(k: nat): (s: seq<byte>)
  {
    seq(k, _ => 0)
  }

  /** `s` with the bytes at `at` replaced by `d`, if they are all there. */
  function Write(s: seq<byte>, at: nat, d: seq<byte>): (r: seq<byte>)
    ensures |r| == |s|
  {
    if at + |d| <= |s| then s[..at] + d + s[at + |d|..] else s
  }

  /** The `n` bytes at `at`, if they are all there. */
  function Slice(s: seq<byte>, at: nat, n: nat): (r: seq<byte>)
  {
    if at + n <= |s| then s[at..at + n] else Zeros(n)
  }

  lemma {:induction false} WriteAt(s: seq<byte>, at: nat, d: seq<byte>, i: nat)
    requires at + |d| <= |s| && i < |s|
    ensures Write(s, at, d)[i] == if at <= i < at + |d| then d[i - at] else s[i]
  {
  }

  // ---------- Network byte order ----------

  function BE16(n: nat): (s: seq<byte>)
    ensures |s| == 2
  {
    [n / 256 % 256, n % 256]
  }

  function BE32(n: nat): (s: seq<byte>)
    ensures |s| == 4
  {
    BE16(n / 0x1_0000) + BE16(n % 0x1_0000)
  }

  function UnBE16(s: seq<byte>, at: nat): (n: nat)
    requires at + 2 <= |s|
    ensures n < 0x1_0000
  {
    s[at] as int * 256 + s[at + 1]
  }

  function UnBE32(s: seq<byte>, at: nat): (n: nat)
    requires at + 4 <= |s|
    ensures n < 0x1_0000_0000
  {
    UnBE16(s, at) * 0x1_0000 + UnBE16(s, at + 2)
  }

  lemma {:induction false} BE16Reads(n: nat, s: seq<byte>, at: nat)
    requires n < 0x1_0000 && at + 2 <= |s| && s[at..at + 2] == BE16(n)
    ensures UnBE16(s, at) == n
  {
    assert s[at] == s[at..at + 2][0] && s[at + 1] == s[at..at + 2][1];
  }

  lemma {:induction false} BE32Reads(n: nat, s: seq<byte>, at: nat)
    requires n < 0x1_0000_0000 && at + 4 <= |s| && s[at..at + 4] == BE32(n)
    ensures UnBE32(s, at) == n
  {
    hide BE16, UnBE16;
    assert s[at..at + 2] == s[at..at + 4][..2] == BE16(n / 0x1_0000);
    assert s[at + 2..at + 4] == s[at..at + 4][2..] == BE16(n % 0x1_0000);
    BE16Reads(n / 0x1_0000, s, at);
    BE16Reads(n % 0x1_0000, s, at + 2);
  }

  /** A number reads the same in a frame and in the part of it that holds it. */
  lemma {:induction false} SameUint16(s: seq<byte>, at: nat, n: nat, i: nat)
    requires i + 2 <= n && at + n <= |s|
    ensures UnBE16(s, at + i) == UnBE16(s[at..at + n], i)
  {
  }

  /** What is written right after a prefix. */
  lemma {:induction false} WriteNext(s: seq<byte>, at: nat, d: seq<byte>)
    requires at + |d| <= |s|
    ensures Write(s, at, d)[..at + |d|] == s[..at] + d
  {
  }

  lemma {:induction false} Zero16()
    ensures BE16(0) == [0, 0]
  {
  }
}
