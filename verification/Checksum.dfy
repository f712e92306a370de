/** The one's-complement checksum of src/daemon/frame.c, plain and Cisco variants. */
module Checksum {
  import opened Bytes

  const WORD: nat := 0x1_0000
  const ONES: nat := 0xFFFF
  const UINT: nat := 0x1_0000_0000

  // ---------- Words ----------

  /** The word the last octet of an odd number of octets stands for. */
  function LastWord(v: byte, cisco: bool): nat
  {
    if !cisco then v * 256
    else if v >= 0x80 then 0xFF00 + v - 1
    else v
  }

  function WordCount(data: seq<byte>): nat
  {
    (|data| + 1) / 2
  }

  /** The i-th word of the data, in network byte order. */
  function WordAt(data: seq<byte>, i: nat, cisco: bool): (w: nat)
    requires i < WordCount(data)
    ensures w <= ONES
  {
    if 2 * i + 1 < |data| then data[2 * i] * 256 + data[2 * i + 1] else LastWord(data[2 * i], cisco)
  }

  /** The plain sum of the first n words. */
  function Sum(data: seq<byte>, n: nat, cisco: bool): nat
    requires n <= WordCount(data)
  {
    if n == 0 then 0 else Sum(data, n - 1, cisco) + WordAt(data, n - 1, cisco)
  }

  /** Section 2 of RFC 1071: addition with end-around carry. */
  function OnesAdd(a: nat, b: nat): nat
  {
    if a + b > ONES then a + b - ONES else a + b
  }

  function OnesSum(data: seq<byte>, n: nat, cisco: bool): nat
    requires n <= WordCount(data)
  {
    if n == 0 then 0 else OnesAdd(OnesSum(data, n - 1, cisco), WordAt(data, n - 1, cisco))
  }

  // ---------- The procedure ----------

  /** Two folds of a 32-bit sum to 16 bits. */
  function Fold(sum: nat): nat
  {
    var s := sum / WORD + sum % WORD;
    (s + s / WORD) % WORD
  }

  /** ntohs() on a little-endian machine. */
  function Swap(x: nat): (r: nat)
    ensures r <= ONES
  {
    x % 256 * 256 + x / 256 % 256
  }

  /** The value returned: the complement of the sum, in network byte order. */
  function Result(sum: nat): nat
  {
    ONES - Swap(Fold(sum))
  }

  /** Arithmetic on unsigned int. */
  function Wrap(x: nat): (r: nat)
    ensures r < UINT && (x < UINT ==> r == x)
  {
    x % UINT
  }

  lemma {:induction false} WrapAdd(a: nat, b: nat)
    ensures Wrap(Wrap(a) + b) == Wrap(a + b)
  {
  }

  method FrameChecksum(cp: seq<byte>, cisco: bool) returns (r: nat)
    ensures r == Result(Wrap(Sum(cp, WordCount(cp), cisco)))
  {
    hide Swap, Wrap, Sum, WordAt, Result;
    SumZero(cp, cisco);
    var sum := 0;
    var len := |cp| - 2;
    var at := 0;
    ghost var n := 0;
    while len >= 0
      invariant at == 2 * n && at <= |cp| && len == |cp| - at - 2
      invariant sum == Wrap(Sum(cp, n, cisco))
    {
      SumNext(cp, n, cisco);
      var hi: int, lo: int := cp[at], cp[at + 1];
      WrapAdd(Sum(cp, n, cisco), hi * 256);
      WrapAdd(Sum(cp, n, cisco) + hi * 256, lo);
      sum := Wrap(sum + hi * 256);
      sum := Wrap(sum + lo);
      at := at + 2;
      n := n + 1;
      len := len - 2;
    }
    if len == -1 {
      SumNext(cp, n, cisco);
      sum := AddLast(cp[at], sum, cisco, Sum(cp, n, cisco));
    }
    r := Finish(sum);
  }

  method Finish(x: nat) returns (r: nat)
    ensures r == Result(x)
  {
    hide Swap;
    var sum := x;
    sum := sum / WORD + sum % WORD;
    sum := sum + sum / WORD;
    r := ONES - Swap(sum % WORD);
  }

  /** The octet left over when the length is odd. */
  method AddLast(v: byte, sum: nat, cisco: bool, ghost before: nat) returns (r: nat)
    requires sum == Wrap(before)
    ensures r == Wrap(before + LastWord(v, cisco))
  {
    hide Wrap;
    var x: int := v;
    if !cisco {
      WrapAdd(before, x * 256);
      r := Wrap(sum + x * 256);
    } else if x >= 0x80 {
      WrapAdd(before, 0xFF00);
      WrapAdd(before + 0xFF00, x - 1);
      r := Wrap(sum + 0xFF00);
      r := Wrap(r + (x - 1));
    } else {
      WrapAdd(before, x);
      r := Wrap(sum + x);
    }
  }

  lemma {:induction false} SumZero(data: seq<byte>, cisco: bool)
    ensures Sum(data, 0, cisco) == 0
  {
  }

  lemma {:induction false} SumNext(data: seq<byte>, n: nat, cisco: bool)
    requires n < WordCount(data)
    ensures Sum(data, n + 1, cisco) ==
      Sum(data, n, cisco) + if 2 * n + 1 < |data| then data[2 * n] as int * 256 + data[2 * n + 1]
        else LastWord(data[2 * n], cisco)
  {
  }

  /** An octet read as a signed character. */
  function SignedOctet(v: byte): (c: int)
    ensures -128 <= c < 128 && c % 256 == v as int
  {
    if v >= 128 then v as int - 256 else v as int
  }

  /** The octet left over is the high half of its word.  For Cisco it is the low half,
      as a signed character, less one when it is negative, on 16 bits. */
  lemma {:induction false} LastWordIs(v: byte)
    ensures LastWord(v, false) == 256 * v as int
    ensures var c := SignedOctet(v);
      LastWord(v, true) == (if c < 0 then c - 1 else c) % 65536
  {
    var c := SignedOctet(v);
    if c < 0 {
      assert c - 1 + 65536 == 0xFF00 + v as int - 1;
    }
  }

  // ---------- Meaning ----------

  /** The 32-bit sum of up to 65537 words does not wrap. */
  lemma {:induction false} SumBound(data: seq<byte>, n: nat, cisco: bool)
    requires n <= WordCount(data)
    ensures Sum(data, n, cisco) <= n * ONES
    ensures n <= 65537 ==> Sum(data, n, cisco) < UINT
  {
    if n > 0 {
      SumBound(data, n - 1, cisco);
    }
  }

  /** Congruent modulo 65535, and null together: what determines a folded sum. */
  ghost predicate Reduces(f: nat, s: nat)
  {
    f <= ONES && f % ONES == s % ONES && (f == 0 <==> s == 0)
  }

  lemma {:induction false} ReducesUnique(f: nat, g: nat, s: nat)
    requires Reduces(f, s) && Reduces(g, s)
    ensures f == g
  {
  }

  lemma {:induction false} FoldReduces(s: nat)
    requires s < UINT
    ensures Reduces(Fold(s), s)
  {
    var h, l := s / WORD, s % WORD;
    assert s == h * WORD + l && h <= ONES && l <= ONES;
    assert s == h * ONES + (h + l);
    ModMultiple(h + l, h);
    var t := h + l;
    if t < WORD {
      assert Fold(s) == t;
    } else {
      assert t / WORD == 1;
      assert Fold(s) == t - ONES;
      ModMultiple(t - ONES, 1);
    }
  }

  lemma {:induction false} ModMultiple(x: nat, k: nat)
    ensures (x + k * ONES) % ONES == x % ONES
  {
    if k > 0 {
      ModMultiple(x, k - 1);
      assert x + k * ONES == (x + (k - 1) * ONES) + ONES;
      ModOnce(x + (k - 1) * ONES);
    }
  }

  lemma {:induction false} ModOnce(x: nat)
    ensures (x + ONES) % ONES == x % ONES
  {
  }

  lemma {:induction false} OnesSumReduces(data: seq<byte>, n: nat, cisco: bool)
    requires n <= WordCount(data)
    ensures Reduces(OnesSum(data, n, cisco), Sum(data, n, cisco))
  {
    if n > 0 {
      OnesSumReduces(data, n - 1, cisco);
      OnesAddReduces(OnesSum(data, n - 1, cisco), Sum(data, n - 1, cisco), WordAt(data, n - 1, cisco));
    }
  }

  lemma {:induction false} OnesAddReduces(f: nat, s: nat, w: nat)
    requires Reduces(f, s) && w <= ONES
    ensures Reduces(OnesAdd(f, w), s + w)
  {
    var q, r := s / ONES, s % ONES;
    assert s == r + q * ONES;
    var q' := f / ONES;
    assert f == r + q' * ONES;
    ModMultiple(r + w, q);
    ModMultiple(r + w, q');
    if f + w > ONES {
      ModOnce(f + w - ONES);
    }
  }

  /** Two folds of the 32-bit sum give the one's-complement sum of RFC 1071. */
  lemma {:induction false} FoldIsOnesSum(data: seq<byte>, cisco: bool)
    requires WordCount(data) <= 65537
    ensures var n := WordCount(data);
      Sum(data, n, cisco) < UINT && Fold(Wrap(Sum(data, n, cisco))) == OnesSum(data, n, cisco)
  {
    var n := WordCount(data);
    SumBound(data, n, cisco);
    FoldReduces(Sum(data, n, cisco));
    OnesSumReduces(data, n, cisco);
    ReducesUnique(Fold(Sum(data, n, cisco)), OnesSum(data, n, cisco), Sum(data, n, cisco));
  }

  /** A sum of any length against the 32 bits it is kept in. */
  lemma {:induction false} WrapSplits(s: nat)
    ensures s == s / UINT * UINT + Wrap(s)
    ensures s % ONES == (s / UINT + Wrap(s)) % ONES
  {
    var q, w := s / UINT, Wrap(s);
    assert s == q * UINT + w;
    assert q * UINT + w == (q + w) + (q * 65537) * ONES;
    ModMultiple(q + w, q * 65537);
  }

  lemma {:induction false} ModCancels(q: nat, w: nat)
    ensures (q + w) % ONES == w % ONES <==> q % ONES == 0
  {
    var a, r := q / ONES, q % ONES;
    assert q + w == (r + w) + a * ONES;
    ModMultiple(r + w, a);
    var b, v := w / ONES, w % ONES;
    assert r + w == (r + v) + b * ONES;
    ModMultiple(r + v, b);
    if r + v >= ONES {
      ModOnce(r + v - ONES);
    }
  }

  /** On data of every length: the folded 32-bit sum is the one's-complement sum
      exactly when the sum fits, or when it overflows a multiple of 65535 times
      and something is left in the 32 bits. */
  lemma {:induction false} FoldIsOnesSumIff(data: seq<byte>, cisco: bool)
    ensures var n := WordCount(data);
      var s := Sum(data, n, cisco);
      Fold(Wrap(s)) == OnesSum(data, n, cisco) <==> s < UINT || (s / UINT % ONES == 0 && s % UINT != 0)
  {
    hide Fold, Sum, OnesSum;
    var n := WordCount(data);
    var s, o := Sum(data, n, cisco), OnesSum(data, n, cisco);
    OnesSumReduces(data, n, cisco);
    FoldReduces(Wrap(s));
    WrapSplits(s);
    ModCancels(s / UINT, Wrap(s));
    if Reduces(Fold(Wrap(s)), s) {
      ReducesUnique(Fold(Wrap(s)), o, s);
    }
  }

  // ---------- What the checksum is for ----------

  function ChecksumOf(data: seq<byte>, cisco: bool): nat
  {
    Result(Wrap(Sum(data, WordCount(data), cisco)))
  }

  /** A zero checksum is a one's-complement sum of all ones. */
  lemma {:induction false} ZeroChecksum(data: seq<byte>, cisco: bool)
    requires WordCount(data) <= 65537
    ensures ChecksumOf(data, cisco) == 0 <==> OnesSum(data, WordCount(data), cisco) == ONES
  {
    FoldIsOnesSum(data, cisco);
    SumBound(data, WordCount(data), cisco);
    FoldReduces(Sum(data, WordCount(data), cisco));
    SwapOnes(OnesSum(data, WordCount(data), cisco));
  }

  lemma {:induction false} SwapOnes(f: nat)
    requires f <= ONES
    ensures Swap(f) == ONES <==> f == ONES
  {
  }

  lemma {:induction false} SwapComplement(f: nat)
    requires f <= ONES
    ensures var c := ONES - Swap(f);
      c % 256 == 255 - f / 256 && c / 256 == 255 - f % 256
  {
    var hi, lo := f / 256, f % 256;
    assert ONES - Swap(f) == (255 - lo) * 256 + (255 - hi);
  }

  /** The bytes the value returned leaves in memory are the complement of the sum,
      in network byte order. */
  lemma {:induction false} StoredComplement(f: nat)
    requires f <= ONES
    ensures var s := LE(ONES - Swap(f), 2);
      s[0] as int * 256 + s[1] == ONES - f
  {
    hide Swap;
    var c := ONES - Swap(f);
    assert c % 256 == 255 - f / 256 && c / 256 == 255 - f % 256 by {
      SwapComplement(f);
    }
    assert LE(c, 2) == [c % 256] + LE(c / 256, 1);
    assert LE(c / 256, 1) == [c / 256 % 256] + LE(c / 256 / 256, 0);
  }

  /** Writing a word over a null one adds it to the sum. */
  lemma {:induction false} SumWrite(data: seq<byte>, n: nat, cisco: bool, i: nat, d: seq<byte>)
    requires n <= WordCount(data) && |d| == 2 && 2 * i + 2 <= |data| && data[2 * i] == data[2 * i + 1] == 0
    ensures Sum(Write(data, 2 * i, d), n, cisco) == Sum(data, n, cisco) + if i < n then d[0] as int * 256 + d[1] else 0
  {
    if n > 0 {
      SumWrite(data, n - 1, cisco, i, d);
      var data' := Write(data, 2 * i, d);
      if n - 1 == i {
        assert data'[2 * i] == d[0] && data'[2 * i + 1] == d[1];
      } else {
        assert data'[2 * (n - 1)] == data[2 * (n - 1)];
        assert 2 * (n - 1) + 1 < |data| ==> data'[2 * (n - 1) + 1] == data[2 * (n - 1) + 1];
      }
    }
  }

  /** Storing the checksum in a zeroed field at an even offset makes the checksum of
      the region null, in both modes and for odd lengths too. */
  lemma {:induction false} ChecksumVerifies(data: seq<byte>, i: nat, cisco: bool)
    requires WordCount(data) <= 65537 && 2 * i + 2 <= |data| && data[2 * i] == data[2 * i + 1] == 0
    ensures ChecksumOf(Write(data, 2 * i, LE(ChecksumOf(data, cisco), 2)), cisco) == 0
  {
    hide Wrap, LE, Swap;
    var n := WordCount(data);
    var S := Sum(data, n, cisco);
    SumBound(data, n, cisco);
    FoldReduces(S);
    var f := Fold(S);
    StoredComplement(f);
    var data' := Write(data, 2 * i, LE(ChecksumOf(data, cisco), 2));
    SumWrite(data, n, cisco, i, LE(ChecksumOf(data, cisco), 2));
    SumBound(data', n, cisco);
    var S' := Sum(data', n, cisco);
    assert S' == S + (ONES - f);
    AllOnes(S, f);
    FoldReduces(S');
    ReducesUnique(Fold(S'), ONES, S');
    SwapOnes(ONES);
  }

  lemma {:induction false} AllOnes(s: nat, f: nat)
    requires Reduces(f, s)
    ensures Reduces(ONES, s + (ONES - f))
  {
    var q, r := s / ONES, s % ONES;
    assert s == r + q * ONES && f == r + f / ONES * ONES;
    if f == ONES {
      assert r == 0;
      ModMultiple(0, q);
    } else {
      assert f / ONES == 0 && f == r;
      assert s + (ONES - f) == 0 + (q + 1) * ONES;
      ModMultiple(0, q + 1);
    }
  }

  lemma {:induction false} SumExtends(data: seq<byte>, x: seq<byte>, n: nat, cisco: bool)
    requires 2 * n <= |data|
    ensures Sum(data + x, n, cisco) == Sum(data, n, cisco)
  {
    if n > 0 {
      SumExtends(data, x, n - 1, cisco);
    }
  }

  /** Appending a zero byte never changes the plain checksum; it changes the sum of
      the Cisco variant exactly when it completes a word whose first byte is not 0. */
  lemma {:induction false} ZeroPadding(data: seq<byte>, cisco: bool)
    ensures var padded := data + [0];
      Sum(padded, WordCount(padded), cisco) == Sum(data, WordCount(data), cisco) <==>
      !cisco || |data| % 2 == 0 || data[|data| - 1] == 0
  {
    var padded, n := data + [0], |data| / 2;
    SumExtends(data, [0], n, cisco);
    SumNext(padded, n, cisco);
    if |data| % 2 == 1 {
      SumNext(data, n, cisco);
    }
  }

  /** One more word can make the 32-bit sum wrap, and the checksum is then wrong. */
  lemma {:induction false} LongerSumsWrap()
    ensures var data := seq(131076, _ => 255 as byte);
      WordCount(data) == 65538 && Fold(Wrap(Sum(data, 65538, false))) != OnesSum(data, 65538, false)
  {
    var data: seq<byte> := seq(131076, _ => 255);
    SumOfOnes(data, 65538);
    OnesSumReduces(data, 65538, false);
    assert Sum(data, 65538, false) == UINT + 65534;
    assert Wrap(UINT + 65534) == 65534;
    assert Fold(65534) == 65534;
    assert (UINT + 65534) % ONES == 0;
  }

  lemma {:induction false} SumOfOnes(data: seq<byte>, n: nat)
    requires 2 * n <= |data| && forall i :: 0 <= i < |data| ==> data[i] == 255
    ensures Sum(data, n, false) == n * ONES
  {
    if n > 0 {
      SumOfOnes(data, n - 1);
    }
  }

  lemma {:induction false} SwapTwice(n: nat)
    requires n <= ONES
    ensures BE16(Swap(n)) == LE(n, 2)
  {
    assert LE(n, 2) == [n % 256] + LE(n / 256, 1);
    assert LE(n / 256, 1) == [n / 256 % 256] + LE(n / 256 / 256, 0);
  }

  lemma {:induction false} ChecksumResult(data: seq<byte>, cisco: bool)
    ensures ChecksumOf(data, cisco) == Result(Wrap(Sum(data, WordCount(data), cisco)))
  {
  }

  lemma {:induction false} ChecksumBound(data: seq<byte>, cisco: bool)
    ensures ChecksumOf(data, cisco) <= ONES
  {
  }
  // ---------- Regions in pieces ----------

  /** The sum of all the words of a region. */
  function Total(s: seq<byte>, cisco: bool): nat
  {
    Sum(s, WordCount(s), cisco)
  }

  /** The words of a region cut at an even place. */
  lemma {:induction false} SumAppend(a: seq<byte>, b: seq<byte>, n: nat, cisco: bool)
    requires |a| % 2 == 0 && n <= WordCount(b)
    ensures WordCount(a + b) == |a| / 2 + WordCount(b) && WordCount(a) == |a| / 2
    ensures Sum(a + b, |a| / 2 + n, cisco) == Sum(a, |a| / 2, cisco) + Sum(b, n, cisco)
  {
    if n > 0 {
      SumAppend(a, b, n - 1, cisco);
      assert (a + b)[2 * (|a| / 2 + n - 1)] == b[2 * (n - 1)];
      assert 2 * n - 1 < |b| ==> (a + b)[2 * (|a| / 2 + n - 1) + 1] == b[2 * n - 1];
    } else {
      SumPrefix(a, b, |a| / 2, cisco);
    }
  }

  lemma {:induction false} SumPrefix(a: seq<byte>, b: seq<byte>, n: nat, cisco: bool)
    requires |a| % 2 == 0 && n <= |a| / 2
    ensures n <= WordCount(a) <= WordCount(a + b) && Sum(a + b, n, cisco) == Sum(a, n, cisco)
  {
    if n > 0 {
      SumPrefix(a, b, n - 1, cisco);
    }
  }

  lemma {:induction false} TotalAppend(a: seq<byte>, b: seq<byte>, cisco: bool)
    requires |a| % 2 == 0
    ensures Total(a + b, cisco) == Total(a, cisco) + Total(b, cisco)
  {
    SumAppend(a, b, WordCount(b), cisco);
  }

  /** Four words more. */
  lemma {:induction false} FourWords(s: seq<byte>, n: nat, cisco: bool)
    requires 2 * n + 8 <= |s|
    ensures n + 4 <= WordCount(s)
    ensures Sum(s, n + 4, cisco) == Sum(s, n, cisco)
      + 256 * (s[2 * n] as int + s[2 * n + 2] as int + s[2 * n + 4] as int + s[2 * n + 6] as int)
      + (s[2 * n + 1] as int + s[2 * n + 3] as int + s[2 * n + 5] as int + s[2 * n + 7] as int)
  {
    hide Sum;
    SumNext(s, n, cisco);
    SumNext(s, n + 1, cisco);
    SumNext(s, n + 2, cisco);
    SumNext(s, n + 3, cisco);
  }

  lemma {:induction false} EightByteTotal(s: seq<byte>, cisco: bool)
    requires |s| == 8
    ensures Total(s, cisco) ==
      256 * (s[0] as int + s[2] as int + s[4] as int + s[6] as int)
      + (s[1] as int + s[3] as int + s[5] as int + s[7] as int)
  {
    hide Sum;
    SumZero(s, cisco);
    FourWords(s, 0, cisco);
  }

  lemma {:induction false} FourByteTotal(s: seq<byte>, cisco: bool)
    requires |s| == 4
    ensures Total(s, cisco) == 256 * (s[0] as int + s[2] as int) + (s[1] as int + s[3] as int)
  {
    hide Sum;
    SumZero(s, cisco);
    SumNext(s, 0, cisco);
    SumNext(s, 1, cisco);
  }

  /** The checksum from the sum of the words, when that fits in 32 bits. */
  lemma {:induction false} ChecksumFromTotal(s: seq<byte>, cisco: bool)
    requires Total(s, cisco) < 0x1_0000_0000
    ensures ChecksumOf(s, cisco) == Result(Total(s, cisco))
  {
  }

  /** The word an octet left over is completed to. */
  function Completed(v: byte, cisco: bool): (w: seq<byte>)
    ensures |w| == 2
  {
    if !cisco then [v, 0] else if v < 0x80 then [0, v] else [0xFF, v - 1]
  }

  /** The checksum of an odd number of octets is that of the region completed to a word. */
  lemma {:induction false} OddChecksum(a: seq<byte>, v: byte, cisco: bool)
    requires |a| % 2 == 0
    ensures ChecksumOf(a + [v], cisco) == ChecksumOf(a + Completed(v, cisco), cisco)
  {
    hide Result, Wrap, Completed;
    TotalAppend(a, [v], cisco);
    TotalAppend(a, Completed(v, cisco), cisco);
    OneOctet(v, cisco);
    assert Total(a + [v], cisco) == Total(a + Completed(v, cisco), cisco);
  }

  lemma {:induction false} OneOctet(v: byte, cisco: bool)
    ensures Total([v], cisco) == Total(Completed(v, cisco), cisco)
  {
    hide Sum, LastWord;
    SumZero([v], cisco);
    SumNext([v], 0, cisco);
    var w := Completed(v, cisco);
    SumZero(w, cisco);
    SumNext(w, 0, cisco);
    LastWordIs(v);
  }

  /** Three octets in both variants, and none. */
  lemma {:induction false} ChecksumExamples()
    ensures ChecksumOf([0x12, 0x34, 0x80], false) == 0xCB6D
    ensures ChecksumOf([0x12, 0x34, 0x80], true) == 0x4BEE
    ensures ChecksumOf([], true) == 0xFFFF
  {
    hide ChecksumOf, Result;
    ExampleOf([0x12, 0x34], 0x80, false);
    ExampleOf([0x12, 0x34], 0x80, true);
    assert [0x12, 0x34] + [0x80] == [0x12, 0x34, 0x80];
    FewResults();
    SumZero([], true);
    ChecksumFromTotal([], true);
  }

  lemma {:induction false} FewResults()
    ensures Result(0x9234) == 0xCB6D && Result(0x111B3) == 0x4BEE && Result(0) == 0xFFFF
  {
    assert Fold(0x9234) == 0x9234 && Fold(0x111B3) == 0x11B4 && Fold(0) == 0;
    assert Swap(0x9234) == 0x3492 && Swap(0x11B4) == 0xB411 && Swap(0) == 0;
  }

  lemma {:induction false} ExampleOf(a: seq<byte>, v: byte, cisco: bool)
    requires |a| == 2
    ensures var w := Completed(v, cisco);
      var t := 256 * (a[0] as int + w[0] as int) + (a[1] as int + w[1] as int);
      ChecksumOf(a + [v], cisco) == Result(t)
  {
    hide Result, Completed;
    OddChecksum(a, v, cisco);
    var s := a + Completed(v, cisco);
    FourByteTotal(s, cisco);
    ChecksumFromTotal(s, cisco);
  }
}
