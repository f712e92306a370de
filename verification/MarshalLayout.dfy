/** The bytes the marshaller of src/marshal.c sends: the header of every record, and the
    whole of a structure that holds two strings, there and back. */
module MarshalLayout {
  import opened Bytes
  import opened Marshal
  import opened MarshalHeap
  import opened MarshalPatch

  /** Every record starts with its dummy, numbered from 1 in order of first visit, and its
      total length; what was met before sends nothing. */
  lemma {:induction false} RecordHeader(A: Arch, T: Table, mem: Mem, m: nat, a: nat, skip: bool, refs: seq<nat>,
      osize: int)
    requires ValidArch(A)
    ensures var r := Ser(A, T, mem, m, a, skip, refs, osize);
      r.Ok? ==>
        if a in refs then r.out == [] && r.refs == refs
        else
          && |r.out| >= 16 && r.out[..8] == A.enc(|refs| + 1) && r.out[8..16] == A.enc(|r.out|)
          && |r.refs| > |refs| && r.refs[|refs|] == a
  {
    hide SerFields, Load, Mapped, StrLen;
    var r := Ser(A, T, mem, m, a, skip, refs, osize);
    if r.Ok? && a !in refs && InfoOf(T, m).Struct? {
      var info := InfoOf(T, m);
      var obj := if skip then [] else Load(mem, a, info.bytes);
      var q := SerFields(A, T, mem, info.fields, 0, a, skip, obj, HEADER + |obj|, refs + [a], osize);
      assert refs + [a] <= q.refs;
      assert q.refs[|refs|] == (refs + [a])[|refs|];
    }
  }

  // ---------- A structure with two strings ----------

  /** A pointer to a string, a pointer to bytes, and at 16 how many they are. */
  const STRINGS: Table := [Struct(24, [Field(0, 0, Pointer, 1), Field(8, 16, Pointer, 2)]), NullString, FixedString]

  /** The structure is at a, the string s at p and the bytes t at q; w are its last eight
      bytes. */
  ghost predicate Laid(A: Arch, mem: Mem, a: nat, p: nat, q: nat, s: seq<byte>, t: seq<byte>, w: seq<byte>)
  {
    && |w| == 8 && A.int32(w[..4]) == |t| && 0 < p < WORDS && 0 < q < WORDS && a != p && a != q && p != q
    && a < |mem| && Mapped(mem, a, 24) && Load(mem, a, 24) == A.enc(p) + A.enc(q) + w
    && 0 !in s && Mapped(mem, p, |s| + 1) && Load(mem, p, |s| + 1) == s + [0]
    && Mapped(mem, q, |t|) && Load(mem, q, |t|) == t
  }

  /** Null bytes up to the next multiple of eight after a string and its null byte. */
  function Gap(s: seq<byte>): (g: nat)
    ensures (|s| + 1 + g) % 8 == 0 && g < 8
  {
    (7 - |s| % 8) % 8
  }

  function StringRecord(A: Arch, s: seq<byte>): seq<byte>
  {
    A.enc(2) + A.enc(17 + |s|) + s + [0]
  }

  function BytesRecord(A: Arch, t: seq<byte>): seq<byte>
  {
    A.enc(3) + A.enc(16 + |t|) + t
  }

  /** What is sent. */
  function Sent(A: Arch, s: seq<byte>, t: seq<byte>, w: seq<byte>): seq<byte>
  {
    A.enc(1) + A.enc(73 + |s| + Gap(s) + |t|) + (A.enc(2) + A.enc(3) + w)
      + (StringRecord(A, s) + (Zeros(Gap(s)) + BytesRecord(A, t)))
  }

  lemma {:induction false} StrLenIs(mem: Mem, p: nat, s: seq<byte>, i: nat)
    requires 0 !in s && i <= |s| && Mapped(mem, p, |s| + 1) && Load(mem, p, |s| + 1) == s + [0]
    ensures StrLen(mem, p + i) == Some(|s| - i)
    decreases |s| - i
  {
    var l := Load(mem, p, |s| + 1);
    assert l[i] == At(mem, p + i) && mem[p + i].Some?;
    if i < |s| {
      assert l[i] == s[i] && s[i] in s;
      StrLenIs(mem, p, s, i + 1);
    }
  }

  lemma {:induction false} SendString(A: Arch, mem: Mem, p: nat, s: seq<byte>, a: nat, osize: int)
    requires a != p && 0 !in s && Mapped(mem, p, |s| + 1) && Load(mem, p, |s| + 1) == s + [0]
    ensures Ser(A, STRINGS, mem, 1, p, false, [a], osize) == Ok(StringRecord(A, s), [a, p], {})
  {
    StrLenIs(mem, p, s, 0);
    hide Load, Mapped, StrLen;
    assert [a] + [p] == [a, p];
    assert A.enc(2) + A.enc(16 + (|s| + 1) + 0) + (s + [0]) + [] == StringRecord(A, s);
  }

  lemma {:induction false} SendBytes(A: Arch, mem: Mem, q: nat, t: seq<byte>, a: nat, p: nat)
    requires a != q && p != q && Mapped(mem, q, |t|) && Load(mem, q, |t|) == t
    ensures Ser(A, STRINGS, mem, 2, q, false, [a, p], |t|) == Ok(BytesRecord(A, t), [a, p, q], {})
  {
    hide Load, Mapped, StrLen;
    assert [a, p] + [q] == [a, p, q];
    assert A.enc(3) + A.enc(16 + |t| + 0) + t + [] == BytesRecord(A, t);
  }

  /** The words of the structure, as the loop over its fields reads them. */
  lemma {:induction false} LaidWords(A: Arch, mem: Mem, a: nat, p: nat, q: nat, s: seq<byte>, t: seq<byte>,
      w: seq<byte>)
    requires ValidArch(A) && Laid(A, mem, a, p, q, s, t, w)
    ensures Load(mem, a, 8) == A.enc(p) && Load(mem, a + 8, 8) == A.enc(q) && Load(mem, a + 16, 4) == w[..4]
  {
    hide Load;
    var e := A.enc(p) + A.enc(q) + w;
    LoadSlice(mem, a, 24, 0, 8);
    LoadSlice(mem, a, 24, 8, 8);
    LoadSlice(mem, a, 24, 16, 4);
    assert e[0..8] == A.enc(p) && e[8..16] == A.enc(q) && e[16..20] == w[..4];
  }

  const FIELDS: seq<Field> := [Field(0, 0, Pointer, 1), Field(8, 16, Pointer, 2)]

  lemma {:induction false} Renumbered(A: Arch, x: seq<byte>, y: seq<byte>, w: seq<byte>, a: nat, p: nat, q: nat)
    requires ValidArch(A) && |x| == |y| == |w| == 8 && a != p && a != q && p != q
    ensures Renumber(A, FIELDS[0], false, x + y + w, [a, p], p) == A.enc(2) + y + w
    ensures Renumber(A, FIELDS[1], false, x + y + w, [a, p, q], q) == x + A.enc(3) + w
  {
    assert IndexOf([a, p], p, 1) == 1 && IndexOf([a, p], p, 0) == 1;
    assert IndexOf([a, p, q], q, 2) == 2 && IndexOf([a, p, q], q, 1) == 2 && IndexOf([a, p, q], q, 0) == 2;
    var s := x + y + w;
    assert s[..0] + A.enc(2) + s[8..] == A.enc(2) + y + w;
    assert s[..8] + A.enc(3) + s[16..] == x + A.enc(3) + w;
  }

  lemma {:induction false} SendSecond(A: Arch, mem: Mem, a: nat, p: nat, q: nat, s: seq<byte>, t: seq<byte>,
      w: seq<byte>)
    requires ValidArch(A) && Laid(A, mem, a, p, q, s, t, w)
    ensures SerFields(A, STRINGS, mem, FIELDS, 1, a, false, A.enc(2) + A.enc(q) + w, 57 + |s|, [a, p], 0) ==
      FieldsOk(A.enc(2) + A.enc(3) + w, Zeros(Gap(s)) + BytesRecord(A, t), [a, p, q], {})
  {
    hide Load, Mapped, Ser, Renumber, BytesRecord, Zeros;
    var obj, f := A.enc(2) + A.enc(q) + w, FIELDS[1];
    LaidWords(A, mem, a, p, q, s, t, w);
    SendBytes(A, mem, q, t, a, p);
    Renumbered(A, A.enc(2), A.enc(q), w, a, p, q);
    assert SerPlan(A, mem, f, a, 0) == Visit(q, |t|);
    var piece := Piece(57 + |s|, BytesRecord(A, t));
    assert piece == Zeros(Gap(s)) + BytesRecord(A, t) by {
      SecondPiece(A, s, t);
    }
    assert SerFields(A, STRINGS, mem, FIELDS, 2, a, false, A.enc(2) + A.enc(3) + w, 57 + |s| + |piece|, [a, p, q], |t|)
      == FieldsOk(A.enc(2) + A.enc(3) + w, [], [a, p, q], {});
    assert piece + [] == piece;
  }

  lemma {:induction false} SecondPiece(A: Arch, s: seq<byte>, t: seq<byte>)
    requires ValidArch(A)
    ensures PadLen(40) == 0 && PadLen(57 + |s|) == Gap(s) && |BytesRecord(A, t)| == 16 + |t|
    ensures |StringRecord(A, s)| == 17 + |s|
    ensures Piece(57 + |s|, BytesRecord(A, t)) == Zeros(Gap(s)) + BytesRecord(A, t)
    ensures Piece(40, StringRecord(A, s)) == StringRecord(A, s)
  {
    assert Zeros(0) + StringRecord(A, s) == StringRecord(A, s);
    Multiples(|s|);
  }

  lemma {:induction false} Multiples(n: nat)
    ensures (8 - (57 + n) % 8) % 8 == (7 - n % 8) % 8
  {
    var m := n % 8;
    assert n == n / 8 * 8 + m;
    assert (57 + n) % 8 == (m + 1) % 8;
  }

  lemma {:induction false} SendFields(A: Arch, mem: Mem, a: nat, p: nat, q: nat, s: seq<byte>, t: seq<byte>,
      w: seq<byte>)
    requires ValidArch(A) && Laid(A, mem, a, p, q, s, t, w)
    ensures SerFields(A, STRINGS, mem, FIELDS, 0, a, false, A.enc(p) + A.enc(q) + w, 40, [a], 0) ==
      FieldsOk(A.enc(2) + A.enc(3) + w, StringRecord(A, s) + (Zeros(Gap(s)) + BytesRecord(A, t)), [a, p, q], {})
  {
    hide Load, Mapped, Ser, Renumber, BytesRecord, StringRecord, Zeros, Piece;
    LaidWords(A, mem, a, p, q, s, t, w);
    SendString(A, mem, p, s, a, 0);
    Renumbered(A, A.enc(p), A.enc(q), w, a, p, q);
    SecondPiece(A, s, t);
    SendSecond(A, mem, a, p, q, s, t, w);
    assert SerPlan(A, mem, FIELDS[0], a, 0) == Visit(p, 0);
    assert 40 + |StringRecord(A, s)| == 57 + |s|;
  }

  /** The structure and its two strings, byte by byte. */
  lemma {:induction false} SentBytes(A: Arch, mem: Mem, a: nat, p: nat, q: nat, s: seq<byte>, t: seq<byte>,
      w: seq<byte>)
    requires ValidArch(A) && Laid(A, mem, a, p, q, s, t, w)
    ensures Ser(A, STRINGS, mem, 0, a, false, [], 0) == Ok(Sent(A, s, t, w), [a, p, q], {})
  {
    hide Load, Mapped, SerFields, BytesRecord, StringRecord, Record, Sent, Gap;
    SendFields(A, mem, a, p, q, s, t, w);
    SentRecord(A, s, t, w);
    assert [] + [a] == [a];
    assert InfoOf(STRINGS, 0) == Struct(24, FIELDS);
  }

  lemma {:induction false} SentRecord(A: Arch, s: seq<byte>, t: seq<byte>, w: seq<byte>)
    requires ValidArch(A) && |w| == 8
    ensures Record(A, 1, A.enc(2) + A.enc(3) + w, StringRecord(A, s) + (Zeros(Gap(s)) + BytesRecord(A, t))) ==
      Sent(A, s, t, w)
  {
    hide BytesRecord, StringRecord, Gap, Piece, PadLen;
    SecondPiece(A, s, t);
  }

  // ---------- A length for two ----------

  /** Two pointers to bytes; only the first says where the length is. */
  const COUNTED: Table := [Struct(24, [Field(0, 16, Pointer, 1), Field(8, 0, Pointer, 1)]), FixedString]
  const COUNTED_FIELDS: seq<Field> := [Field(0, 16, Pointer, 1), Field(8, 0, Pointer, 1)]

  ghost predicate Counted(A: Arch, mem: Mem, a: nat, p: nat, q: nat, t: seq<byte>, u: seq<byte>, w: seq<byte>)
  {
    && |w| == 8 && A.int32(w[..4]) == |t| == |u| && 0 < p < WORDS && 0 < q < WORDS && a != p && a != q && p != q
    && a < |mem| && Mapped(mem, a, 24) && Load(mem, a, 24) == A.enc(p) + A.enc(q) + w
    && Mapped(mem, p, |t|) && Load(mem, p, |t|) == t && Mapped(mem, q, |u|) && Load(mem, q, |u|) == u
  }

  lemma {:induction false} CountedWords(A: Arch, mem: Mem, a: nat, p: nat, q: nat, t: seq<byte>, u: seq<byte>,
      w: seq<byte>)
    requires ValidArch(A) && Counted(A, mem, a, p, q, t, u, w)
    ensures SerPlan(A, mem, COUNTED_FIELDS[0], a, 0) == Visit(p, |t|)
    ensures SerPlan(A, mem, COUNTED_FIELDS[1], a, |t|) == Visit(q, |t|)
  {
    hide Load;
    var e := A.enc(p) + A.enc(q) + w;
    LoadSlice(mem, a, 24, 0, 8);
    LoadSlice(mem, a, 24, 8, 8);
    LoadSlice(mem, a, 24, 16, 4);
    assert e[0..8] == A.enc(p) && e[8..16] == A.enc(q) && e[16..20] == w[..4];
  }

  lemma {:induction false} SendCounted(A: Arch, mem: Mem, q: nat, t: seq<byte>, refs: seq<nat>)
    requires q !in refs && Mapped(mem, q, |t|) && Load(mem, q, |t|) == t
    ensures Ser(A, COUNTED, mem, 1, q, false, refs, |t|) ==
      Ok(A.enc(|refs| + 1) + A.enc(16 + |t|) + t, refs + [q], {})
  {
    hide Load, Mapped, StrLen;
    var d := |refs| + 1;
    assert A.enc(d) + A.enc(16 + |t| + 0) + t + [] == A.enc(d) + A.enc(16 + |t|) + t;
  }

  lemma {:induction false} NoGap(out: seq<byte>)
    ensures Piece(40, out) == out
  {
    assert Zeros(0) + out == out;
  }

  /** Where the second record may start. */
  function After(t: seq<byte>): nat
  {
    56 + |t|
  }

  /** The length read for one pointer serves the pointers after it. */
  lemma {:induction false} LengthCarried(A: Arch, mem: Mem, a: nat, p: nat, q: nat, t: seq<byte>, u: seq<byte>,
      w: seq<byte>)
    requires ValidArch(A) && Counted(A, mem, a, p, q, t, u, w)
    ensures SerFields(A, COUNTED, mem, COUNTED_FIELDS, 0, a, false, A.enc(p) + A.enc(q) + w, 40, [a], 0) ==
      FieldsOk(A.enc(2) + A.enc(3) + w,
        A.enc(2) + A.enc(16 + |t|) + t + (Zeros(PadLen(After(t))) + (A.enc(3) + A.enc(16 + |u|) + u)), [a, p, q], {})
  {
    hide Load, Mapped, Ser, Renumber, Zeros, SerPlan;
    CountedWords(A, mem, a, p, q, t, u, w);
    SendCounted(A, mem, p, t, [a]);
    assert [a] + [p] == [a, p];
    var first := A.enc(2) + A.enc(16 + |t|) + t;
    NoGap(first);
    hide Piece;
    CountedSecond(A, mem, a, p, q, t, u, w);
    CountedRenumbered(A, A.enc(p), A.enc(q), w, a, p, q);
  }

  lemma {:induction false} CountedRenumbered(A: Arch, x: seq<byte>, y: seq<byte>, w: seq<byte>, a: nat, p: nat, q: nat)
    requires ValidArch(A) && |x| == |y| == |w| == 8 && a != p && a != q && p != q
    ensures Renumber(A, COUNTED_FIELDS[0], false, x + y + w, [a, p], p) == A.enc(2) + y + w
    ensures Renumber(A, COUNTED_FIELDS[1], false, x + y + w, [a, p, q], q) == x + A.enc(3) + w
  {
    hide IndexOf, Write;
    Renumbered(A, x, y, w, a, p, q);
  }

  lemma {:induction false} CountedSecond(A: Arch, mem: Mem, a: nat, p: nat, q: nat, t: seq<byte>, u: seq<byte>,
      w: seq<byte>)
    requires ValidArch(A) && Counted(A, mem, a, p, q, t, u, w)
    ensures SerFields(A, COUNTED, mem, COUNTED_FIELDS, 1, a, false, A.enc(2) + A.enc(q) + w, After(t), [a, p], |t|) ==
      FieldsOk(A.enc(2) + A.enc(3) + w, Zeros(PadLen(After(t))) + (A.enc(3) + A.enc(16 + |u|) + u), [a, p, q], {})
  {
    hide Load, Mapped, Ser, Renumber, Zeros, SerPlan;
    CountedWords(A, mem, a, p, q, t, u, w);
    SendCounted(A, mem, q, u, [a, p]);
    assert [a, p] + [q] == [a, p, q];
    CountedRenumbered(A, A.enc(2), A.enc(q), w, a, p, q);
    var piece := Piece(After(t), A.enc(3) + A.enc(16 + |u|) + u);
    var obj := A.enc(2) + A.enc(3) + w;
    assert SerFields(A, COUNTED, mem, COUNTED_FIELDS, 2, a, false, obj, After(t) + |piece|, [a, p, q], |t|) ==
      FieldsOk(obj, [], [a, p, q], {});
    assert piece + [] == piece;
  }

  // ---------- And back ----------

  lemma {:induction false} StrNLenIs(buf: seq<byte>, at: nat, s: seq<byte>, i: nat)
    requires 0 !in s && i <= |s| && at + |s| < |buf| && buf[at..at + |s| + 1] == s + [0]
    ensures StrNLen(buf, at + i) == |s| - i
    decreases |s| - i
  {
    assert buf[at + i] == buf[at..at + |s| + 1][i];
    if i < |s| {
      assert s[i] in s;
      StrNLenIs(buf, at, s, i + 1);
    }
  }

  /** Where the pieces of what is sent are. */
  lemma {:induction false} Places(A: Arch, s: seq<byte>, t: seq<byte>, w: seq<byte>, x: seq<byte>)
    requires ValidArch(A) && |w| == 8
    ensures var buf := Sent(A, s, t, w) + x;
      var at := 57 + |s| + Gap(s);
      && |Sent(A, s, t, w)| == at + 16 + |t| && |buf| >= at + 16 + |t|
      && buf[..8] == A.enc(1) && buf[16..40] == A.enc(2) + A.enc(3) + w
      && buf[40..48] == A.enc(2) && buf[56..57 + |s|] == s + [0]
      && buf[at..at + 8] == A.enc(3) && buf[at + 16..at + 16 + |t|] == t
  {
    hide Gap;
    var head, str, gap, bytes := A.enc(1) + A.enc(73 + |s| + Gap(s) + |t|), StringRecord(A, s), Zeros(Gap(s)),
      BytesRecord(A, t);
    var obj := A.enc(2) + A.enc(3) + w;
    assert Sent(A, s, t, w) == head + obj + (str + (gap + bytes));
    Cut(head, obj, str, gap, bytes, x);
    assert head[..8] == A.enc(1);
    assert str[..8] == A.enc(2) && str[16..17 + |s|] == s + [0];
    assert bytes[..8] == A.enc(3) && bytes[16..16 + |t|] == t;
  }

  lemma {:induction false} Cut(head: seq<byte>, obj: seq<byte>, str: seq<byte>, gap: seq<byte>, bytes: seq<byte>,
      x: seq<byte>)
    requires |head| == 16 && |obj| == 24 && |str| >= 16 && |bytes| >= 16
    ensures var buf := head + obj + (str + (gap + bytes)) + x;
      var at := 40 + |str| + |gap|;
      && |buf| == at + |bytes| + |x| && buf[..8] == head[..8] && buf[16..40] == obj
      && buf[40..48] == str[..8] && buf[56..40 + |str|] == str[16..]
      && buf[at..at + 8] == bytes[..8] && buf[at + 16..at + |bytes|] == bytes[16..]
  {
  }

  lemma {:induction false} Poked(A: Arch, orig: nat, x: seq<byte>, y: seq<byte>, w: seq<byte>, rest: seq<Block>, n: nat)
    requires ValidArch(A) && |x| == |y| == |w| == 8
    ensures var G := [Block(orig, x + y + w)] + rest;
      && Peek(G, 0, 0, 8) == x && Peek(G, 0, 8, 8) == y && Peek(G, 0, 16, 4) == w[..4]
      && Poke(G, 0, 0, A.enc(n)) == [Block(orig, A.enc(n) + y + w)] + rest
      && Poke(G, 0, 8, A.enc(n)) == [Block(orig, x + A.enc(n) + w)] + rest
  {
    var d := x + y + w;
    assert d[0..8] == x && d[8..16] == y && d[16..20] == w[..4];
    assert d[..0] + A.enc(n) + d[8..] == A.enc(n) + y + w;
    assert d[..8] + A.enc(n) + d[16..] == x + A.enc(n) + w;
  }

  lemma {:induction false} ReceiveString(A: Arch, s: seq<byte>, t: seq<byte>, w: seq<byte>, x: seq<byte>, G: seq<Block>)
    requires ValidArch(A) && |w| == 8 && 0 !in s
    ensures var buf := Sent(A, s, t, w) + x;
      Un(A, STRINGS, 1, buf, 40, G, 0, 0, false, 0) == Done(17 + |s|, G + [Block(2, s + [0])])
  {
    hide Sent, Gap;
    Places(A, s, t, w, x);
    var buf := Sent(A, s, t, w) + x;
    StrNLenIs(buf, 56, s, 0);
    hide StrNLen;
    assert Slice(buf, 40, 8) == buf[40..48] && Slice(buf, 56, |s| + 1) == buf[56..57 + |s|];
    assert InfoOf(STRINGS, 1) == NullString;
  }

  lemma {:induction false} ReceiveBytes(A: Arch, s: seq<byte>, t: seq<byte>, w: seq<byte>, x: seq<byte>, G: seq<Block>)
    requires ValidArch(A) && |w| == 8
    ensures var buf := Sent(A, s, t, w) + x;
      Un(A, STRINGS, 2, buf, 57 + |s| + Gap(s), G, 0, 8, false, |t|) == Done(16 + |t|, G + [Block(3, t + [0])])
  {
    hide Sent, Gap;
    Places(A, s, t, w, x);
    var buf := Sent(A, s, t, w) + x;
    var at := 57 + |s| + Gap(s);
    assert Slice(buf, at, 8) == buf[at..at + 8] && Slice(buf, at + 16, |t|) == buf[at + 16..at + 16 + |t|];
    assert InfoOf(STRINGS, 2) == FixedString;
  }

  lemma {:induction false} ReceiveSecond(A: Arch, s: seq<byte>, t: seq<byte>, w: seq<byte>, x: seq<byte>)
    requires ValidArch(A) && |w| == 8 && A.int32(w[..4]) == |t| && 57 + |s| <= |Sent(A, s, t, w) + x|
    ensures var buf := Sent(A, s, t, w) + x;
      UnFields(A, STRINGS, FIELDS, 1, buf, 0, 57 + |s|,
        [Block(1, A.enc(A.alloc(1)) + A.enc(3) + w), Block(2, s + [0])], 0, 0, 0) ==
      Done(|Sent(A, s, t, w)|,
        [Block(1, A.enc(A.alloc(1)) + A.enc(A.alloc(2)) + w), Block(2, s + [0]), Block(3, t + [0])])
  {
    hide Sent, Gap, Un, Peek, Poke, Find;
    Places(A, s, t, w, x);
    var buf := Sent(A, s, t, w) + x;
    var y := A.enc(A.alloc(1));
    var G := [Block(1, y + A.enc(3) + w), Block(2, s + [0])];
    var G' := G + [Block(3, t + [0])];
    assert G == [Block(1, y + A.enc(3) + w)] + [Block(2, s + [0])];
    assert G' == [Block(1, y + A.enc(3) + w)] + [Block(2, s + [0]), Block(3, t + [0])];
    Poked(A, 1, y, A.enc(3), w, [Block(2, s + [0])], A.alloc(2));
    Poked(A, 1, y, A.enc(3), w, [Block(2, s + [0]), Block(3, t + [0])], A.alloc(2));
    NotFound(G, 3);
    SecondPiece(A, s, t);
    ReceiveBytes(A, s, t, w, x, G);
    var f := FIELDS[1];
    assert UnPlan(A, f, G, 0, 0, 0) == Parse(|t|);
  }

  lemma {:induction false} NotFound(G: seq<Block>, orig: nat)
    requires |G| <= 2 && forall i :: 0 <= i < |G| ==> G[i].orig != orig
    ensures Find(G, orig) == None
  {
    assert Find(G, orig, 2) == None;
    assert Find(G, orig, 1) == None;
  }

  /** What was sent is read back: the structure with the new addresses of its strings,
      and the strings, the bytes with a null byte after them. */
  lemma {:induction false} ReadBack(A: Arch, s: seq<byte>, t: seq<byte>, w: seq<byte>, x: seq<byte>)
    requires ValidArch(A) && |w| == 8 && A.int32(w[..4]) == |t| && 0 !in s
    ensures Un(A, STRINGS, 0, Sent(A, s, t, w) + x, 0, [], 0, 0, false, 0) ==
      Done(|Sent(A, s, t, w)|,
        [Block(1, A.enc(A.alloc(1)) + A.enc(A.alloc(2)) + w), Block(2, s + [0]), Block(3, t + [0])])
  {
    hide Sent, Gap, UnFields, Find, Peek, Poke;
    Places(A, s, t, w, x);
    var buf := Sent(A, s, t, w) + x;
    assert Slice(buf, 0, 8) == buf[..8] && Slice(buf, 16, 24) == buf[16..40];
    assert InfoOf(STRINGS, 0) == Struct(24, FIELDS);
    var G := [Block(1, A.enc(2) + A.enc(3) + w)];
    assert Alloc(A, buf, 0, [], Slice(buf, 16, 24)) == G;
    ReceiveFirst(A, s, t, w, x);
  }

  lemma {:induction false} ReceiveFirst(A: Arch, s: seq<byte>, t: seq<byte>, w: seq<byte>, x: seq<byte>)
    requires ValidArch(A) && |w| == 8 && A.int32(w[..4]) == |t| && 0 !in s && 40 <= |Sent(A, s, t, w) + x|
    ensures var buf := Sent(A, s, t, w) + x;
      UnFields(A, STRINGS, FIELDS, 0, buf, 0, 40, [Block(1, A.enc(2) + A.enc(3) + w)], 0, 0, 0) ==
      Done(|Sent(A, s, t, w)|,
        [Block(1, A.enc(A.alloc(1)) + A.enc(A.alloc(2)) + w), Block(2, s + [0]), Block(3, t + [0])])
  {
    hide Sent, Gap, Un, Peek, Poke, Find;
    Places(A, s, t, w, x);
    var G := [Block(1, A.enc(2) + A.enc(3) + w)];
    assert G == G + [];
    Poked(A, 1, A.enc(2), A.enc(3), w, [], A.alloc(1));
    Poked(A, 1, A.enc(2), A.enc(3), w, [Block(2, s + [0])], A.alloc(1));
    NotFound(G, 2);
    SecondPiece(A, s, t);
    ReceiveString(A, s, t, w, x, G);
    assert UnPlan(A, FIELDS[0], G, 0, 0, 0) == Parse(0);
    var G' := [Block(1, A.enc(A.alloc(1)) + A.enc(3) + w)] + [Block(2, s + [0])];
    assert G' == [Block(1, A.enc(A.alloc(1)) + A.enc(3) + w), Block(2, s + [0])];
    assert Link(A, FIELDS[0], 1, G + [Block(2, s + [0])], 0, 0) == G';
    ReceiveSecond(A, s, t, w, x);
  }
}
