/** What the unserializer of src/marshal.c does on any bytes whatsoever. */
module MarshalWire {
  import opened Bytes
  import opened Marshal

  lemma {:induction false} StrNLenExtends(s: seq<byte>, x: seq<byte>, i: nat)
    requires i + StrNLen(s, i) < |s|
    ensures StrNLen(s + x, i) == StrNLen(s, i)
    decreases |s| - i
  {
    if s[i] != 0 {
      StrNLenExtends(s, x, i + 1);
    }
  }

  lemma {:induction false} SliceExtends(s: seq<byte>, x: seq<byte>, at: nat, n: nat)
    requires at + n <= |s|
    ensures Slice(s + x, at, n) == Slice(s, at, n)
  {
  }

  /** Bytes after the ones consumed never matter. */
  lemma {:induction false} UnExtends(A: Arch, T: Table, m: nat, buf: seq<byte>, x: seq<byte>, p: nat, G: seq<Block>,
      b: nat, o: nat, skip: bool, osize: int)
    requires Un(A, T, m, buf, p, G, b, o, skip, osize).Done?
    ensures Un(A, T, m, buf + x, p, G, b, o, skip, osize) == Un(A, T, m, buf, p, G, b, o, skip, osize)
    decreases |buf| - p, 1, 0
  {
    SliceExtends(buf, x, p, PTR);
    match InfoOf(T, m)
    case NullString =>
      StrNLenExtends(buf, x, p + HEADER);
      SliceExtends(buf, x, p + HEADER, StrNLen(buf, p + HEADER) + 1);
    case FixedString =>
      SliceExtends(buf, x, p + HEADER, osize);
    case Struct(size, fields) =>
      if skip {
        UnFieldsExtends(A, T, fields, 0, buf, x, p, HEADER, G, b, o, osize);
      } else {
        SliceExtends(buf, x, p + HEADER, size);
        var G' := Alloc(A, buf, p, G, Slice(buf, p + HEADER, size));
        UnFieldsExtends(A, T, fields, 0, buf, x, p, HEADER + size, G', |G|, 0, osize);
      }
  }

  lemma {:induction false} UnFieldsExtends(A: Arch, T: Table, fields: seq<Field>, k: nat, buf: seq<byte>, x: seq<byte>,
      p: nat, total: nat, G: seq<Block>, b: nat, o: nat, osize: int)
    requires HEADER <= total && p + total <= |buf|
    requires UnFields(A, T, fields, k, buf, p, total, G, b, o, osize).Done?
    ensures UnFields(A, T, fields, k, buf + x, p, total, G, b, o, osize) ==
      UnFields(A, T, fields, k, buf, p, total, G, b, o, osize)
    decreases |buf| - p, 0, |fields| - k
  {
    hide Un, UnPlan, PadLen, Link;
    if k < |fields| {
      var f := fields[k];
      match UnPlan(A, f, G, b, o, osize)
      case Settled(G') =>
        UnFieldsExtends(A, T, fields, k + 1, buf, x, p, total, G', b, o, osize);
      case Parse(osize') =>
        var at := total + PadLen(total);
        UnExtends(A, T, f.mi, buf, x, p + at, G, b, o + f.offset, f.kind == Substruct, osize');
        var r := Un(A, T, f.mi, buf, p + at, G, b, o + f.offset, f.kind == Substruct, osize');
        UnFieldsExtends(A, T, fields, k + 1, buf, x, p, at + r.len, Link(A, f, |G|, r.blocks, b, o), b, o, osize');
    }
  }

  /** Whatever the bytes, if `n` of them are consumed then no strict prefix of
      those n is accepted: a truncated buffer is always refused. */
  lemma {:induction false} PrefixRejected(A: Arch, T: Table, m: nat, buf: seq<byte>, cut: nat, osize: int)
    requires Un(A, T, m, buf, 0, [], 0, 0, false, osize).Done?
    requires cut < Un(A, T, m, buf, 0, [], 0, 0, false, osize).len
    ensures Un(A, T, m, buf[..cut], 0, [], 0, 0, false, osize) == Fail
  {
    assert buf[..cut] + buf[cut..] == buf;
    if Un(A, T, m, buf[..cut], 0, [], 0, 0, false, osize).Done? {
      UnExtends(A, T, m, buf[..cut], buf[cut..], 0, [], 0, 0, false, osize);
    }
  }
}
