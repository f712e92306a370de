/** The cursor that src/daemon/frame.h moves over a packet with its POKE_* and PEEK_*
    macros: `pos` and the `length` of what remains. */
module Frame {
  import opened Bytes

  class Cursor {
    var bytes: seq<byte>
    var pos: nat
    var length: int

    ghost predicate Valid()
      reads this
    {
      length >= 0 && pos + length == |bytes|
    }

    /** What has been written. */
    ghost function Written(): seq<byte>
      reads this
      requires Valid()
    {
      bytes[..pos]
    }

    constructor (packet: seq<byte>)
      ensures Valid() && bytes == packet && pos == 0
    {
      bytes, pos, length := packet, 0, |packet|;
    }

    // ---------- POKE: nothing is written when there is no room ----------

    method PokeBytes(value: seq<byte>) returns (ok: bool)
      requires Valid()
      modifies this
      ensures Valid() && |bytes| == old(|bytes|) && ok == (|value| <= old(length))
      ensures ok ==> bytes == Write(old(bytes), old(pos), value) && pos == old(pos) + |value|
      ensures ok ==> Written() == old(Written()) + value
      ensures !ok ==> bytes == old(bytes) && pos == old(pos)
    {
      ok := length >= |value|;
      if ok {
        WriteNext(bytes, pos, value);
        bytes := Write(bytes, pos, value);
        length := length - |value|;
        pos := pos + |value|;
      }
    }

    method PokeUint8(value: nat) returns (ok: bool)
      requires Valid()
      modifies this
      ensures Valid() && |bytes| == old(|bytes|) && ok == (1 <= old(length))
      ensures ok ==> bytes == Write(old(bytes), old(pos), [value % 256]) && pos == old(pos) + 1
      ensures ok ==> Written() == old(Written()) + [value % 256]
      ensures !ok ==> bytes == old(bytes) && pos == old(pos)
    {
      ok := PokeBytes([value % 256]);
    }

    method PokeUint16(value: nat) returns (ok: bool)
      requires Valid()
      modifies this
      ensures Valid() && |bytes| == old(|bytes|) && ok == (2 <= old(length))
      ensures ok ==> bytes == Write(old(bytes), old(pos), BE16(value)) && pos == old(pos) + 2
      ensures ok ==> Written() == old(Written()) + BE16(value)
      ensures !ok ==> bytes == old(bytes) && pos == old(pos)
    {
      ok := PokeBytes(BE16(value));
    }

    method PokeUint32(value: nat) returns (ok: bool)
      requires Valid()
      modifies this
      ensures Valid() && |bytes| == old(|bytes|) && ok == (4 <= old(length))
      ensures ok ==> bytes == Write(old(bytes), old(pos), BE32(value)) && pos == old(pos) + 4
      ensures ok ==> Written() == old(Written()) + BE32(value)
      ensures !ok ==> bytes == old(bytes) && pos == old(pos)
    {
      ok := PokeBytes(BE32(value));
    }

    // ---------- PEEK: the caller has checked that the bytes are there ----------

    method PeekUint8() returns (value: nat)
      requires Valid() && length >= 1
      modifies this
      ensures Valid() && bytes == old(bytes) && pos == old(pos) + 1
      ensures value == bytes[old(pos)]
    {
      value := bytes[pos];
      length := length - 1;
      pos := pos + 1;
    }

    method PeekUint16() returns (value: nat)
      requires Valid() && length >= 2
      modifies this
      ensures Valid() && bytes == old(bytes) && pos == old(pos) + 2
      ensures value == UnBE16(bytes, old(pos))
    {
      value := UnBE16(bytes, pos);
      length := length - 2;
      pos := pos + 2;
    }

    method PeekUint32() returns (value: nat)
      requires Valid() && length >= 4
      modifies this
      ensures Valid() && bytes == old(bytes) && pos == old(pos) + 4
      ensures value == UnBE32(bytes, old(pos))
    {
      value := UnBE32(bytes, pos);
      length := length - 4;
      pos := pos + 4;
    }

    method PeekBytes(n: nat) returns (value: seq<byte>)
      requires Valid() && length >= n
      modifies this
      ensures Valid() && bytes == old(bytes) && pos == old(pos) + n
      ensures value == bytes[old(pos)..old(pos) + n]
    {
      value := bytes[pos..pos + n];
      length := length - n;
      pos := pos + n;
    }

    /** The number of bytes may be negative: back to the end of the current TLV. */
    method Discard(n: int)
      requires Valid() && n <= length && 0 <= pos + n
      modifies this
      ensures Valid() && bytes == old(bytes) && pos == old(pos) + n
    {
      length := length - n;
      pos := pos + n;
    }

    /** POKE_RESTORE and PEEK_RESTORE: `where` is a saved position. */
    method Restore(where: nat)
      requires Valid() && where <= |bytes|
      modifies this
      ensures Valid() && bytes == old(bytes) && pos == where
    {
      if where > pos {
        length := length - (where - pos);
      } else {
        length := length + (pos - where);
      }
      pos := where;
    }

    // ---------- TLVs of CDP: type, length including both, value ----------

    method StartTlv(kind: nat) returns (ok: bool, tlv: nat)
      requires Valid()
      modifies this
      ensures Valid() && |bytes| == old(|bytes|) && ok == (4 <= old(length))
      ensures ok ==> pos == old(pos) + 4 && tlv == old(pos) + 2 && Written() == old(Written()) + BE16(kind) + BE16(0)
    {
      ok := PokeUint16(kind);
      tlv := pos;
      ok := PokeUint16(0);
    }

    /** The same for EDP, whose first two bytes are a marker and the type. */
    method StartMarkedTlv(marker: nat, kind: nat) returns (ok: bool, tlv: nat)
      requires Valid() && marker < 256 && kind < 256
      modifies this
      ensures Valid() && |bytes| == old(|bytes|) && ok == (4 <= old(length))
      ensures ok ==> pos == old(pos) + 4 && tlv == old(pos) + 2
      ensures ok ==> Written() == old(Written()) + BE16(marker * 256 + kind) + BE16(0)
    {
      ghost var w := Written();
      ok := PokeUint8(marker);
      ok := PokeUint8(kind);
      tlv := pos;
      ok := PokeUint16(0);
      if ok {
        assert BE16(marker * 256 + kind) == [marker, kind];
        assert w + [marker % 256] + [kind % 256] == w + [marker, kind];
      }
    }

    method EndTlv(tlv: nat)
      requires Valid() && tlv + 2 <= pos
      modifies this
      ensures Valid() && pos == old(pos) && length == old(length)
      ensures bytes == Write(old(bytes), tlv, BE16(pos - tlv + 2))
    {
      bytes := Write(bytes, tlv, BE16(pos - tlv + 2));
    }
  }
}
