/** The list of blocks as it grows towards the expected copies. */
module MarshalGrow {
  import opened Bytes
  import opened Marshal
  import opened MarshalHeap
  import opened MarshalLookup

  /** G followed by the finished copies of the objects met up to n. */
  function Grow(E: Env, G: seq<Block>, n: nat): seq<Block>
  {
    if |G| <= Rank(E, n) then G + Copies(E, n)[|G|..] else G
  }

  function SetData(G: seq<Block>, b: nat, D: seq<byte>): seq<Block>
  {
    if b < |G| then G[b := G[b].(data := D)] else G
  }

  /** G grown to n, with block b holding D. */
  function After(E: Env, G: seq<Block>, b: nat, D: seq<byte>, n: nat): seq<Block>
  {
    SetData(Grow(E, G, n), b, D)
  }

  lemma {:induction false} GrowTracks(E: Env, G: seq<Block>, n: nat, n': nat)
    requires Tracks(E, n, G) && n <= n' <= |E.refs|
    ensures Tracks(E, n', Grow(E, G, n')) && G <= Grow(E, G, n')
  {
    hide Copies, Rank;
    RankGrows(E, n, n');
    CopiesGrow(E, n, n');
    forall j | 0 <= j < Rank(E, n') ensures Grow(E, G, n')[j].orig == Copies(E, n')[j].orig {
      if j < |G| {
        assert Copies(E, n)[j] == Copies(E, n')[j];
      }
    }
  }

  lemma {:induction false} AfterTracks(E: Env, G: seq<Block>, b: nat, D: seq<byte>, n: nat, n': nat)
    requires Tracks(E, n, G) && n <= n' <= |E.refs| && b < |G|
    ensures Tracks(E, n', After(E, G, b, D, n'))
    ensures b < |After(E, G, b, D, n')| && After(E, G, b, D, n')[b].data == D
  {
    GrowTracks(E, G, n, n');
  }

  lemma {:induction false} GrowHere(E: Env, G: seq<Block>, n: nat)
    requires Tracks(E, n, G)
    ensures Grow(E, G, n) == G
  {
  }

  lemma {:induction false} AfterAfter(E: Env, G: seq<Block>, b: nat, D: seq<byte>, D': seq<byte>, n: nat, n': nat,
      n'': nat)
    requires Tracks(E, n, G) && n <= n' <= n'' <= |E.refs| && b < |G|
    ensures After(E, After(E, G, b, D, n'), b, D', n'') == After(E, G, b, D', n'')
  {
    hide Copies, Rank;
    GrowTracks(E, G, n, n');
    GrowTracks(E, G, n, n'');
    RankGrows(E, n', n'');
    CopiesGrow(E, n', n'');
    var L, R := After(E, After(E, G, b, D, n'), b, D', n''), After(E, G, b, D', n'');
    assert |L| == |R|;
    forall j | 0 <= j < |L| ensures L[j] == R[j] {
      if |G| <= j < Rank(E, n') {
        assert Copies(E, n')[j] == Copies(E, n'')[j];
      }
    }
  }

  lemma {:induction false} TracksNew(E: Env, G: seq<Block>, n: nat, data: seq<byte>)
    requires Tracks(E, n, G) && n < |E.refs| && E.refs[n] in E.objs
    ensures Tracks(E, n + 1, G + [Block(n + 1, data)])
  {
    RankStep(E, n);
    CopyAt(E, n + 1, n);
    CopiesGrow(E, n, n + 1);
    hide Copies, Rank;
    assert forall j :: 0 <= j < |G| ==> Copies(E, n)[j] == Copies(E, n + 1)[j];
  }

  lemma {:induction false} GrowAt(E: Env, G: seq<Block>, n: nat, j: nat)
    requires |G| <= Rank(E, n) && j < Rank(E, n)
    ensures |Grow(E, G, n)| == Rank(E, n)
    ensures Grow(E, G, n)[j] == if j < |G| then G[j] else Copies(E, n)[j]
  {
  }

  /** A new block, once complete, is the next expected copy. */
  lemma {:induction false} AfterNew(E: Env, G: seq<Block>, n: nat, n': nat, data: seq<byte>)
    requires Tracks(E, n, G) && n < n' <= |E.refs| && E.refs[n] in E.objs
    ensures Tracks(E, n + 1, G + [Block(n + 1, data)])
    ensures After(E, G + [Block(n + 1, data)], |G|, Image(E, E.refs[n]), n') == Grow(E, G, n')
  {
    var G' := G + [Block(n + 1, data)];
    TracksNew(E, G, n, data);
    RankGrows(E, n + 1, n');
    CopyAt(E, n', n);
    var L, R := After(E, G', |G|, Image(E, E.refs[n]), n'), Grow(E, G, n');
    hide Copies, Rank, Image;
    GrowAt(E, G', n', 0);
    GrowAt(E, G, n', 0);
    forall j | 0 <= j < |L| ensures L[j] == R[j] {
      GrowAt(E, G', n', j);
      GrowAt(E, G, n', j);
    }
  }

  lemma {:induction false} RankStep(E: Env, n: nat)
    requires n < |E.refs| && E.refs[n] in E.objs
    ensures Rank(E, n + 1) == Rank(E, n) + 1
  {
  }

  /** `s` is in the buffer at position `at`. */
  ghost predicate Holds(buf: seq<byte>, at: nat, s: seq<byte>)
  {
    at + |s| <= |buf| && buf[at..at + |s|] == s
  }

  lemma {:induction false} HoldsBoth(buf: seq<byte>, at: nat, s: seq<byte>, t: seq<byte>)
    requires Holds(buf, at, s + t)
    ensures Holds(buf, at, s) && Holds(buf, at + |s|, t)
    ensures Slice(buf, at, |s|) == s
  {
    var B := buf[at..at + |s + t|];
    assert B[..|s|] == s && B[|s|..] == t;
    assert forall i :: 0 <= i < |B| ==> B[i] == buf[at + i];
    assert buf[at..at + |s|] == s;
    assert buf[at + |s|..at + |s| + |t|] == t;
  }

  /** The parts of a record are where the unserializer looks for them. */
  lemma {:induction false} HoldsRecord(A: Arch, buf: seq<byte>, p: nat, dummy: nat, obj: seq<byte>, tail: seq<byte>)
    requires ValidArch(A) && Holds(buf, p, Record(A, dummy, obj, tail))
    ensures Slice(buf, p, PTR) == A.enc(dummy)
    ensures Slice(buf, p + HEADER, |obj|) == obj && Holds(buf, p + HEADER + |obj|, tail)
    ensures |Record(A, dummy, obj, tail)| == HEADER + |obj| + |tail|
  {
    var d, n := A.enc(dummy), A.enc(HEADER + |obj| + |tail|);
    assert Record(A, dummy, obj, tail) == d + (n + (obj + tail));
    HoldsBoth(buf, p, d, n + (obj + tail));
    HoldsBoth(buf, p + PTR, n, obj + tail);
    HoldsBoth(buf, p + HEADER, obj, tail);
  }

  /** A new record sits after the padding the unserializer skips. */
  lemma {:induction false} HoldsPiece(buf: seq<byte>, p: nat, len: nat, out: seq<byte>, tail: seq<byte>)
    requires Holds(buf, p + len, Piece(len, out) + tail)
    ensures Holds(buf, p + len + |Piece(len, out)|, tail)
    ensures out != [] ==> Holds(buf, p + (len + PadLen(len)), out)
  {
    hide Holds, PadLen;
    HoldsBoth(buf, p + len, Piece(len, out), tail);
    if out != [] {
      HoldsBoth(buf, p + len, Zeros(PadLen(len)), out);
    }
  }
}
