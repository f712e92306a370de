/** Dummies: the serializer numbers addresses in the order it meets them, and
    the unserializer finds the block of a dummy exactly when it has been built. */
module MarshalLookup {
  import opened Bytes
  import opened Marshal
  import opened MarshalHeap

  lemma {:induction false} IndexOfFound(refs: seq<nat>, a: nat, i: nat, j: nat)
    requires i <= j < |refs| && refs[j] == a
    ensures i <= IndexOf(refs, a, i) <= j && refs[IndexOf(refs, a, i)] == a
    ensures forall x :: i <= x < IndexOf(refs, a, i) ==> refs[x] != a
    decreases j - i
  {
    if refs[i] != a {
      IndexOfFound(refs, a, i + 1, j);
    }
  }

  lemma {:induction false} IndexOfAt(refs: seq<nat>, a: nat, i: nat, j: nat)
    requires i <= j < |refs| && refs[j] == a
    requires forall x :: i <= x < j ==> refs[x] != a
    ensures IndexOf(refs, a, i) == j
    decreases j - i
  {
    if i < j {
      IndexOfAt(refs, a, i + 1, j);
    }
  }

  /** The dummy of an address never changes once given. */
  lemma {:induction false} IndexOfPrefix(refs: seq<nat>, n: nat, a: nat)
    requires n <= |refs| && a in refs[..n]
    ensures IndexOf(refs, a) == IndexOf(refs[..n], a) < n
    ensures refs[IndexOf(refs, a)] == a
  {
    var j :| 0 <= j < n && refs[..n][j] == a;
    IndexOfFound(refs[..n], a, 0, j);
    IndexOfAt(refs, a, 0, IndexOf(refs[..n], a));
  }

  /** A new address takes the next dummy. */
  lemma {:induction false} IndexOfNew(refs: seq<nat>, n: nat, a: nat)
    requires n < |refs| && refs[n] == a && a !in refs[..n]
    ensures IndexOf(refs, a) == n
  {
    forall x | 0 <= x < n ensures refs[x] != a {
      assert refs[x] in refs[..n];
    }
    IndexOfAt(refs, a, 0, n);
  }

  lemma {:induction false} FindAt(G: seq<Block>, orig: nat, i: nat, j: nat)
    requires i <= j < |G| && G[j].orig == orig
    requires forall x :: i <= x < j ==> G[x].orig != orig
    ensures Find(G, orig, i) == Some(j)
    decreases j - i
  {
    if i < j {
      FindAt(G, orig, i + 1, j);
    }
  }

  lemma {:induction false} FindNone(G: seq<Block>, orig: nat, i: nat)
    requires forall x :: i <= x < |G| ==> G[x].orig != orig
    ensures Find(G, orig, i) == None
    decreases |G| - i
  {
    if i < |G| {
      FindNone(G, orig, i + 1);
    }
  }

  lemma {:induction false} RankGrows(E: Env, n: nat, n': nat)
    requires n <= n'
    ensures Rank(E, n) <= Rank(E, n')
    ensures n < n' && n < |E.refs| && E.refs[n] in E.objs ==> Rank(E, n) < Rank(E, n')
    decreases n'
  {
    if n < n' {
      RankGrows(E, n, n' - 1);
    }
  }

  lemma {:induction false} CopiesGrow(E: Env, n: nat, n': nat)
    requires n <= n'
    ensures Copies(E, n) <= Copies(E, n')
    decreases n'
  {
    if n < n' {
      CopiesGrow(E, n, n' - 1);
    }
  }

  /** Block j of the copy carries the dummy of the j-th object met. */
  lemma {:induction false} OrigAt(E: Env, n: nat, j: nat)
    requires n <= |E.refs| && j < Rank(E, n)
    ensures 1 <= Copies(E, n)[j].orig <= n
    ensures E.refs[Copies(E, n)[j].orig - 1] in E.objs
    ensures Rank(E, Copies(E, n)[j].orig - 1) == j
    decreases n
  {
    if j < Rank(E, n - 1) {
      OrigAt(E, n - 1, j);
    }
  }

  lemma {:induction false} CopyAt(E: Env, n: nat, i: nat)
    requires i < n <= |E.refs| && E.refs[i] in E.objs
    ensures Rank(E, i) < Rank(E, n)
    ensures Copies(E, n)[Rank(E, i)] == Block(i + 1, Image(E, E.refs[i]))
    decreases n
  {
    if i < n - 1 {
      CopyAt(E, n - 1, i);
    }
  }

  /** The blocks built so far are, dummy for dummy, the copies of the objects
      among the first n addresses; their contents may still be incomplete. */
  ghost predicate Tracks(E: Env, n: nat, G: seq<Block>)
  {
    && |G| == Rank(E, n)
    && forall j :: 0 <= j < |G| ==> G[j].orig == Copies(E, n)[j].orig
  }

  /** A dummy already given to an object finds that object's block... */
  lemma {:induction false} FindMet(E: Env, n: nat, G: seq<Block>, i: nat)
    requires Tracks(E, n, G) && i < n <= |E.refs| && E.refs[i] in E.objs
    ensures Find(G, i + 1) == Some(Rank(E, i))
  {
    CopyAt(E, n, i);
    forall x | 0 <= x < Rank(E, i) ensures G[x].orig != i + 1 {
      OrigAt(E, n, x);
    }
    FindAt(G, i + 1, 0, Rank(E, i));
  }

  /** ... and a number above all dummies given so far finds nothing. */
  lemma {:induction false} FindUnmet(E: Env, n: nat, G: seq<Block>, d: nat)
    requires Tracks(E, n, G) && n <= |E.refs| && n < d
    ensures Find(G, d) == None
  {
    forall x | 0 <= x < |G| ensures G[x].orig != d {
      OrigAt(E, n, x);
    }
    FindNone(G, d, 0);
  }
}
