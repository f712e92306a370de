/** What the command engine of src/client/commands.c chooses and enters, told from the
    fields of the nodes. */
module CommandsRuns {
  import opened Bytes
  import opened Commands

  // ---------- Children ----------

  /** The k-th child is a node that may be entered: its privileges suffice, and its own
      test passes. */
  predicate Allowed(nodes: seq<Node>, children: seq<nat>, k: nat, env: Env, open: bool)
  {
    k < |children| && children[k] < |nodes| &&
      var n := nodes[children[k]];
      (n.privileged ==> open) && n.validate(env)
  }

  /** Its token starts with the one given. */
  predicate Named(nodes: seq<Node>, children: seq<nat>, k: nat, env: Env, open: bool, token: Word)
  {
    Allowed(nodes, children, k, env, open) &&
      var t := nodes[children[k]].token;
      t.Some? && |token| <= |t.value| && t.value[..|token|] == token
  }

  /** Its token is the one given. */
  predicate Same(nodes: seq<Node>, children: seq<nat>, k: nat, env: Env, open: bool, token: Word)
  {
    Allowed(nodes, children, k, env, open) && nodes[children[k]].token == Some(token)
  }

  /** It has no token, and takes any. */
  predicate Nameless(nodes: seq<Node>, children: seq<nat>, k: nat, env: Env, open: bool)
  {
    Allowed(nodes, children, k, env, open) && nodes[children[k]].token.None?
  }

  /** Child k is the one to enter: the first with that very token, two others not coming
      before it; or the only one whose token starts so; or the first without a token. */
  ghost predicate Chosen(nodes: seq<Node>, children: seq<nat>, k: nat, env: Env, open: bool, token: Word)
  {
    || (&& Same(nodes, children, k, env, open, token)
        && (forall a :: 0 <= a < k ==> !Same(nodes, children, a, env, open, token))
        && (forall a, b :: 0 <= a < b < k ==>
              !(Named(nodes, children, a, env, open, token) && Named(nodes, children, b, env, open, token))))
    || (&& Named(nodes, children, k, env, open, token)
        && (forall a :: 0 <= a < |children| ==> !Same(nodes, children, a, env, open, token))
        && (forall a :: 0 <= a < |children| && a != k ==> !Named(nodes, children, a, env, open, token)))
    || (&& Nameless(nodes, children, k, env, open)
        && (forall a :: 0 <= a < |children| ==> !Named(nodes, children, a, env, open, token))
        && (forall a :: 0 <= a < k ==> !Nameless(nodes, children, a, env, open)))
  }

  /** Two children whose tokens start so, none of them or before them the very token. */
  ghost predicate Unclear(nodes: seq<Node>, children: seq<nat>, env: Env, open: bool, token: Word)
  {
    exists a, b :: 0 <= a < b < |children| && Named(nodes, children, a, env, open, token) &&
      Named(nodes, children, b, env, open, token) &&
      forall c :: 0 <= c <= b ==> !Same(nodes, children, c, env, open, token)
  }

  lemma {:induction false} ChildIs(nodes: seq<Node>, children: seq<nat>, k: nat, env: Env, open: bool, token: Word)
    ensures ExactAt(nodes, children, k, env, open, token) <==> Same(nodes, children, k, env, open, token)
    ensures MatchesAt(nodes, children, k, env, open, token) <==>
      Named(nodes, children, k, env, open, token) && !Same(nodes, children, k, env, open, token)
    ensures Nameless(nodes, children, k, env, open) <==>
      k < |children| && NodeAt(nodes, children[k]).token.None? && CanExecute(NodeAt(nodes, children[k]), env, open)
    ensures Same(nodes, children, k, env, open, token) ==> Named(nodes, children, k, env, open, token)
  {
    if k < |children| && children[k] < |nodes| && nodes[children[k]].token.Some? {
      var t := nodes[children[k]].token.value;
      assert token <= t <==> |token| <= |t| && t[..|token|] == token;
    }
  }

  lemma {:induction false} FirstExactMeans(nodes: seq<Node>, children: seq<nat>, k: nat, env: Env, open: bool,
      token: Word)
    ensures match FirstExact(nodes, children, k, env, open, token)
      case None => forall a :: k <= a < |children| ==> !Same(nodes, children, a, env, open, token)
      case Some(e) =>
        && Same(nodes, children, e, env, open, token)
        && forall a :: k <= a < e ==> !Same(nodes, children, a, env, open, token)
    decreases |children| - k
  {
    if k < |children| {
      ChildIs(nodes, children, k, env, open, token);
      hide Same, Exact, NodeAt;
      assert Exact(NodeAt(nodes, children[k]), env, open, token) <==> Same(nodes, children, k, env, open, token);
      FirstExactMeans(nodes, children, k + 1, env, open, token);
    }
  }

  lemma {:induction false} FirstFreeMeans(nodes: seq<Node>, children: seq<nat>, k: nat, env: Env, open: bool)
    ensures match FirstFree(nodes, children, k, env, open)
      case None => forall a :: k <= a < |children| ==> !Nameless(nodes, children, a, env, open)
      case Some(e) =>
        && Nameless(nodes, children, e, env, open)
        && forall a :: k <= a < e ==> !Nameless(nodes, children, a, env, open)
    decreases |children| - k
  {
    if k < |children| {
      ChildIs(nodes, children, k, env, open, []);
      hide Nameless, CanExecute, NodeAt;
      FirstFreeMeans(nodes, children, k + 1, env, open);
    }
  }

  lemma {:induction false} OnlyMatchMeans(nodes: seq<Node>, children: seq<nat>, k: nat, env: Env, open: bool,
      token: Word)
    requires k <= |children| && Inexact(nodes, children, k, env, open, token) > 0
    ensures MatchesAt(nodes, children, OnlyMatch(nodes, children, k, env, open, token), env, open, token)
  {
    hide Matches, NodeAt;
    if !MatchesAt(nodes, children, k - 1, env, open, token) {
      OnlyMatchMeans(nodes, children, k - 1, env, open, token);
    }
  }

  // ---------- The choice ----------

  /** Which child a token selects, for every list of children. */
  lemma {:induction false} SelectionMeans(nodes: seq<Node>, children: seq<nat>, env: Env, open: bool, token: Word)
    ensures match Selected(nodes, children, env, open, token)
      case Nothing =>
        forall k :: 0 <= k < |children| ==>
          !Named(nodes, children, k, env, open, token) && !Nameless(nodes, children, k, env, open)
      case Ambiguous => Unclear(nodes, children, env, open, token)
      case Best(n) =>
        exists k :: 0 <= k < |children| && children[k] == n && Chosen(nodes, children, k, env, open, token)
  {
    hide FirstExact, Inexact, FirstFree, OnlyMatch, MatchesAt, ExactAt, Named, Same, Nameless;
    FirstExactMeans(nodes, children, 0, env, open, token);
    FirstFreeMeans(nodes, children, 0, env, open);
    var e := FirstExact(nodes, children, 0, env, open, token);
    var seen := if e.Some? then e.value else |children|;
    var others := Inexact(nodes, children, seen, env, open, token);
    InexactTwo(nodes, children, seen, env, open, token);
    forall k: nat
      ensures MatchesAt(nodes, children, k, env, open, token) <==>
        Named(nodes, children, k, env, open, token) && !Same(nodes, children, k, env, open, token)
      ensures Same(nodes, children, k, env, open, token) ==> Named(nodes, children, k, env, open, token)
    {
      ChildIs(nodes, children, k, env, open, token);
    }
    if others >= 2 {
      UnclearFrom(nodes, children, seen, env, open, token);
    } else if e.Some? {
      assert Chosen(nodes, children, seen, env, open, token);
    } else if others == 1 {
      var k := OnlyMatch(nodes, children, |children|, env, open, token);
      OnlyMatchMeans(nodes, children, |children|, env, open, token);
      assert Chosen(nodes, children, k, env, open, token);
    } else if FirstFree(nodes, children, 0, env, open).Some? {
      assert Chosen(nodes, children, FirstFree(nodes, children, 0, env, open).value, env, open, token);
    }
  }

  lemma {:induction false} UnclearFrom(nodes: seq<Node>, children: seq<nat>, seen: nat, env: Env, open: bool,
      token: Word)
    requires seen <= |children| && Inexact(nodes, children, seen, env, open, token) >= 2
    requires forall a :: 0 <= a < seen ==> !Same(nodes, children, a, env, open, token)
    ensures Unclear(nodes, children, env, open, token)
  {
    hide Inexact, Same, Named, MatchesAt;
    InexactTwo(nodes, children, seen, env, open, token);
    var a, b :| 0 <= a < b < seen && MatchesAt(nodes, children, a, env, open, token) &&
      MatchesAt(nodes, children, b, env, open, token);
    ChildIs(nodes, children, a, env, open, token);
    ChildIs(nodes, children, b, env, open, token);
  }

  /** The three outcomes exclude each other, so the lemma above settles the choice. */
  lemma {:induction false} ChosenOnce(nodes: seq<Node>, children: seq<nat>, env: Env, open: bool, token: Word, k: nat)
    requires k < |children| && Chosen(nodes, children, k, env, open, token)
    ensures Selected(nodes, children, env, open, token) == Best(children[k])
  {
    hide Selected, Named, Same, Nameless, Unclear;
    SelectionMeans(nodes, children, env, open, token);
    SameNamed(nodes, children, k, env, open, token);
    ChosenClear(nodes, children, env, open, token, k);
    if Selected(nodes, children, env, open, token).Best? {
      var n := Selected(nodes, children, env, open, token).node;
      var j :| 0 <= j < |children| && children[j] == n && Chosen(nodes, children, j, env, open, token);
      SameNamed(nodes, children, j, env, open, token);
    }
  }

  lemma {:induction false} ChosenClear(nodes: seq<Node>, children: seq<nat>, env: Env, open: bool, token: Word, k: nat)
    requires k < |children| && Chosen(nodes, children, k, env, open, token)
    ensures !Unclear(nodes, children, env, open, token)
  {
    hide Named, Same, Nameless;
    forall a: nat, b: nat | a < b < |children|
      ensures !(Named(nodes, children, a, env, open, token) && Named(nodes, children, b, env, open, token) &&
        forall c :: 0 <= c <= b ==> !Same(nodes, children, c, env, open, token))
    {
    }
  }

  lemma {:induction false} SameNamed(nodes: seq<Node>, children: seq<nat>, k: nat, env: Env, open: bool, token: Word)
    ensures Same(nodes, children, k, env, open, token) ==> Named(nodes, children, k, env, open, token)
    ensures Nameless(nodes, children, k, env, open) ==> !Named(nodes, children, k, env, open, token)
  {
  }

  // ---------- Turns ----------

  /** The variable is set. */
  ghost predicate Has(env: Env, key: Word)
  {
    exists i :: 0 <= i < |env.elements| && env.elements[i].key == key
  }

  /** The word this turn reads: the next argument, or "<CR>" after the last one. */
  function Reads(argv: seq<Word>, at: nat): Word
  {
    if at < |argv| then argv[at] else [60, 67, 82, 62]
  }

  /** From env, node b is entered: it is a child of the node on top, chosen for the word
      read; privileged only with privileges or while "complete" is set; and it is
      executed on top of the stack, which leads to env'. */
  ghost predicate Enters(nodes: seq<Node>, argv: seq<Word>, priv: bool, env: Env, b: nat, env': Env)
  {
    && env.stack != [] && env.stack[0] < |nodes| && b < |nodes| && env.argp <= |argv|
    && b in nodes[env.stack[0]].children
    && (nodes[b].privileged ==> priv || Has(env, [99, 111, 109, 112, 108, 101, 116, 101]))
    && nodes[b].validate(env)
    && (nodes[b].token.Some? ==>
        var t := nodes[b].token.value;
        var word := Reads(argv, env.argp);
        |word| <= |t| && t[..|word|] == word)
    && var after := nodes[b].execute(Env(env.elements, [b] + env.stack, env.argp));
    after.Some? && env' == Env(after.value.elements, after.value.stack, env.argp + 1)
  }

  ghost predicate EntersSome(nodes: seq<Node>, argv: seq<Word>, priv: bool, env: Env, env': Env)
  {
    exists b: nat :: Enters(nodes, argv, priv, env, b, env')
  }

  lemma {:induction false} ChosenFields(nodes: seq<Node>, children: seq<nat>, env: Env, open: bool, token: Word, n: nat)
    requires Selected(nodes, children, env, open, token) == Best(n)
    ensures n in children && n < |nodes| && (nodes[n].privileged ==> open) && nodes[n].validate(env)
    ensures var t := nodes[n].token;
      t.Some? ==> |token| <= |t.value| && t.value[..|token|] == token
  {
    SelectionMeans(nodes, children, env, open, token);
    hide Selected;
    var k :| 0 <= k < |children| && children[k] == n && Chosen(nodes, children, k, env, open, token);
    SameNamed(nodes, children, k, env, open, token);
  }

  /** A turn that goes on has entered a node. */
  lemma {:induction false} TurnEnters(nodes: seq<Node>, argv: seq<Word>, priv: bool, env: Env)
    requires env.stack != [] && TurnOf(nodes, argv, priv, env).Next?
    ensures EntersSome(nodes, argv, priv, env, TurnOf(nodes, argv, priv, env).env)
  {
    hide Selected;
    var complete := Defined(env, COMPLETE);
    var asking := Defined(env, HELP) || complete;
    var token := TokenAt(argv, env.argp, asking).value;
    var children := NodeAt(nodes, env.stack[0]).children;
    var b := Selected(nodes, children, env, priv || complete, token).node;
    ChosenFields(nodes, children, env, priv || complete, token, b);
    assert token == Reads(argv, env.argp);
    assert complete <==> Has(env, [99, 111, 109, 112, 108, 101, 116, 101]);
    assert Enters(nodes, argv, priv, env, b, TurnOf(nodes, argv, priv, env).env);
  }

  /** No child of the node on top can be entered with this word. */
  ghost predicate DeadEnd(nodes: seq<Node>, env: Env, open: bool, word: Word)
    requires env.stack != []
  {
    env.stack[0] < |nodes| ==>
      var children := nodes[env.stack[0]].children;
      forall k :: 0 <= k < |children| ==>
        !Named(nodes, children, k, env, open, word) && !Nameless(nodes, children, k, env, open)
  }

  /** A turn that stops, stops at its own argument, and without error exactly when there
      is nothing to read, or nothing to enter at the end of the line. */
  lemma {:induction false} TurnStops(nodes: seq<Node>, argv: seq<Word>, priv: bool, env: Env)
    requires env.stack != [] && TurnOf(nodes, argv, priv, env).Stop?
    ensures var end := TurnOf(nodes, argv, priv, env).end;
      var complete := Has(env, [99, 111, 109, 112, 108, 101, 116, 101]);
      && end.argp == env.argp && (end.asking <==> complete || Has(env, [104, 101, 108, 112]))
      && (end.ok <==>
          || env.argp > |argv|
          || (env.argp == |argv| && (end.asking || DeadEnd(nodes, env, priv || complete, [60, 67, 82, 62]))))
  {
    hide Selected, Named, Nameless;
    var complete := Defined(env, COMPLETE);
    assert complete <==> Has(env, [99, 111, 109, 112, 108, 101, 116, 101]);
    assert Defined(env, HELP) <==> Has(env, [104, 101, 108, 112]);
    var token := TokenAt(argv, env.argp, Defined(env, HELP) || complete);
    if token.Some? {
      SelectedOrDead(nodes, env, priv || complete, token.value);
    }
  }

  lemma {:induction false} SelectedOrDead(nodes: seq<Node>, env: Env, open: bool, word: Word)
    requires env.stack != []
    ensures Selected(nodes, NodeAt(nodes, env.stack[0]).children, env, open, word).Nothing? <==>
      DeadEnd(nodes, env, open, word)
  {
    hide Selected, Named, Same, Nameless;
    var children := NodeAt(nodes, env.stack[0]).children;
    SelectionMeans(nodes, children, env, open, word);
    if Selected(nodes, children, env, open, word).Best? {
      var k :| 0 <= k < |children| && children[k] == Selected(nodes, children, env, open, word).node &&
        Chosen(nodes, children, k, env, open, word);
      SameNamed(nodes, children, k, env, open, word);
    }
  }

  /** In any run, each turn but the last enters a node, and leads to the next turn. */
  lemma {:induction false} RunEnters(nodes: seq<Node>, argv: seq<Word>, priv: bool, env: Env, asking: bool, i: nat)
    requires i + 1 < |Run(nodes, argv, priv, env, asking).turns|
    ensures var t := Run(nodes, argv, priv, env, asking).turns;
      EntersSome(nodes, argv, priv, t[i], t[i + 1])
  {
    hide Run, TurnOf, EntersSome;
    RunConsumes(nodes, argv, priv, env, asking);
    var t := Run(nodes, argv, priv, env, asking).turns;
    assert t[i].stack != [] && TurnOf(nodes, argv, priv, t[i]) == Next(t[i + 1]);
    TurnEnters(nodes, argv, priv, t[i]);
  }

  /** A node that is not privileged is entered. */
  ghost predicate EntersPlain(nodes: seq<Node>, argv: seq<Word>, env: Env, env': Env)
  {
    exists b: nat :: Enters(nodes, argv, false, env, b, env') && b < |nodes| && !nodes[b].privileged
  }

  /** Without privileges, and as long as "complete" is not set, no run enters a
      privileged node. */
  lemma {:induction false} NoPrivilegedNode(nodes: seq<Node>, argv: seq<Word>, env: Env, asking: bool, i: nat)
    requires var t := Run(nodes, argv, false, env, asking).turns;
      i + 1 < |t| && !Has(t[i], [99, 111, 109, 112, 108, 101, 116, 101])
    ensures var t := Run(nodes, argv, false, env, asking).turns;
      EntersPlain(nodes, argv, t[i], t[i + 1])
  {
    hide Run;
    RunEnters(nodes, argv, false, env, asking, i);
  }

  // ---------- One command line ----------

  const YES: Env -> bool := _ => true
  const KEEP: Env -> Option<Env> := env => Some(env)

  /** A tree with one command, "show", and the end of the line after it. */
  function Tree(privileged: bool): seq<Node>
  {
    [Node(None, false, YES, KEEP, [1]), Node(Some([115, 104, 111, 119]), privileged, YES, KEEP, [2]),
     Node(Some([60, 67, 82, 62]), false, YES, KEEP, [])]
  }

  /** The line "sh" succeeds exactly when the command may be used. */
  lemma {:induction false} ShowExample(privileged: bool, priv: bool)
    ensures Run(Tree(privileged), [[115, 104]], priv, Start(0), false).end ==
      if privileged && !priv then End(false, 0, false) else End(true, 2, false)
  {
    hide Selected, Tree;
    var nodes, argv: seq<Word> := Tree(privileged), [[115, 104]];
    var e0, e1, e2 := Start(0), Env([], [1, 0], 1), Env([], [2, 1, 0], 2);
    FirstTurn(privileged, priv);
    if !privileged || priv {
      SecondTurn(privileged, priv);
      assert Run(nodes, argv, priv, e2, false).end == End(true, 2, false);
      assert Run(nodes, argv, priv, e1, false).end == End(true, 2, false);
    }
  }

  lemma {:induction false} FirstTurn(privileged: bool, priv: bool)
    ensures TurnOf(Tree(privileged), [[115, 104]], priv, Env([], [0], 0)) ==
      if privileged && !priv then Stop(End(false, 0, false)) else Next(Env([], [1, 0], 1))
  {
    var nodes, env, word: Word := Tree(privileged), Env([], [0], 0), [115, 104];
    ShowNamed(privileged, priv);
    SelectionMeans(nodes, [1], env, priv, word);
    if !privileged || priv {
      ChosenOnce(nodes, [1], env, priv, word, 0);
    }
    hide Selected;
  }

  lemma {:induction false} ShowNamed(privileged: bool, priv: bool)
    ensures var nodes, env, word: Word := Tree(privileged), Env([], [0], 0), [115, 104];
      && (Named(nodes, [1], 0, env, priv, word) <==> !privileged || priv)
      && !Nameless(nodes, [1], 0, env, priv)
      && (!privileged || priv ==> Chosen(nodes, [1], 0, env, priv, word))
  {
    var show: Word := [115, 104, 111, 119];
    assert show[..2] == [115, 104];
  }

  lemma {:induction false} SecondTurn(privileged: bool, priv: bool)
    ensures TurnOf(Tree(privileged), [[115, 104]], priv, Env([], [1, 0], 1)) == Next(Env([], [2, 1, 0], 2))
  {
    var nodes, env, word: Word := Tree(privileged), Env([], [1, 0], 1), [60, 67, 82, 62];
    assert Same(nodes, [2], 0, env, priv, word);
    assert Chosen(nodes, [2], 0, env, priv, word);
    ChosenOnce(nodes, [2], env, priv, word, 0);
    hide Selected;
  }
}
