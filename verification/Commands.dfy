/** The command engine of the client: comma-separated lists (src/client/misc.c), the
    environment and the choice of commands (src/client/commands.c). */
module Commands {
  import opened Bytes

  type Word = seq<byte>

  const COMMA: byte := 44
  const NEWLINE: Word := [60, 67, 82, 62]
  const HELP: Word := [104, 101, 108, 112]
  const COMPLETE: Word := [99, 111, 109, 112, 108, 101, 116, 101]

  // ---------- Comma-separated lists ----------

  /** Position of the first comma from i on, or the end of the list. */
  function NextComma(list: Word, i: nat): (j: nat)
    requires i <= |list|
    ensures i <= j <= |list| && (j < |list| ==> list[j] == COMMA) && forall k :: i <= k < j ==> list[k] != COMMA
    decreases |list| - i
  {
    if i == |list| || list[i] == COMMA then i else NextComma(list, i + 1)
  }

  /** The names of a list, from position i on. */
  function Names(list: Word, i: nat := 0): (names: seq<Word>)
    requires i <= |list|
    ensures |names| > 0
    decreases |list| - i
  {
    var j := NextComma(list, i);
    if j == |list| then [list[i..]] else [list[i..j]] + Names(list, j + 1)
  }

  /** Words with a comma between each and the next, from the k-th on. */
  function Joined(words: seq<Word>, k: nat): Word
    requires k < |words|
    decreases |words| - k
  {
    if k == |words| - 1 then words[k] else words[k] + [44] + Joined(words, k + 1)
  }

  /** The names of such a list are those words, empty ones included. */
  lemma {:induction false} NamesJoined(words: seq<Word>, k: nat, list: Word, i: nat)
    requires k < |words| && i <= |list| && list[i..] == Joined(words, k)
    requires forall w :: w in words ==> 44 !in w
    ensures Names(list, i) == words[k..]
    decreases |words| - k
  {
    hide Joined, NextComma, Names;
    JoinedStep(words, k);
    var w := words[k];
    assert w in words;
    if k == |words| - 1 {
      FirstName(list, i, w, []);
      assert words[k..] == [w];
    } else {
      var rest := Joined(words, k + 1);
      assert list[i..] == w + ([44] + rest);
      FirstName(list, i, w, [44] + rest);
      var e := i + |w|;
      assert list[e + 1..] == list[i..][|w| + 1..] == rest;
      NamesJoined(words, k + 1, list, e + 1);
      assert words[k..] == [w] + words[k + 1..];
    }
  }

  lemma {:induction false} JoinedStep(words: seq<Word>, k: nat)
    requires k < |words|
    ensures Joined(words, k) == if k == |words| - 1 then words[k] + [] else words[k] + [44] + Joined(words, k + 1)
  {
    assert words[k] + [] == words[k];
  }

  /** The first name goes up to the first comma. */
  lemma {:induction false} FirstName(list: Word, i: nat, w: Word, rest: Word)
    requires i <= |list| && list[i..] == w + rest && 44 !in w && (rest == [] || rest[0] == 44)
    ensures Names(list, i) == if rest == [] then [w] else [w] + Names(list, i + |w| + 1)
  {
    hide Names, NextComma;
    var e, s := i + |w|, list[i..];
    assert forall p :: 0 <= p < |w| ==> s[p] == w[p] && w[p] in w;
    assert forall p :: i <= p < e ==> list[p] == s[p - i];
    assert rest != [] ==> list[e] == s[|w|] == 44;
    var j := NextComma(list, i);
    assert j == e;
    assert list[i..e] == s[..|w|] == w;
    assert rest == [] ==> list[i..] == w;
    NamesStep(list, i);
  }

  lemma {:induction false} NamesStep(list: Word, i: nat)
    requires i <= |list|
    ensures var j := NextComma(list, i);
      Names(list, i) == if j == |list| then [list[i..]] else [list[i..j]] + Names(list, j + 1)
  {
  }

  /** The list at position i starts with the word, which ends there too. */
  predicate StartsWith(list: Word, i: nat, w: Word)
  {
    i + |w| <= |list| && list[i..i + |w|] == w && (i + |w| == |list| || list[i + |w|] == COMMA)
  }

  /** A word without a comma is found where a name starts if it is that name. */
  lemma {:induction false} StartsIsName(list: Word, i: nat, w: Word)
    requires i <= |list| && COMMA !in w
    ensures StartsWith(list, i, w) <==> list[i..NextComma(list, i)] == w
  {
    var j := NextComma(list, i);
    if StartsWith(list, i, w) {
      assert forall k :: i <= k < i + |w| ==> list[k] == list[i..i + |w|][k - i] && list[k] in w;
      assert j == i + |w|;
    }
  }

  /** The word is found where some name starts, from position i on. */
  predicate Found(list: Word, i: nat, w: Word)
    requires i <= |list|
    decreases |list| - i
  {
    StartsWith(list, i, w) || (NextComma(list, i) < |list| && Found(list, NextComma(list, i) + 1, w))
  }

  /** For a word without a comma, that is being one of the names. */
  lemma {:induction false} FoundIsName(list: Word, i: nat, w: Word)
    requires i <= |list| && COMMA !in w
    ensures Found(list, i, w) <==> w in Names(list, i)
    decreases |list| - i
  {
    var j := NextComma(list, i);
    StartsIsName(list, i, w);
    assert Names(list, i)[0] == list[i..j];
    if j < |list| {
      FoundIsName(list, j + 1, w);
    }
  }

  /** contains(); None is a null pointer. */
  method Contains(list: Option<Word>, element: Option<Word>) returns (found: bool)
    ensures found == (list.Some? && element.Some? && Found(list.value, 0, element.value))
  {
    if list.None? || element.None? {
      return false;
    }
    var l, w := list.value, element.value;
    var i := 0;
    while true
      invariant i <= |l| && Found(l, i, w) == Found(l, 0, w)
      decreases |l| - i
    {
      var j := NextComma(l, i);
      if StartsWith(l, i, w) {
        return true;
      }
      if j == |l| {
        return false;
      }
      i := j + 1;
    }
    found := false;
  }

  /** A word with a comma can be found although it is no name of the list. */
  lemma {:induction false} CommaConfuses()
    ensures var list: Word := [97, 44, 98];
      Found(list, 0, list) && list !in Names(list)
  {
    var list: Word := [97, 44, 98];
    assert NextComma(list, 0) == 1 && NextComma(list, 2) == 3;
    assert Names(list) == [list[0..1]] + Names(list, 2);
    assert Names(list, 2) == [list[2..]];
  }

  // ---------- Required variables ----------

  datatype Element = Element(key: Word, value: Option<Word>)

  /** How many of the first n elements have their key found in the list. */
  function Present(elements: seq<Element>, n: nat, list: Word): nat
    requires n <= |elements|
  {
    if n == 0 then 0 else Present(elements, n - 1, list) + if Found(list, 0, elements[n - 1].key) then 1 else 0
  }

  ghost predicate DistinctKeys(elements: seq<Element>)
  {
    forall i, j :: 0 <= i < j < |elements| ==> elements[i].key != elements[j].key
  }

  ghost predicate DistinctWords(words: seq<Word>)
  {
    forall i, j :: 0 <= i < j < |words| ==> words[i] != words[j]
  }

  predicate NoCommas(elements: seq<Element>)
  {
    forall i :: 0 <= i < |elements| ==> COMMA !in elements[i].key
  }

  /** cmd_check_env(): the variables found, less the commas, are one. */
  method CheckEnv(elements: seq<Element>, list: Word) returns (ok: bool)
    ensures ok == (Present(elements, |elements|, list) == |Names(list)|)
  {
    var count: int := 0;
    var n := 0;
    while n < |elements|
      invariant n <= |elements| && count == Present(elements, n, list)
    {
      var found := Contains(Some(list), Some(elements[n].key));
      if found {
        count := count + 1;
      }
      n := n + 1;
    }
    ghost var total := count;
    var i := 0;
    var j := NextComma(list, i);
    while j < |list|
      invariant i <= |list| && j == NextComma(list, i)
      invariant count + |Names(list)| - |Names(list, i)| == total
      decreases |list| - i
    {
      i := j + 1;
      count := count - 1;
      j := NextComma(list, i);
    }
    ok := count == 1;
  }

  function KeysIn(elements: seq<Element>, n: nat, names: seq<Word>): set<Word>
    requires n <= |elements|
  {
    set i | 0 <= i < n && elements[i].key in names :: elements[i].key
  }

  function Set(words: seq<Word>): set<Word>
  {
    set w | w in words
  }

  lemma {:induction false} KeysNext(elements: seq<Element>, n: nat, names: seq<Word>)
    requires 0 < n <= |elements| && DistinctKeys(elements)
    ensures var k, before := elements[n - 1].key, KeysIn(elements, n - 1, names);
      k !in before && KeysIn(elements, n, names) == if k in names then before + {k} else before
  {
  }

  lemma {:induction false} PresentCounts(elements: seq<Element>, n: nat, list: Word)
    requires n <= |elements| && DistinctKeys(elements) && NoCommas(elements)
    ensures Present(elements, n, list) == |KeysIn(elements, n, Names(list))|
  {
    hide Names, Found, KeysIn;
    if n == 0 {
      NoKeys(elements, Names(list));
    } else {
      PresentCounts(elements, n - 1, list);
      FoundIsName(list, 0, elements[n - 1].key);
      KeysNext(elements, n, Names(list));
    }
  }

  lemma {:induction false} NoKeys(elements: seq<Element>, names: seq<Word>)
    ensures KeysIn(elements, 0, names) == {}
  {
  }

  lemma {:induction false} DistinctSize(words: seq<Word>)
    requires DistinctWords(words)
    ensures |Set(words)| == |words|
  {
    if words != [] {
      var rest, last := words[..|words| - 1], words[|words| - 1];
      DistinctSize(rest);
      assert last !in rest;
      assert Set(words) == Set(rest) + {last};
    }
  }

  lemma {:induction false} SubsetSize(a: set<Word>, b: set<Word>)
    requires a <= b
    ensures |a| <= |b| && (|a| == |b| <==> a == b)
  {
    assert b == a + (b - a);
    assert |b| == |a| + |b - a|;
  }

  ghost predicate AllPresent(elements: seq<Element>, names: seq<Word>)
  {
    forall w :: w in names ==> exists i :: 0 <= i < |elements| && elements[i].key == w
  }

  /** When the keys are distinct and have no comma, and the required names are
      distinct, the test succeeds exactly when every required name is present. */
  lemma {:induction false} CheckEnvIff(elements: seq<Element>, list: Word)
    requires DistinctKeys(elements) && NoCommas(elements) && DistinctWords(Names(list))
    ensures Present(elements, |elements|, list) == |Names(list)| <==> AllPresent(elements, Names(list))
  {
    hide Names, Present;
    var names := Names(list);
    var found := KeysIn(elements, |elements|, names);
    PresentCounts(elements, |elements|, list);
    DistinctSize(names);
    assert found <= Set(names);
    SubsetSize(found, Set(names));
    if found == Set(names) {
      forall w | w in names ensures exists i :: 0 <= i < |elements| && elements[i].key == w {
        assert w in found;
      }
    } else {
      var w :| w in Set(names) && w !in found;
      assert !exists i :: 0 <= i < |elements| && elements[i].key == w;
    }
  }

  /** A key stored twice can stand for a name that is missing. */
  lemma {:induction false} TwiceCountsAsTwo()
    ensures var env, list: Word := [Element([97], None), Element([97], None)], [97, 44, 98];
      Present(env, 2, list) == |Names(list)| && !AllPresent(env, Names(list))
  {
    var env, list: Word := [Element([97], None), Element([97], None)], [97, 44, 98];
    assert NextComma(list, 0) == 1 && NextComma(list, 2) == 3;
    assert Names(list, 2) == [list[2..]];
    assert Names(list) == [list[0..1]] + Names(list, 2);
    assert list[0..1] == [97] && list[2..] == [98];
    assert StartsWith(list, 0, env[0].key) && StartsWith(list, 0, env[1].key);
    assert Present(env, 1, list) == 1;
    var missing := Names(list)[1];
    assert missing == [98] && missing in Names(list);
    assert forall i :: 0 <= i < |env| ==> env[i].key != missing;
  }

  // ---------- Choosing a command ----------

  /** The state of an execution: variables, and the stack of nodes entered, top first. */
  datatype Env = Env(elements: seq<Element>, stack: seq<nat>, argp: nat)

  /** A node of the command tree; children are positions in the table of nodes.
      `execute` returns the new environment, or None when it fails. */
  datatype Node = Node(token: Option<Word>, privileged: bool, validate: Env -> bool, execute: Env -> Option<Env>,
      children: seq<nat>)

  function NodeAt(nodes: seq<Node>, i: nat): Node
  {
    if i < |nodes| then nodes[i] else Node(None, true, _ => false, _ => None, [])
  }

  datatype Choice = Nothing | Ambiguous | Best(node: nat)

  /** CAN_EXECUTE; `open` when privileges do not matter. */
  predicate CanExecute(n: Node, env: Env, open: bool)
  {
    (!n.privileged || open) && n.validate(env)
  }

  /** The token is a prefix of the node's. */
  predicate Matches(n: Node, env: Env, open: bool, token: Word)
  {
    n.token.Some? && token <= n.token.value && CanExecute(n, env, open)
  }

  predicate Exact(n: Node, env: Env, open: bool, token: Word)
  {
    n.token == Some(token) && CanExecute(n, env, open)
  }

  /** How many of the first k children match without being exact. */
  function Inexact(nodes: seq<Node>, children: seq<nat>, k: nat, env: Env, open: bool, token: Word): nat
    requires k <= |children|
  {
    if k == 0 then 0
    else
      var n := NodeAt(nodes, children[k - 1]);
      Inexact(nodes, children, k - 1, env, open, token) + if Matches(n, env, open, token) && n.token != Some(token)
        then 1 else 0
  }

  /** Position of the first child, from k on, that can be executed without a token. */
  function FirstFree(nodes: seq<Node>, children: seq<nat>, k: nat, env: Env, open: bool): (r: Option<nat>)
    ensures r.Some? ==> k <= r.value < |children|
    decreases |children| - k
  {
    if k >= |children| then None
    else if NodeAt(nodes, children[k]).token.None? && CanExecute(NodeAt(nodes, children[k]), env, open) then Some(k)
    else FirstFree(nodes, children, k + 1, env, open)
  }

  /** Position of the first child, from k on, whose token is the one given. */
  function FirstExact(nodes: seq<Node>, children: seq<nat>, k: nat, env: Env, open: bool, token: Word): (r: Option<nat>)
    ensures r.Some? ==> k <= r.value < |children|
    decreases |children| - k
  {
    if k >= |children| then None
    else if Exact(NodeAt(nodes, children[k]), env, open, token) then Some(k)
    else FirstExact(nodes, children, k + 1, env, open, token)
  }

  /** What a token selects, told by counting: an exact match unless two others come
      before it, else the only match, else the first child without a token. */
  function Selected(nodes: seq<Node>, children: seq<nat>, env: Env, open: bool, token: Word): Choice
  {
    var e := FirstExact(nodes, children, 0, env, open, token);
    var seen := if e.Some? then e.value else |children|;
    var others := Inexact(nodes, children, seen, env, open, token);
    if others >= 2 then Ambiguous
    else if e.Some? then Best(children[e.value])
    else if others == 1 then Best(children[OnlyMatch(nodes, children, |children|, env, open, token)])
    else match FirstFree(nodes, children, 0, env, open)
      case None => Nothing
      case Some(k) => Best(children[k])
  }

  /** Position of the last match among the first k children. */
  function OnlyMatch(nodes: seq<Node>, children: seq<nat>, k: nat, env: Env, open: bool, token: Word): (r: nat)
    requires k <= |children| && Inexact(nodes, children, k, env, open, token) > 0
    ensures r < k
  {
    var n := NodeAt(nodes, children[k - 1]);
    if Matches(n, env, open, token) && n.token != Some(token) then k - 1
      else OnlyMatch(nodes, children, k - 1, env, open, token)
  }

  /** The two scans of the children. */
  method Choose(nodes: seq<Node>, children: seq<nat>, env: Env, open: bool, token: Word) returns (c: Choice)
    ensures c == Selected(nodes, children, env, open, token)
  {
    c := ScanTokens(nodes, children, env, open, token);
    if c.Nothing? {
      var k := 0;
      while k < |children|
        invariant k <= |children| && FirstFree(nodes, children, k, env, open) ==
          FirstFree(nodes, children, 0, env, open)
      {
        var n := NodeAt(nodes, children[k]);
        if n.token.None? && CanExecute(n, env, open) {
          return Best(children[k]);
        }
        k := k + 1;
      }
    }
  }

  /** The scan of the children that have a token. */
  method ScanTokens(nodes: seq<Node>, children: seq<nat>, env: Env, open: bool, token: Word) returns (c: Choice)
    ensures if c.Nothing? then
        FirstExact(nodes, children, 0, env, open, token) == None &&
          Inexact(nodes, children, |children|, env, open, token) == 0
      else c == Selected(nodes, children, env, open, token)
  {
    hide FirstFree, CanExecute;
    c := Nothing;
    var k := 0;
    while k < |children|
      invariant k <= |children| && !c.Ambiguous?
      invariant FirstExact(nodes, children, k, env, open, token) == FirstExact(nodes, children, 0, env, open, token)
      invariant Inexact(nodes, children, k, env, open, token) == if c.Nothing? then 0 else 1
      invariant c.Best? ==> c.node == children[OnlyMatch(nodes, children, k, env, open, token)]
    {
      var n := NodeAt(nodes, children[k]);
      if Matches(n, env, open, token) {
        if n.token == Some(token) {
          return Best(children[k]);
        }
        if c.Nothing? {
          c := Best(children[k]);
        } else {
          InexactGrows(nodes, children, k + 1, env, open, token);
          return Ambiguous;
        }
      }
      k := k + 1;
    }
  }

  /** Two matches before any exact one stay two. */
  lemma {:induction false} InexactGrows(nodes: seq<Node>, children: seq<nat>, k: nat, env: Env, open: bool, token: Word)
    requires k <= |children| && FirstExact(nodes, children, 0, env, open, token) ==
      FirstExact(nodes, children, k, env, open, token)
    ensures var e := FirstExact(nodes, children, 0, env, open, token);
      var seen := if e.Some? then e.value else |children|;
      k <= seen && Inexact(nodes, children, k, env, open, token) <= Inexact(nodes, children, seen, env, open, token)
  {
    var e := FirstExact(nodes, children, 0, env, open, token);
    InexactMono(nodes, children, k, if e.Some? then e.value else |children|, env, open, token);
  }

  lemma {:induction false} InexactMono(nodes: seq<Node>, children: seq<nat>, k: nat, m: nat, env: Env, open: bool,
      token: Word)
    requires k <= m <= |children|
    ensures Inexact(nodes, children, k, env, open, token) <= Inexact(nodes, children, m, env, open, token)
    decreases m - k
  {
    if k < m {
      InexactMono(nodes, children, k, m - 1, env, open, token);
    }
  }

  /** Child a is a match, and no exact one. */
  predicate MatchesAt(nodes: seq<Node>, children: seq<nat>, a: nat, env: Env, open: bool, token: Word)
  {
    a < |children| && Matches(NodeAt(nodes, children[a]), env, open, token) &&
      NodeAt(nodes, children[a]).token != Some(token)
  }

  predicate ExactAt(nodes: seq<Node>, children: seq<nat>, e: nat, env: Env, open: bool, token: Word)
  {
    e < |children| && Exact(NodeAt(nodes, children[e]), env, open, token)
  }

  lemma {:induction false} FirstExactIs(nodes: seq<Node>, children: seq<nat>, k: nat, e: nat, env: Env, open: bool,
      token: Word)
    requires k <= e && ExactAt(nodes, children, e, env, open, token)
    requires forall a :: k <= a < e ==> !ExactAt(nodes, children, a, env, open, token)
    ensures FirstExact(nodes, children, k, env, open, token) == Some(e)
    decreases e - k
  {
    if k < e {
      assert !ExactAt(nodes, children, k, env, open, token);
      FirstExactIs(nodes, children, k + 1, e, env, open, token);
    }
  }

  lemma {:induction false} InexactTwo(nodes: seq<Node>, children: seq<nat>, k: nat, env: Env, open: bool, token: Word)
    requires k <= |children|
    ensures Inexact(nodes, children, k, env, open, token) >= 1 <==>
      exists a :: 0 <= a < k && MatchesAt(nodes, children, a, env, open, token)
    ensures Inexact(nodes, children, k, env, open, token) >= 2 <==>
      exists a, b :: 0 <= a < b < k && MatchesAt(nodes, children, a, env, open, token) &&
        MatchesAt(nodes, children, b, env, open, token)
  {
    hide Matches;
    if k > 0 {
      InexactTwo(nodes, children, k - 1, env, open, token);
      var last := MatchesAt(nodes, children, k - 1, env, open, token);
      assert Inexact(nodes, children, k, env, open, token) ==
        Inexact(nodes, children, k - 1, env, open, token) + if last then 1 else 0;
    }
  }

  /** The exact token wins unless two other matches are scanned before it, and the
      command is ambiguous in that case. */
  lemma {:induction false} ExactWinsIff(nodes: seq<Node>, children: seq<nat>, env: Env, open: bool, token: Word, e: nat)
    requires ExactAt(nodes, children, e, env, open, token)
    requires forall a :: 0 <= a < e ==> !ExactAt(nodes, children, a, env, open, token)
    ensures var hidden :=
        exists a, b :: 0 <= a < b < e && MatchesAt(nodes, children, a, env, open, token) &&
          MatchesAt(nodes, children, b, env, open, token);
      Selected(nodes, children, env, open, token) == if hidden then Ambiguous else Best(children[e])
  {
    hide MatchesAt, Inexact, FirstExact;
    FirstExactIs(nodes, children, 0, e, env, open, token);
    InexactTwo(nodes, children, e, env, open, token);
  }

  /** Two commands that extend a third, and come first, hide it. */
  lemma {:induction false} ExactHidden()
    ensures var yes: Env -> bool := _ => true;
      var run: Env -> Option<Env> := env => Some(env);
      var nodes := [Node(Some([97, 98]), false, yes, run, []), Node(Some([97, 99]), false, yes, run, []),
        Node(Some([97]), false, yes, run, [])];
      Selected(nodes, [0, 1, 2], Env([], [], 0), false, [97]) == Ambiguous
  {
    var yes: Env -> bool := _ => true;
    var run: Env -> Option<Env> := env => Some(env);
    var nodes := [Node(Some([97, 98]), false, yes, run, []), Node(Some([97, 99]), false, yes, run, []),
      Node(Some([97]), false, yes, run, [])];
    var children: seq<nat>, env, token: Word := [0, 1, 2], Env([], [], 0), [97];
    assert Matches(nodes[0], env, false, token) && Matches(nodes[1], env, false, token);
    assert FirstExact(nodes, children, 2, env, false, token) == Some(2);
    assert FirstExact(nodes, children, 1, env, false, token) == Some(2);
    assert FirstExact(nodes, children, 0, env, false, token) == Some(2);
    assert Inexact(nodes, children, 1, env, false, token) == 1;
    assert Inexact(nodes, children, 2, env, false, token) == 2;
  }

  // ---------- The engine ----------

  /** cmdenv_get(). */
  predicate Defined(env: Env, key: Word)
  {
    exists i :: 0 <= i < |env.elements| && env.elements[i].key == key
  }

  method Get(env: Env, key: Word) returns (found: bool)
    ensures found == Defined(env, key)
  {
    var i := 0;
    while i < |env.elements|
      invariant i <= |env.elements| && forall j :: 0 <= j < i ==> env.elements[j].key != key
    {
      if env.elements[i].key == key {
        return true;
      }
      i := i + 1;
    }
    found := false;
  }

  /** How an execution ends: without error so far, at which argument, and asking for
      help or completion or not. */
  datatype End = End(ok: bool, argp: nat, asking: bool)

  /** The token to process, if there is one. */
  function TokenAt(argv: seq<Word>, argp: nat, asking: bool): Option<Word>
  {
    if argp < |argv| then Some(argv[argp])
    else if argp == |argv| && !asking then Some(NEWLINE)
    else None
  }

  /** One turn of the engine: the end, or the next environment. */
  datatype Turn = Stop(end: End) | Next(env: Env)

  function TurnOf(nodes: seq<Node>, argv: seq<Word>, priv: bool, env: Env): Turn
    requires env.stack != []
  {
    var complete := Defined(env, COMPLETE);
    var asking := Defined(env, HELP) || complete;
    match TokenAt(argv, env.argp, asking)
    case None => Stop(End(true, env.argp, asking))
    case Some(token) =>
      match Selected(nodes, NodeAt(nodes, env.stack[0]).children, env, priv || complete, token)
      case Ambiguous => Stop(End(false, env.argp, asking))
      case Nothing => Stop(End(env.argp == |argv|, env.argp, asking))
      case Best(b) =>
        match NodeAt(nodes, b).execute(env.(stack := [b] + env.stack))
        case None => Stop(End(false, env.argp, asking))
        case Some(after) => Next(after.(argp := env.argp + 1))
  }

  /** The environments at the start of each turn, from this one on, and the end.  An
      empty stack ends the execution too. */
  datatype Trace = Trace(turns: seq<Env>, end: End)

  function Run(nodes: seq<Node>, argv: seq<Word>, priv: bool, env: Env, asking: bool): Trace
    decreases |argv| + 1 - env.argp
  {
    if env.stack == [] then Trace([], End(true, env.argp, asking))
    else
      match TurnOf(nodes, argv, priv, env)
      case Stop(end) => Trace([env], end)
      case Next(env') =>
        var rest := Run(nodes, argv, priv, env', Defined(env, HELP) || Defined(env, COMPLETE));
        Trace([env] + rest.turns, rest.end)
  }

  /** The start of an execution: the root alone on the stack. */
  function Start(root: nat): Env
  {
    Env([], [root], 0)
  }

  /** _commands_execute() without completion; `turns` counts the turns of its loop. */
  method Execute(nodes: seq<Node>, argv: seq<Word>, priv: bool, root: nat) returns (ok: bool, turns: nat)
    ensures var t := Run(nodes, argv, priv, Start(root), false);
      turns == |t.turns| && ok == (t.end.ok && (t.end.asking || t.end.argp == |argv| + 1))
    ensures turns <= |argv| + 2
  {
    hide Selected, Defined, Run;
    var env, help, complete := Start(root), false, false;
    var end := End(true, 0, false);
    ghost var whole := Run(nodes, argv, priv, env, false);
    turns := 0;
    var stop := false;
    while !stop && env.stack != []
      invariant !stop ==> env.argp == turns <= |argv| + 1 && end == End(true, env.argp, help || complete)
      invariant !stop ==> Continues(nodes, argv, priv, env, help || complete, whole, turns)
      invariant stop ==> turns <= |argv| + 2 && whole.end == end && |whole.turns| == turns
      decreases if stop then 0 else |argv| + 2 - turns
    {
      help := Get(env, HELP);
      complete := Get(env, COMPLETE);
      RunTurn(nodes, argv, priv, env, end.asking, whole, turns);
      turns := turns + 1;
      var token := TokenAt(argv, env.argp, help || complete);
      end := End(true, env.argp, help || complete);
      if token.None? {
        stop := true;
      } else {
        var c := Choose(nodes, NodeAt(nodes, env.stack[0]).children, env, priv || complete, token.value);
        if c.Ambiguous? {
          end := end.(ok := false);
          stop := true;
        } else if c.Nothing? {
          end := end.(ok := env.argp == |argv|);
          stop := true;
        } else {
          var after := NodeAt(nodes, c.node).execute(env.(stack := [c.node] + env.stack));
          if after.None? {
            end := end.(ok := false);
            stop := true;
          } else {
            env := after.value.(argp := env.argp + 1);
            end := end.(argp := env.argp);
          }
        }
      }
    }
    if !stop {
      RunEmpty(nodes, argv, priv, env, help || complete, whole, turns);
    }
    ok := end.ok && (end.asking || end.argp == |argv| + 1);
  }

  /** What is left to run finishes the whole. */
  ghost predicate Continues(nodes: seq<Node>, argv: seq<Word>, priv: bool, env: Env, asking: bool, whole: Trace,
      turns: nat)
  {
    var rest := Run(nodes, argv, priv, env, asking);
    whole.end == rest.end && |whole.turns| == turns + |rest.turns|
  }

  lemma {:induction false} RunTurn(nodes: seq<Node>, argv: seq<Word>, priv: bool, env: Env, asking: bool, whole: Trace,
      turns: nat)
    requires env.stack != [] && Continues(nodes, argv, priv, env, asking, whole, turns)
    ensures match TurnOf(nodes, argv, priv, env)
      case Stop(end) => whole.end == end && |whole.turns| == turns + 1
      case Next(env') =>
        && env.argp <= |argv|
        && Continues(nodes, argv, priv, env', Defined(env, HELP) || Defined(env, COMPLETE), whole, turns + 1)
  {
    hide Selected, Defined;
  }

  lemma {:induction false} RunEmpty(nodes: seq<Node>, argv: seq<Word>, priv: bool, env: Env, asking: bool, whole: Trace,
      turns: nat)
    requires env.stack == [] && Continues(nodes, argv, priv, env, asking, whole, turns)
    ensures whole.end == End(true, env.argp, asking) && |whole.turns| == turns
  {
  }

  /** In any run, turn i processes argument i, and what it chooses leads to turn i + 1:
      no argument is skipped or read twice. */
  lemma {:induction false} RunConsumes(nodes: seq<Node>, argv: seq<Word>, priv: bool, env: Env, asking: bool)
    ensures var t := Run(nodes, argv, priv, env, asking);
      && (forall i :: 0 <= i < |t.turns| ==> t.turns[i].argp == env.argp + i && t.turns[i].stack != [])
      && (forall i :: 0 <= i < |t.turns| - 1 ==> TurnOf(nodes, argv, priv, t.turns[i]) == Next(t.turns[i + 1]))
      && (t.turns != [] ==> t.turns[0] == env && env.argp <= t.end.argp <= env.argp + |t.turns|)
    decreases |argv| + 1 - env.argp
  {
    hide TurnOf, Defined;
    if env.stack != [] {
      match TurnOf(nodes, argv, priv, env)
      case Stop(end) => StopsHere(nodes, argv, priv, env);
      case Next(env') =>
        NextArgument(nodes, argv, priv, env);
        RunConsumes(nodes, argv, priv, env', Defined(env, HELP) || Defined(env, COMPLETE));
        var rest := Run(nodes, argv, priv, env', Defined(env, HELP) || Defined(env, COMPLETE));
        assert rest.turns == [] ==> rest.end.argp == env'.argp;
    }
  }

  lemma {:induction false} StopsHere(nodes: seq<Node>, argv: seq<Word>, priv: bool, env: Env)
    requires env.stack != [] && TurnOf(nodes, argv, priv, env).Stop?
    ensures TurnOf(nodes, argv, priv, env).end.argp == env.argp
  {
  }

  lemma {:induction false} NextArgument(nodes: seq<Node>, argv: seq<Word>, priv: bool, env: Env)
    requires env.stack != [] && TurnOf(nodes, argv, priv, env).Next?
    ensures env.argp <= |argv| && TurnOf(nodes, argv, priv, env).env.argp == env.argp + 1
  {
  }

  /** A command that succeeds without asking for help has had every argument, and then
      the end of the line, matched. */
  lemma {:induction false} SuccessMatchesAll(nodes: seq<Node>, argv: seq<Word>, priv: bool, root: nat, i: nat)
    requires var t := Run(nodes, argv, priv, Start(root), false);
      t.end.ok && !t.end.asking && t.end.argp == |argv| + 1
    requires i <= |argv|
    ensures var t := Run(nodes, argv, priv, Start(root), false);
      i < |t.turns| && t.turns[i].argp == i && t.turns[i].stack != [] && TurnOf(nodes, argv, priv, t.turns[i]).Next?
  {
    hide TurnOf, Run;
    RunConsumes(nodes, argv, priv, Start(root), false);
    RunLast(nodes, argv, priv, Start(root), false);
    var t := Run(nodes, argv, priv, Start(root), false);
    var last := |t.turns| - 1;
    assert t.turns[last].argp == last;
    assert i <= last && t.turns[i].argp == i;
    if i < last {
      assert TurnOf(nodes, argv, priv, t.turns[i]) == Next(t.turns[i + 1]);
    }
  }

  /** The last turn stops at its own argument, unless the stack is then empty. */
  lemma {:induction false} RunLast(nodes: seq<Node>, argv: seq<Word>, priv: bool, env: Env, asking: bool)
    ensures var t := Run(nodes, argv, priv, env, asking);
      && (env.stack != [] ==> t.turns != [])
      && (t.turns != [] ==>
            var last := t.turns[|t.turns| - 1];
            last.stack != [] && if TurnOf(nodes, argv, priv, last).Next? then t.end.argp == last.argp + 1
              else t.end.argp == last.argp)
    decreases |argv| + 1 - env.argp
  {
    hide TurnOf, Defined;
    if env.stack != [] {
      match TurnOf(nodes, argv, priv, env)
      case Stop(end) => StopsHere(nodes, argv, priv, env);
      case Next(env') =>
        NextArgument(nodes, argv, priv, env);
        RunLast(nodes, argv, priv, env', Defined(env, HELP) || Defined(env, COMPLETE));
    }
  }
}
