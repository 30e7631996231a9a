/** The set of symbol suffixes behind the default aliases (P4SymbolSuffixSet in
    control-plane/p4RuntimeSerializer.cpp): a tree whose edges are name components, read from the right. */
module Suffixes {
  import opened Wrappers

  // ---- names and components ----

  /** `boost::split` at every '.' */
  function Split(s: string): (cs: seq<string>)
    ensures |cs| >= 1
  {
    if s == [] then [""]
    else
      var rest := Split(s[1..]);
      if s[0] == '.' then [""] + rest else [[s[0]] + rest[0]] + rest[1..]
  }

  /** The components with dots between them */
  function Join(cs: seq<string>): string {
    if cs == [] then "" else if |cs| == 1 then cs[0] else cs[0] + "." + Join(cs[1..])
  }

  /** How the alias is put together: a dot is only added once something is there. */
  function Serialize(acc: string, cs: seq<string>): string
    decreases |cs|
  {
    if cs == [] then acc
    else Serialize((if acc == "" then acc else acc + ".") + cs[0], cs[1..])
  }

  predicate NoDot(c: string) { '.' !in c }

  lemma {:induction false} SplitNoDots(s: string)
    ensures forall c | c in Split(s) :: NoDot(c)
  {
    if s != [] {
      SplitNoDots(s[1..]);
      var rest := Split(s[1..]);
      assert NoDot(rest[0]);
    }
  }

  lemma {:induction false} JoinSplit(s: string)
    ensures Join(Split(s)) == s
  {
    if s != [] {
      JoinSplit(s[1..]);
      var rest := Split(s[1..]);
      if s[0] == '.' {
        assert ([""] + rest)[1..] == rest;
      } else {
        assert ([[s[0]] + rest[0]] + rest[1..])[1..] == rest[1..];
        assert Join([[s[0]] + rest[0]] + rest[1..]) == [s[0]] + Join(rest);
      }
    }
  }

  lemma {:induction false} SplitComponent(c: string)
    requires NoDot(c)
    ensures Split(c) == [c]
  {
    if c != [] {
      SplitComponent(c[1..]);
      assert [c[0]] + c[1..] == c;
    }
  }

  lemma {:induction false} SplitFirst(c: string, s: string)
    requires NoDot(c)
    ensures Split(c + "." + s) == [c] + Split(s)
  {
    if c == [] {
      assert c + "." + s == "." + s && ("." + s)[1..] == s;
    } else {
      SplitFirst(c[1..], s);
      assert (c + "." + s)[1..] == c[1..] + "." + s;
      assert [c[0]] + c[1..] == c;
      assert ([c[1..]] + Split(s))[1..] == Split(s);
    }
  }

  lemma {:induction false} SplitJoin(cs: seq<string>)
    requires cs != [] && forall c | c in cs :: NoDot(c)
    ensures Split(Join(cs)) == cs
  {
    if |cs| == 1 {
      SplitComponent(cs[0]);
    } else {
      SplitJoin(cs[1..]);
      SplitFirst(cs[0], Join(cs[1..]));
    }
  }

  lemma {:induction false} SerializeFrom(acc: string, cs: seq<string>)
    requires acc != ""
    ensures Serialize(acc, cs) == Join([acc] + cs)
    decreases |cs|
  {
    if cs != [] {
      SerializeFrom(acc + "." + cs[0], cs[1..]);
      assert ([acc] + cs)[1..] == cs;
      assert ([acc + "." + cs[0]] + cs[1..])[1..] == cs[1..];
    }
  }

  /** The alias text is the joined suffix, unless the suffix starts with an empty component and has others. */
  lemma SerializeIsJoin(cs: seq<string>)
    requires cs != []
    ensures Serialize("", cs) == Join(cs) <==> |cs| == 1 || cs[0] != ""
  {
    if cs[0] != "" {
      SerializeFrom(cs[0], cs[1..]);
      assert [cs[0]] + cs[1..] == cs && "" + cs[0] == cs[0];
    } else if |cs| > 1 {
      SerializeShort("", cs[1..]);
    }
  }

  lemma {:induction false} SerializeShort(acc: string, cs: seq<string>)
    requires cs != []
    ensures |Serialize(acc, cs)| <= |Join(cs)| + if acc == "" then 0 else |acc| + 1
    decreases |cs|
  {
    var longer := (if acc == "" then acc else acc + ".") + cs[0];
    assert |longer| == |cs[0]| + if acc == "" then 0 else |acc| + 1;
    assert Serialize(acc, cs) == Serialize(longer, cs[1..]);
    if |cs| > 1 {
      SerializeShort(longer, cs[1..]);
      assert |Join(cs)| == |cs[0]| + 1 + |Join(cs[1..])|;
    } else {
      assert cs[1..] == [];
      assert Serialize(longer, []) == longer;
    }
  }

  function Reverse(cs: seq<string>): (r: seq<string>)
    ensures |r| == |cs|
    ensures forall i | 0 <= i < |cs| :: r[i] == cs[|cs| - 1 - i]
  {
    if cs == [] then [] else Reverse(cs[1..]) + [cs[0]]
  }

  /** The components of a symbol from right to left: a suffix of the name is a prefix of its key. */
  function Key(s: string): (k: seq<string>)
    ensures |k| >= 1
  {
    Reverse(Split(s))
  }

  lemma KeyInjective(s: string, t: string)
    requires Key(s) == Key(t)
    ensures s == t
  {
    assert Split(s) == Split(t) by {
      forall i | 0 <= i < |Split(s)|
        ensures Split(s)[i] == Split(t)[i]
      {
        assert Key(s)[|Split(s)| - 1 - i] == Key(t)[|Split(s)| - 1 - i];
      }
    }
    JoinSplit(s);
    JoinSplit(t);
  }

  // ---- aliases ----

  /** The symbols that have the suffix whose components, from the right, are p */
  function Having(symbols: set<string>, p: seq<string>): set<string> {
    set s | s in symbols && p <= Key(s)
  }

  /** How many symbols have the suffix of j components */
  function Sharing(symbols: set<string>, key: seq<string>, j: nat): nat
    requires j <= |key|
  {
    |Having(symbols, key[..j])|
  }

  /** The number of components, from k on, that identify a symbol: up to the first suffix of less than two symbols,
      or all. None when a suffix on the way belongs to no symbol. */
  function Needed(symbols: set<string>, key: seq<string>, k: nat): (n: Option<nat>)
    requires k <= |key|
    ensures n.Some? ==> n.value <= |key|
    decreases |key| - k
  {
    if k == |key| then Some(k)
    else if Sharing(symbols, key, k + 1) == 0 then None
    else if Sharing(symbols, key, k + 1) < 2 then Some(k + 1)
    else Needed(symbols, key, k + 1)
  }

  function LastOf(cs: seq<string>, n: nat): seq<string>
    requires n <= |cs|
  {
    cs[|cs| - n..]
  }

  /** The first n suffixes of a symbol each belong to another symbol as well. */
  ghost predicate SharedUpTo(symbols: set<string>, key: seq<string>, n: nat)
    requires n <= |key|
  {
    forall j | 0 < j <= n :: Sharing(symbols, key, j) >= 2
  }

  lemma {:induction false} NeededResult(symbols: set<string>, s: string, k: nat)
    requires s in symbols && k < |Key(s)| && SharedUpTo(symbols, Key(s), k)
    ensures var n := Needed(symbols, Key(s), k);
            && n.Some? && k < n.value <= |Key(s)|
            && (Having(symbols, Key(s)[..n.value]) == {s} || n.value == |Key(s)|)
            && SharedUpTo(symbols, Key(s), n.value - 1)
    decreases |Key(s)| - k
  {
    var key := Key(s);
    hide Key, Having, Sharing;
    SharedByItself(symbols, s, k + 1);
    if Sharing(symbols, key, k + 1) >= 2 && k + 1 < |key| {
      NeededResult(symbols, s, k + 1);
    }
  }

  lemma SharedByItself(symbols: set<string>, s: string, j: nat)
    requires s in symbols && j <= |Key(s)|
    ensures Sharing(symbols, Key(s), j) > 0
    ensures Sharing(symbols, Key(s), j) < 2 ==> Having(symbols, Key(s)[..j]) == {s}
  {
    var h := Having(symbols, Key(s)[..j]);
    assert s in h;
    assert |h - {s}| == |h| - 1;
  }

  /** The suffix that is chosen for a symbol in the set: the shortest one that no other symbol has, or else all its
      components */
  ghost function Chosen(symbols: set<string>, s: string): (cs: seq<string>)
    requires s in symbols
    ensures cs != []
  {
    NeededResult(symbols, s, 0);
    LastOf(Split(s), Needed(symbols, Key(s), 0).value)
  }

  /** The alias of a symbol in the set */
  ghost function Alias(symbols: set<string>, s: string): string
    requires s in symbols
  {
    Serialize("", Chosen(symbols, s))
  }

  lemma AliasIsNeeded(symbols: set<string>, s: string)
    requires s in symbols
    ensures var n := Needed(symbols, Key(s), 0);
            n.Some? && Alias(symbols, s) == Serialize("", LastOf(Split(s), n.value))
  {
    NeededResult(symbols, s, 0);
  }

  lemma LastOfIsPrefixOfKey(s: string, n: nat)
    requires n <= |Key(s)|
    ensures Reverse(LastOf(Split(s), n)) == Key(s)[..n]
  {
    ReverseLast(Split(s), n);
  }

  lemma {:induction false} ReverseLast(cs: seq<string>, n: nat)
    requires n <= |cs|
    ensures Reverse(LastOf(cs, n)) == Reverse(cs)[..n]
  {
    if n < |cs| {
      ReverseLast(cs[1..], n);
      assert LastOf(cs, n) == LastOf(cs[1..], n);
    } else {
      assert LastOf(cs, n) == cs;
    }
  }

  /** Different symbols have different chosen suffixes. */
  lemma ChosenDiffer(symbols: set<string>, s: string, t: string)
    requires s in symbols && t in symbols && s != t
    ensures Chosen(symbols, s) != Chosen(symbols, t)
  {
    NeededResult(symbols, s, 0);
    NeededResult(symbols, t, 0);
    var n, m := Needed(symbols, Key(s), 0).value, Needed(symbols, Key(t), 0).value;
    LastOfIsPrefixOfKey(s, n);
    LastOfIsPrefixOfKey(t, m);
    SharedChoice(symbols, s, t, n, m);
  }

  lemma SharedChoice(symbols: set<string>, s: string, t: string, n: nat, m: nat)
    requires s in symbols && t in symbols && s != t && n <= |Key(s)| && m <= |Key(t)|
    requires Having(symbols, Key(s)[..n]) == {s} || n == |Key(s)|
    requires Having(symbols, Key(t)[..m]) == {t} || m == |Key(t)|
    ensures Key(s)[..n] != Key(t)[..m]
  {
    hide Key;
    var p := Key(s)[..n];
    if p == Key(t)[..m] {
      assert s in Having(symbols, p) && t in Having(symbols, p);
      assert n == |Key(s)| && m == |Key(t)|;
      KeyInjective(s, t);
    }
  }

  lemma ChosenNoDots(symbols: set<string>, s: string)
    requires s in symbols
    ensures forall c | c in Chosen(symbols, s) :: NoDot(c)
  {
    NeededResult(symbols, s, 0);
    SplitNoDots(s);
  }

  /** Empty components in front are lost, as long as more than one component is left. */
  function Trimmed(cs: seq<string>): (ds: seq<string>)
    requires cs != []
    ensures ds != []
  {
    if |cs| > 1 && cs[0] == "" then Trimmed(cs[1..]) else cs
  }

  lemma {:induction false} SerializeTrims(cs: seq<string>)
    requires cs != []
    ensures Serialize("", cs) == Join(Trimmed(cs))
  {
    if |cs| > 1 && cs[0] == "" { SerializeTrims(cs[1..]); } else { SerializeIsJoin(cs); }
  }

  lemma {:induction false} TrimmedNoDots(cs: seq<string>)
    requires cs != [] && forall c | c in cs :: NoDot(c)
    ensures forall c | c in Trimmed(cs) :: NoDot(c)
  {
    if |cs| > 1 && cs[0] == "" { TrimmedNoDots(cs[1..]); }
  }

  /** Two symbols get the same alias if and only if their chosen suffixes are the same but for empty components in
      front. */
  lemma AliasesEqual(symbols: set<string>, s: string, t: string)
    requires s in symbols && t in symbols
    ensures Alias(symbols, s) == Alias(symbols, t)
            <==> Trimmed(Chosen(symbols, s)) == Trimmed(Chosen(symbols, t))
  {
    ChosenNoDots(symbols, s);
    ChosenNoDots(symbols, t);
    var cs, ds := Chosen(symbols, s), Chosen(symbols, t);
    hide Chosen;
    SerializeTrims(cs);
    SerializeTrims(ds);
    TrimmedNoDots(cs);
    TrimmedNoDots(ds);
    SplitJoin(Trimmed(cs));
    SplitJoin(Trimmed(ds));
  }

  /** A suffix that loses nothing: one component, or no empty one in front */
  predicate Plain(cs: seq<string>) {
    |cs| == 1 || (cs != [] && cs[0] != "")
  }

  /** Different symbols get different aliases when their chosen suffixes lose nothing. */
  lemma AliasesDiffer(symbols: set<string>, s: string, t: string)
    requires s in symbols && t in symbols && s != t
    requires Plain(Chosen(symbols, s)) && Plain(Chosen(symbols, t))
    ensures Alias(symbols, s) != Alias(symbols, t)
  {
    hide Chosen, Alias;
    AliasesEqual(symbols, s, t);
    ChosenDiffer(symbols, s, t);
  }

  /** That is so for names without empty components. */
  lemma NoEmptyComponentIsPlain(symbols: set<string>, s: string)
    requires s in symbols && forall c | c in Split(s) :: c != ""
    ensures Plain(Chosen(symbols, s))
  {
    NeededResult(symbols, s, 0);
    assert Chosen(symbols, s)[0] in Split(s);
  }

  /** With empty components the aliases of different symbols may be the same: of the two symbols "b" and "a..b",
      whatever a and b are, both get "b". */
  lemma EmptyComponentCollision(a: string, b: string)
    requires NoDot(a) && NoDot(b)
    ensures var s, t := b, a + "." + ("" + "." + b); s != t && Alias({s, t}, s) == b && Alias({s, t}, t) == b
  {
    var s, t := b, a + "." + ("" + "." + b);
    hide Split, Needed, Having, Alias, Chosen, Serialize;
    SplitComponent(b);
    SplitFirst("", b);
    SplitFirst(a, "" + "." + b);
    assert Split(t) == [a, "", b];
    assert |s| != |t|;
    CollisionOf({s, t}, s, t, a, b);
  }

  lemma CollisionOf(symbols: set<string>, s: string, t: string, a: string, b: string)
    requires symbols == {s, t} && s != t && Split(s) == [b] && Split(t) == [a, "", b]
    ensures Alias(symbols, s) == b && Alias(symbols, t) == b
  {
    KeyOfThree(t, a, "", b);
    assert Key(s) == [b];
    hide Key, Split, Having;
    SharedFirst(symbols, s, t, b);
    OwnSecond(symbols, s, t, b);
    NeededResult(symbols, s, 0);
    NeededSecond(symbols, Key(t));
    assert Chosen(symbols, s) == [b] && Chosen(symbols, t) == ["", b];
    SerializeLast(b);
    SerializeSecond(b);
  }

  lemma NeededSecond(symbols: set<string>, key: seq<string>)
    requires |key| == 3 && Sharing(symbols, key, 1) == 2 && Sharing(symbols, key, 2) == 1
    ensures Needed(symbols, key, 0) == Some(2)
  {
    assert Needed(symbols, key, 1) == Some(2);
  }

  lemma KeyOfThree(t: string, a: string, c: string, b: string)
    requires Split(t) == [a, c, b]
    ensures Key(t) == [b, c, a] && Key(t)[..1] == [b] && Key(t)[..2] == [b, c]
  {
  }

  lemma SharedFirst(symbols: set<string>, s: string, t: string, b: string)
    requires symbols == {s, t} && s != t && [b] <= Key(s) && [b] <= Key(t)
    ensures |Having(symbols, [b])| == 2
  {
    assert Having(symbols, [b]) == {s, t};
  }

  lemma OwnSecond(symbols: set<string>, s: string, t: string, b: string)
    requires symbols == {s, t} && [b, ""] <= Key(t) && |Key(s)| == 1
    ensures Having(symbols, [b, ""]) == {t}
  {
  }

  lemma SerializeLast(b: string)
    ensures Serialize("", [b]) == b
  {
    assert Serialize("", [b]) == Serialize("" + b, []);
    assert "" + b == b;
  }

  lemma SerializeSecond(b: string)
    ensures Serialize("", ["", b]) == b
  {
    SerializeLast(b);
    assert ["", b][1..] == [b];
  }

  // ---- the tree ----

  /** The way from the root of the tree to a node */
  datatype Path = Root | Step(up: Path, component: string)

  function Components(p: Path): seq<string> {
    if p.Root? then [] else Components(p.up) + [p.component]
  }

  type Counts = Path -> nat

  /** How many symbols have each suffix, when of one more symbol the suffixes up to `part` are added already */
  ghost function CountsOf(syms: set<string>, part: seq<string>): Counts {
    (p: Path) => |Having(syms, Components(p))| + if Components(p) <= part then 1 else 0
  }

  /** The instance count and the outgoing edges of a node; nodes are named by numbers. */
  datatype SuffixNode = SuffixNode(instances: nat, edges: map<string, int>)

  /** The nodes of a tree, with the way from the root (node 0) to each. There is one node for every suffix that
      occurs, and it holds the number of its symbols. */
  ghost predicate Tree(nodes: map<int, SuffixNode>, ways: map<int, Path>, counts: Counts) {
    && nodes.Keys == ways.Keys && 0 in nodes && ways[0] == Root && OneNodeEach(ways)
    && (forall i, c | i in nodes && c in nodes[i].edges :: EdgeOk(nodes, ways, i, c))
    && EdgesCounted(nodes, ways, counts) && NodesCounted(nodes, ways, counts)
  }

  ghost predicate OneNodeEach(ways: map<int, Path>) {
    forall i, j | i in ways && j in ways && ways[i] == ways[j] :: i == j
  }

  ghost predicate EdgesCounted(nodes: map<int, SuffixNode>, ways: map<int, Path>, counts: Counts)
    requires nodes.Keys == ways.Keys
  {
    forall i, c | i in nodes :: c in nodes[i].edges <==> counts(Step(ways[i], c)) > 0
  }

  ghost predicate NodesCounted(nodes: map<int, SuffixNode>, ways: map<int, Path>, counts: Counts)
    requires nodes.Keys == ways.Keys
  {
    forall i | i in nodes && i != 0 :: nodes[i].instances == counts(ways[i]) > 0
  }

  ghost predicate EdgeOk(nodes: map<int, SuffixNode>, ways: map<int, Path>, i: int, c: string)
    requires i in nodes && c in nodes[i].edges && i in ways
  {
    var j := nodes[i].edges[c];
    j in nodes && j in ways && j != 0 && ways[j] == Step(ways[i], c)
  }

  /** One more symbol has the suffix q. */
  ghost predicate OneMore(counts: Counts, counts': Counts, q: Path) {
    forall p :: p != Root ==> counts'(p) == counts(p) + if p == q then 1 else 0
  }

  /** A new node for a suffix that is in the tree for the first time; its edge is new. */
  lemma Grow(nodes: map<int, SuffixNode>, ways: map<int, Path>, counts: Counts, counts': Counts,
             node: int, c: string, added: int)
    requires Tree(nodes, ways, counts) && node in nodes && c !in nodes[node].edges && added !in nodes
    requires OneMore(counts, counts', Step(ways[node], c))
    requires forall d :: counts(Step(Step(ways[node], c), d)) == 0
    ensures Tree(Grown(nodes, node, c, added), ways[added := Step(ways[node], c)], counts')
  {
    assert counts(Step(ways[node], c)) == 0;
    GrowEdges(nodes, ways, node, c, added);
    GrowCounts(nodes, ways, counts, counts', node, c, added);
    GrowNodes(nodes, ways, counts, counts', node, c, added);
    hide OneNodeEach, EdgesCounted, NodesCounted, EdgeOk;
  }

  function Grown(nodes: map<int, SuffixNode>, node: int, c: string, added: int): map<int, SuffixNode>
    requires node in nodes
  {
    nodes[node := nodes[node].(edges := nodes[node].edges[c := added])][added := SuffixNode(1, map[])]
  }

  lemma GrowEdges(nodes: map<int, SuffixNode>, ways: map<int, Path>, node: int, c: string, added: int)
    requires nodes.Keys == ways.Keys && 0 in nodes && node in nodes && added !in nodes
    requires forall i, d | i in nodes && d in nodes[i].edges :: EdgeOk(nodes, ways, i, d)
    ensures var nodes', ways' := Grown(nodes, node, c, added), ways[added := Step(ways[node], c)];
            forall i, d | i in nodes' && d in nodes'[i].edges :: EdgeOk(nodes', ways', i, d)
  {
    var nodes', ways' := Grown(nodes, node, c, added), ways[added := Step(ways[node], c)];
    forall i, d | i in nodes' && d in nodes'[i].edges
      ensures EdgeOk(nodes', ways', i, d)
    {
      if i in nodes && d in nodes[i].edges { assert EdgeOk(nodes, ways, i, d); }
    }
  }

  lemma GrowCounts(nodes: map<int, SuffixNode>, ways: map<int, Path>, counts: Counts, counts': Counts,
                   node: int, c: string, added: int)
    requires nodes.Keys == ways.Keys && node in nodes && added !in nodes && c !in nodes[node].edges
    requires OneNodeEach(ways) && EdgesCounted(nodes, ways, counts)
    requires OneMore(counts, counts', Step(ways[node], c))
    requires forall d :: counts(Step(Step(ways[node], c), d)) == 0
    ensures EdgesCounted(Grown(nodes, node, c, added), ways[added := Step(ways[node], c)], counts')
  {
    var nodes', ways' := Grown(nodes, node, c, added), ways[added := Step(ways[node], c)];
    forall i, d | i in nodes'
      ensures d in nodes'[i].edges <==> counts'(Step(ways'[i], d)) > 0
    {
      var p := Step(ways'[i], d);
      assert counts'(p) == counts(p) + if p == Step(ways[node], c) then 1 else 0;
    }
  }

  lemma GrowNodes(nodes: map<int, SuffixNode>, ways: map<int, Path>, counts: Counts, counts': Counts,
                  node: int, c: string, added: int)
    requires nodes.Keys == ways.Keys && 0 in nodes && ways[0] == Root && node in nodes && added !in nodes
    requires OneNodeEach(ways) && NodesCounted(nodes, ways, counts)
    requires OneMore(counts, counts', Step(ways[node], c)) && counts(Step(ways[node], c)) == 0
    ensures OneNodeEach(ways[added := Step(ways[node], c)])
    ensures NodesCounted(Grown(nodes, node, c, added), ways[added := Step(ways[node], c)], counts')
  {
    var nodes', ways' := Grown(nodes, node, c, added), ways[added := Step(ways[node], c)];
    forall i | i in ways && i != 0
      ensures ways[i] != Step(ways[node], c) && ways[i] != Root
      ensures nodes'[i].instances == counts'(ways'[i]) > 0
    {
      assert nodes[i].instances == counts(ways[i]) > 0;
      assert ways[i] != ways[0];
      assert counts'(ways[i]) == counts(ways[i]);
    }
  }

  lemma NotCounted(nodes: map<int, SuffixNode>, ways: map<int, Path>, counts: Counts, node: int, c: string)
    requires Tree(nodes, ways, counts) && node in nodes && c !in nodes[node].edges
    ensures counts(Step(ways[node], c)) == 0
  {
  }

  /** One more symbol passes an existing node. */
  lemma Pass(nodes: map<int, SuffixNode>, ways: map<int, Path>, counts: Counts, counts': Counts,
             node: int, c: string)
    requires Tree(nodes, ways, counts) && node in nodes && c in nodes[node].edges
    requires OneMore(counts, counts', Step(ways[node], c))
    ensures EdgeOk(nodes, ways, node, c)
    ensures var next := nodes[node].edges[c];
            Tree(nodes[next := nodes[next].(instances := nodes[next].instances + 1)], ways, counts')
  {
    assert EdgeOk(nodes, ways, node, c);
    var next := nodes[node].edges[c];
    var nodes' := nodes[next := nodes[next].(instances := nodes[next].instances + 1)];
    forall i, d | i in nodes' && d in nodes'[i].edges ensures EdgeOk(nodes', ways, i, d) {
      assert EdgeOk(nodes, ways, i, d);
    }
    PassCounts(nodes, ways, counts, counts', node, c, next);
    hide OneNodeEach, EdgesCounted, NodesCounted, EdgeOk;
  }

  lemma PassCounts(nodes: map<int, SuffixNode>, ways: map<int, Path>, counts: Counts, counts': Counts, node: int,
                   c: string, next: int)
    requires nodes.Keys == ways.Keys && 0 in nodes && ways[0] == Root && node in nodes && next in nodes && next != 0
    requires OneNodeEach(ways) && EdgesCounted(nodes, ways, counts) && NodesCounted(nodes, ways, counts)
    requires OneMore(counts, counts', Step(ways[node], c)) && ways[next] == Step(ways[node], c)
    requires c in nodes[node].edges
    ensures var nodes' := nodes[next := nodes[next].(instances := nodes[next].instances + 1)];
            EdgesCounted(nodes', ways, counts') && NodesCounted(nodes', ways, counts')
  {
    var nodes' := nodes[next := nodes[next].(instances := nodes[next].instances + 1)];
    forall i, d | i in nodes'
      ensures d in nodes'[i].edges <==> counts'(Step(ways[i], d)) > 0
    {
      var p := Step(ways[i], d);
      assert counts'(p) == counts(p) + if p == Step(ways[node], c) then 1 else 0;
    }
    forall i | i in nodes' && i != 0
      ensures nodes'[i].instances == counts'(ways[i]) > 0
    {
      assert nodes[i].instances == counts(ways[i]) > 0 && ways[i] != ways[0];
      assert ways[i] == ways[next] ==> i == next;
    }
  }

  /** Only the counts of non-empty suffixes matter. */
  lemma SameCounts(nodes: map<int, SuffixNode>, ways: map<int, Path>, counts: Counts, counts': Counts)
    requires Tree(nodes, ways, counts) && forall p :: p != Root ==> counts(p) == counts'(p)
    ensures Tree(nodes, ways, counts')
  {
    forall i | i in ways && i != 0 ensures ways[i] != Root { assert ways[0] == Root; }
  }

  lemma {:induction false} ComponentsInjective(p: Path, q: Path)
    requires Components(p) == Components(q)
    ensures p == q
  {
    if p.Step? && q.Step? {
      var cs, ds := Components(p), Components(q);
      assert Components(p.up) == cs[..|cs| - 1] == ds[..|ds| - 1] == Components(q.up);
      assert cs[|cs| - 1] == ds[|ds| - 1];
      ComponentsInjective(p.up, q.up);
    }
  }

  lemma PrefixStep(key: seq<string>, k: nat, cs: seq<string>)
    requires k < |key|
    ensures cs <= key[..k + 1] <==> cs <= key[..k] || cs == key[..k + 1]
  {
    if cs <= key[..k + 1] && |cs| <= k { assert cs == key[..k + 1][..|cs|] == key[..k][..|cs|]; }
  }

  lemma NextSuffix(syms: set<string>, key: seq<string>, k: nat, q: Path)
    requires k < |key| && Components(q) == key[..k + 1]
    ensures OneMore(CountsOf(syms, key[..k]), CountsOf(syms, key[..k + 1]), q)
  {
    forall p
      ensures Components(p) <= key[..k + 1] <==> Components(p) <= key[..k] || p == q
      ensures !(Components(q) <= key[..k])
    {
      PrefixStep(key, k, Components(p));
      if Components(p) == Components(q) { ComponentsInjective(p, q); }
    }
  }

  /** No symbol has a longer suffix than one that no symbol has. */
  lemma NothingBeyond(syms: set<string>, part: seq<string>, q: Path)
    ensures CountsOf(syms, part)(q) == 0 ==> forall d :: CountsOf(syms, part)(Step(q, d)) == 0
  {
    var cs := Components(q);
    forall d | CountsOf(syms, part)(q) == 0
      ensures CountsOf(syms, part)(Step(q, d)) == 0
    {
      assert Having(syms, cs) == {};
      forall s | s in syms
        ensures !(cs + [d] <= Key(s))
      {
        assert s !in Having(syms, cs);
      }
      assert Having(syms, cs + [d]) == {};
    }
  }

  lemma StepCounts(syms: set<string>, key: seq<string>, k: nat, p: Path, counts: Counts, counts': Counts)
    requires k < |key| && Components(p) == key[..k]
    requires counts == CountsOf(syms, key[..k]) && counts' == CountsOf(syms, key[..k + 1])
    ensures OneMore(counts, counts', Step(p, key[k]))
    ensures counts(Step(p, key[k])) == 0 ==> forall d :: counts(Step(Step(p, key[k]), d)) == 0
    ensures Components(Step(p, key[k])) == key[..k + 1]
  {
    assert Components(Step(p, key[k])) == key[..k + 1];
    NextSuffix(syms, key, k, Step(p, key[k]));
    NothingBeyond(syms, key[..k], Step(p, key[k]));
  }

  /** Once all its suffixes are in, the symbol belongs to the set. */
  lemma Complete(syms: set<string>, s: string)
    requires s !in syms
    ensures forall p :: p != Root ==> CountsOf(syms + {s}, [])(p) == CountsOf(syms, Key(s))(p)
  {
    forall p | p != Root
      ensures CountsOf(syms + {s}, [])(p) == CountsOf(syms, Key(s))(p)
    {
      hide Key, Having, Components;
      HavingMore(syms, s, Components(p));
    }
  }

  lemma HavingMore(syms: set<string>, s: string, cs: seq<string>)
    requires s !in syms
    ensures |Having(syms + {s}, cs)| == |Having(syms, cs)| + if cs <= Key(s) then 1 else 0
  {
    hide Key;
    var h := Having(syms, cs);
    assert Having(syms + {s}, cs) == if cs <= Key(s) then h + {s} else h;
    assert s !in h;
  }

  /** Before the first step nothing is added. */
  lemma NothingAdded(syms: set<string>, q: Path)
    requires q != Root
    ensures CountsOf(syms, [])(q) == |Having(syms, Components(q))|
  {
  }

  /** The tree of P4SymbolSuffixSet */
  class SuffixSet {
    var symbols: set<string>
    var nodes: map<int, SuffixNode>
    /** The number for the next new node */
    var next: int
    /** The way from the root to each node */
    ghost var ways: map<int, Path>

    /** Every node counts exactly the symbols that have its suffix, and there is a node for every suffix. */
    ghost predicate Valid()
      reads this
    {
      Numbered() && Tree(nodes, ways, CountsOf(symbols, []))
    }

    ghost predicate Numbered()
      reads this
    {
      forall i | i in nodes :: i < next
    }

    constructor ()
      ensures Valid() && symbols == {}
    {
      symbols := {};
      nodes := map[0 := SuffixNode(0, map[])];
      ways := map[0 := Root];
      next := 1;
    }

    /** Add the suffixes of a symbol, unless the symbol is known already. */
    method AddSymbol(symbol: string)
      requires Valid() && symbol != ""
      modifies this
      ensures Valid() && symbols == old(symbols) + {symbol}
    {
      if symbol in symbols { return; }
      AddSuffixes(Key(symbol));
      Complete(symbols, symbol);
      SameCounts(nodes, ways, CountsOf(symbols, Key(symbol)), CountsOf(symbols + {symbol}, []));
      symbols := symbols + {symbol};
    }

    /** The loop over the components, from the right */
    method AddSuffixes(components: seq<string>)
      requires Valid()
      modifies `nodes, `ways, `next
      ensures Numbered() && Tree(nodes, ways, CountsOf(symbols, components))
    {
      assert components[..0] == [] && Tree(nodes, ways, CountsOf(symbols, [])) && ways[0] == Root;
      hide Tree, CountsOf, OneMore;
      var node := 0;
      ghost var counts := CountsOf(symbols, components[..0]);
      for k := 0 to |components|
        invariant counts == CountsOf(symbols, components[..k])
        invariant Numbered() && Tree(nodes, ways, counts)
        invariant node in ways && Components(ways[node]) == components[..k]
      {
        ghost var before := counts;
        counts := CountsOf(symbols, components[..k + 1]);
        StepCounts(symbols, components, k, ways[node], before, counts);
        node := Follow(components[k], node, before, counts);
      }
      assert components[..|components|] == components;
    }

    /** The body of the loop: follow the edge of a component, making it and its node if need be, and count. */
    method Follow(c: string, node: int, ghost counts: Counts, ghost counts': Counts) returns (child: int)
      requires Numbered() && Tree(nodes, ways, counts) && node in ways
      requires OneMore(counts, counts', Path.Step(ways[node], c))
      requires counts(Path.Step(ways[node], c)) == 0 ==>
                 forall d :: counts(Path.Step(Path.Step(ways[node], c), d)) == 0
      modifies `nodes, `ways, `next
      ensures Numbered() && Tree(nodes, ways, counts')
      ensures child in ways && ways[child] == Path.Step(old(ways[node]), c)
    {
      hide OneMore, OneNodeEach, EdgesCounted, NodesCounted;
      if c !in nodes[node].edges {
        NotCounted(nodes, ways, counts, node, c);
        Grow(nodes, ways, counts, counts', node, c, next);
        nodes := nodes[node := nodes[node].(edges := nodes[node].edges[c := next])][next := SuffixNode(0, map[])];
        ways := ways[next := Path.Step(ways[node], c)];
        next := next + 1;
        child := nodes[node].edges[c];
        nodes := nodes[child := nodes[child].(instances := nodes[child].instances + 1)];
        assert nodes == Grown(old(nodes), node, c, old(next));
        hide Tree;
      } else {
        Pass(nodes, ways, counts, counts', node, c);
        hide Tree;
        child := nodes[node].edges[c];
        nodes := nodes[child := nodes[child].(instances := nodes[child].instances + 1)];
      }
    }

    /** None stands for the compiler bug that the source reports when a suffix is not in the tree. */
    method ShortestUniqueSuffix(symbol: string) returns (alias: Option<string>)
      requires Valid() && symbol != ""
      ensures var n := Needed(symbols, Key(symbol), 0);
              alias == if n.None? then None else Some(Serialize("", LastOf(Split(symbol), n.value)))
      ensures symbol in symbols ==> alias == Some(Alias(symbols, symbol))
    {
      hide OneNodeEach, EdgeOk, EdgesCounted, NodesCounted, Reverse, Split, Having, CountsOf, Alias, Chosen;
      var components := Split(symbol);
      var key := Reverse(components);
      var neededComponents := 0;
      var node := 0;
      if symbol in symbols { AliasIsNeeded(symbols, symbol); }
      while neededComponents < |key|
        invariant 0 <= neededComponents <= |key|
        invariant node in ways && Components(ways[node]) == key[..neededComponents]
        invariant Needed(symbols, key, neededComponents) == Needed(symbols, key, 0)
      {
        var c := key[neededComponents];
        Lookup(symbols, node, key, neededComponents);
        if c !in nodes[node].edges { return None; }
        node := nodes[node].edges[c];
        neededComponents := neededComponents + 1;
        if nodes[node].instances < 2 { break; }
      }
      alias := Some(Serialize("", LastOf(components, neededComponents)));
    }

    /** What the tree says of the suffix of k + 1 components */
    lemma {:induction false} Lookup(syms: set<string>, node: int, key: seq<string>, k: nat)
      requires Tree(nodes, ways, CountsOf(syms, [])) && node in ways && k < |key| && Components(ways[node]) == key[..k]
      ensures key[k] in nodes[node].edges <==> Sharing(syms, key, k + 1) != 0
      ensures key[k] in nodes[node].edges ==>
                var j := nodes[node].edges[key[k]];
                j in ways && Components(ways[j]) == key[..k + 1] && nodes[j].instances == Sharing(syms, key, k + 1)
    {
      hide Having;
      var q := Path.Step(ways[node], key[k]);
      assert Components(q) == key[..k + 1];
      hide Components;
      NothingAdded(syms, q);
      if key[k] in nodes[node].edges { assert EdgeOk(nodes, ways, node, key[k]); }
    }
  }
}
