/**
 The flat-node Aho-Corasick automaton. `nodes` is the growing vector of the source; the ghost
 fields name each node by the path that leads to it.
 */
module AhoCorasick {
  import opened Strings
  import opened Wrappers

  datatype Node = Node(children: map<char, nat>, fail: nat, outputs: seq<string>)

  /** Keyword/output pairs handed to `Add`. */
  type Dict = set<(string, string)>

  // ---------------------------------------------------------------- paths

  /** `index` is the set of trie paths with their node numbers; it is closed under prefixes. */
  ghost predicate Closed(index: map<string, nat>) {
    [] in index && forall v, c :: v + [c] in index ==> v in index
  }

  /** `u` is the longest suffix of `t` that is a trie path. */
  ghost predicate Longest(index: map<string, nat>, t: string, u: string) {
    u in index && IsSuffix(u, t) && forall s {:trigger IsSuffix(s, t)} :: s in index && IsSuffix(s, t) ==> |s| <= |u|
  }

  /** `x` is a path that is a suffix of `t`, and no longer suffix of `t` extends by `c`. */
  ghost predicate Candidate(index: map<string, nat>, t: string, c: char, x: string) {
    x in index && IsSuffix(x, t) &&
    forall v :: v + [c] in index && IsSuffix(v, t) ==> |v| <= |x|
  }

  lemma CandidateStart(index: map<string, nat>, t: string, c: char, u: string)
    requires Closed(index) && Longest(index, t, u)
    ensures Candidate(index, t, c, u)
  {
  }

  /** One hop along a failure link keeps the candidate invariant. */
  lemma CandidateHop(index: map<string, nat>, t: string, c: char, x: string, f: string)
    requires Closed(index) && Candidate(index, t, c, x)
    requires x != [] && x + [c] !in index && Longest(index, x[1..], f)
    ensures Candidate(index, t, c, f) && |f| < |x|
  {
    assert IsSuffix(x[1..], x);
    SuffixTrans(f, x[1..], x);
    SuffixTrans(f, x, t);
    forall v | v + [c] in index && IsSuffix(v, t) ensures |v| <= |f| {
      assert v != x;
      SuffixesNest(v, x, t);
      assert |v| < |x|;
      SuffixesNest(v, x[1..], x);
    }
  }

  lemma CandidateFound(index: map<string, nat>, t: string, c: char, x: string)
    requires Closed(index) && Candidate(index, t, c, x) && x + [c] in index
    ensures Longest(index, t + [c], x + [c])
  {
    SuffixSnoc(x, t, c);
    forall s | s in index && IsSuffix(s, t + [c]) ensures |s| <= |x + [c]| {
      if s != [] {
        SuffixEndsWith(s, t, c);
      }
    }
  }

  lemma CandidateExhausted(index: map<string, nat>, t: string, c: char)
    requires Closed(index) && Candidate(index, t, c, []) && [c] !in index
    ensures Longest(index, t + [c], [])
  {
    forall s | s in index && IsSuffix(s, t + [c]) ensures |s| <= 0 {
      if s != [] {
        SuffixEndsWith(s, t, c);
      }
    }
  }

  lemma SuffixEndsWith(s: string, t: string, c: char)
    requires s != [] && IsSuffix(s, t + [c])
    ensures s == s[..|s| - 1] + [c] && IsSuffix(s[..|s| - 1], t)
  {
    assert s[|s| - 1] == (t + [c])[|t|] == c;
    SuffixSnoc(s[..|s| - 1], t, c);
  }

  // ---------------------------------------------------------------- outputs

  /** Some keyword with output `o` is a suffix of `t`. */
  ghost predicate EndsKeyword(dict: Dict, t: string, o: string) {
    exists p :: p in dict && p.1 == o && IsSuffix(p.0, t)
  }

  /** Some non-empty keyword with output `o` occurs in `text`. */
  ghost predicate HitBy(dict: Dict, text: string, o: string) {
    exists p :: p in dict && p.1 == o && p.0 != [] && Occurs(p.0, text)
  }

  /** Such a keyword ends at one of the first `n` positions of `text`. */
  ghost predicate EndsWithin(dict: Dict, text: string, n: nat, o: string)
    requires n <= |text|
  {
    exists k :: 0 < k <= n && EndsKeyword(dict, text[..k], o)
  }

  lemma EndsWithinNext(dict: Dict, text: string, n: nat)
    requires n < |text|
    ensures forall o :: EndsWithin(dict, text, n + 1, o) <==> EndsWithin(dict, text, n, o) || EndsKeyword(dict, text[..n + 1], o)
  {
    forall o ensures EndsWithin(dict, text, n + 1, o) <==> EndsWithin(dict, text, n, o) || EndsKeyword(dict, text[..n + 1], o) {
      if EndsKeyword(dict, text[..n + 1], o) {
        assert EndsWithin(dict, text, n + 1, o);
      }
    }
  }

  ghost predicate DictIn(dict: Dict, index: map<string, nat>) {
    forall p :: p in dict ==> p.0 != [] && p.0 in index
  }

  lemma LongestEndsSame(dict: Dict, index: map<string, nat>, t: string, u: string, o: string)
    requires DictIn(dict, index) && Longest(index, t, u)
    ensures EndsKeyword(dict, t, o) <==> EndsKeyword(dict, u, o)
  {
    if EndsKeyword(dict, t, o) {
      var p :| p in dict && p.1 == o && IsSuffix(p.0, t);
      SuffixesNest(p.0, u, t);
    }
    if EndsKeyword(dict, u, o) {
      var p :| p in dict && p.1 == o && IsSuffix(p.0, u);
      SuffixTrans(p.0, u, t);
    }
  }

  /** Own outputs together with those of the failure target are all outputs of a node. */
  lemma MergedOutputs(dict: Dict, index: map<string, nat>, w: string, f: string, o: string)
    requires DictIn(dict, index) && w != [] && Longest(index, w[1..], f)
    ensures EndsKeyword(dict, w, o) <==> (w, o) in dict || EndsKeyword(dict, f, o)
  {
    LongestEndsSame(dict, index, w[1..], f, o);
    assert IsSuffix(w[1..], w);
    if EndsKeyword(dict, w, o) {
      var p :| p in dict && p.1 == o && IsSuffix(p.0, w);
      if p.0 != w {
        SuffixesNest(p.0, w[1..], w);
        assert EndsKeyword(dict, w[1..], o);
      }
    }
    if EndsKeyword(dict, w[1..], o) {
      var p :| p in dict && p.1 == o && IsSuffix(p.0, w[1..]);
      SuffixTrans(p.0, w[1..], w);
    }
  }

  lemma HitAtSomePrefix(dict: Dict, text: string, o: string)
    requires forall p :: p in dict ==> p.0 != []
    ensures HitBy(dict, text, o) <==> EndsWithin(dict, text, |text|, o)
  {
    if HitBy(dict, text, o) {
      var p :| p in dict && p.1 == o && p.0 != [] && Occurs(p.0, text);
      var n := OccursAsSuffix(p.0, text);
      assert EndsKeyword(dict, text[..n], o);
    }
    if k :| 0 < k <= |text| && EndsKeyword(dict, text[..k], o) {
      var p :| p in dict && p.1 == o && IsSuffix(p.0, text[..k]);
      SuffixOfPrefixOccurs(p.0, text, k);
    }
  }

  lemma HitAtSomePrefixAll(dict: Dict, text: string)
    requires forall p :: p in dict ==> p.0 != []
    ensures forall o :: HitBy(dict, text, o) <==> EndsWithin(dict, text, |text|, o)
  {
    forall o ensures HitBy(dict, text, o) <==> EndsWithin(dict, text, |text|, o) {
      HitAtSomePrefix(dict, text, o);
    }
  }

  // ---------------------------------------------------------------- the vector of nodes

  /** `words` names the nodes by their paths and `children` are exactly the one-character extensions. */
  ghost predicate IsTrie(nodes: seq<Node>, words: seq<string>, index: map<string, nat>) {
    && |nodes| == |words| > 0
    && words[0] == []
    && Closed(index)
    && (forall w :: w in index ==> index[w] < |words| && words[index[w]] == w)
    && (forall i :: 0 <= i < |words| ==> words[i] in index && index[words[i]] == i)
    && (forall i :: 0 <= i < |nodes| ==> Edges(nodes, words, index, i))
  }

  ghost predicate Edges(nodes: seq<Node>, words: seq<string>, index: map<string, nat>, i: nat)
    requires i < |nodes| == |words|
  {
    && (forall c :: c in nodes[i].children <==> words[i] + [c] in index)
    && (forall c :: c in nodes[i].children ==> nodes[i].children[c] == index[words[i] + [c]])
  }

  ghost predicate OwnOutputs(nodes: seq<Node>, words: seq<string>, dict: Dict, i: nat)
    requires i < |nodes| == |words|
  {
    forall o :: o in nodes[i].outputs <==> (words[i], o) in dict
  }

  ghost predicate FailOk(nodes: seq<Node>, words: seq<string>, index: map<string, nat>, i: nat)
    requires i < |nodes| == |words|
  {
    words[i] != [] && nodes[i].fail < |nodes| && Longest(index, words[i][1..], words[nodes[i].fail])
  }

  /** Failure link and merged outputs of node `i` are final. */
  ghost predicate Linked(nodes: seq<Node>, words: seq<string>, index: map<string, nat>, dict: Dict, i: nat)
    requires i < |nodes| == |words|
  {
    && FailOk(nodes, words, index, i)
    && forall o :: o in nodes[i].outputs <==> EndsKeyword(dict, words[i], o)
  }

  lemma SnocInjective(v: string, c: char, w: string, d: char)
    ensures v + [c] == w + [d] <==> v == w && c == d
  {
    if v + [c] == w + [d] {
      assert v == (v + [c])[..|v|] == (w + [d])[..|w|] == w;
      assert c == (v + [c])[|v|] == (w + [d])[|w|] == d;
    }
  }

  function Grown(nodes: seq<Node>, at: nat, ch: char): seq<Node>
    requires at < |nodes|
  {
    nodes[at := nodes[at].(children := nodes[at].children[ch := |nodes|])] + [Node(map[], 0, [])]
  }

  lemma TrieGrowsEdge(nodes: seq<Node>, words: seq<string>, index: map<string, nat>, at: nat, ch: char, i: nat, c: char)
    requires IsTrie(nodes, words, index) && at < |nodes| && ch !in nodes[at].children && i <= |nodes|
    ensures var w := words[at] + [ch];
            var nodes', words', index' := Grown(nodes, at, ch), words + [w], index[w := |nodes|];
            (c in nodes'[i].children <==> words'[i] + [c] in index') &&
            (c in nodes'[i].children ==> nodes'[i].children[c] == index'[words'[i] + [c]])
  {
    var w := words[at] + [ch];
    assert Edges(nodes, words, index, at);
    if i == |nodes| {
      SnocInjective(w, c, words[at], ch);
      assert w !in index;
    } else {
      SnocInjective(words[i], c, words[at], ch);
      assert Edges(nodes, words, index, i);
      assert words[i] == words[at] ==> i == at;
    }
  }

  /** Appending a fresh leaf below `at` by `ch` keeps the trie a trie. */
  lemma TrieGrows(nodes: seq<Node>, words: seq<string>, index: map<string, nat>, dict: Dict, at: nat, ch: char)
    requires IsTrie(nodes, words, index) && at < |nodes| && ch !in nodes[at].children && DictIn(dict, index)
    requires forall i :: 0 <= i < |nodes| ==> OwnOutputs(nodes, words, dict, i)
    ensures var w := words[at] + [ch];
            var nodes', words' := Grown(nodes, at, ch), words + [w];
            w !in index && IsTrie(nodes', words', index[w := |nodes|]) &&
            forall i :: 0 <= i < |nodes'| ==> OwnOutputs(nodes', words', dict, i)
  {
    var w := words[at] + [ch];
    var nodes', words', index' := Grown(nodes, at, ch), words + [w], index[w := |nodes|];
    assert w !in index by {
      assert Edges(nodes, words, index, at);
    }
    forall i: nat | i < |nodes'| ensures Edges(nodes', words', index', i) && OwnOutputs(nodes', words', dict, i) {
      forall c
        ensures c in nodes'[i].children <==> words'[i] + [c] in index'
        ensures c in nodes'[i].children ==> nodes'[i].children[c] == index'[words'[i] + [c]]
      {
        TrieGrowsEdge(nodes, words, index, at, ch, i, c);
      }
      if i < |nodes| {
        assert OwnOutputs(nodes, words, dict, i);
      } else {
        assert forall o :: (w, o) !in dict by {
          assert forall p :: p in dict ==> p.0 in index;
        }
      }
    }
    assert Closed(index') by {
      forall v, c | v + [c] in index' ensures v in index' {
        SnocInjective(v, c, words[at], ch);
      }
    }
  }

  // ---------------------------------------------------------------- breadth-first search

  /** The children already queued are those of `processed` nodes and those of `cur` not in `todo`. */
  ghost predicate Progress(nodes: seq<Node>, words: seq<string>, index: map<string, nat>, dict: Dict,
                           seen: set<nat>, processed: set<nat>, cur: nat, todo: set<char>)
    requires |nodes| == |words|
  {
    && 0 in seen && cur in seen && processed <= seen
    && (forall x :: x in seen ==> x < |nodes|)
    && (forall x :: x in seen ==> if x == 0 then nodes[x].outputs == [] else Linked(nodes, words, index, dict, x))
    && (forall x :: 0 <= x < |nodes| && x !in seen ==> OwnOutputs(nodes, words, dict, x))
    && (forall x :: 0 <= x < |nodes| ==> ChildrenSeen(nodes, seen, processed, cur, todo, x))
  }

  ghost function Front(words: seq<string>, q: seq<nat>): nat {
    if q == [] || q[0] >= |words| then 0 else |words[q[0]]|
  }

  ghost predicate ChildrenSeen(nodes: seq<Node>, seen: set<nat>, processed: set<nat>, cur: nat, todo: set<char>, x: nat)
    requires x < |nodes|
  {
    forall c :: c in nodes[x].children ==>
      (nodes[x].children[c] in seen <==> x in processed || (x == cur && c !in todo))
  }

  /** The queue holds the seen, unprocessed nodes in order of depth, all of depth `d` or `d + 1`. */
  ghost predicate Queued(words: seq<string>, q: seq<nat>, seen: set<nat>, processed: set<nat>, d: nat) {
    && (forall x :: x in seen <==> x in processed || x in q)
    && (forall a :: 0 <= a < |q| ==> q[a] !in processed && q[a] < |words| && d <= |words[q[a]]| <= d + 1)
    && (forall a, b :: 0 <= a < b < |q| ==> q[a] != q[b] && |words[q[a]]| <= |words[q[b]]|)
  }

  lemma ChildWord(nodes: seq<Node>, words: seq<string>, index: map<string, nat>, x: nat, c: char)
    requires IsTrie(nodes, words, index) && x < |nodes| && c in nodes[x].children
    ensures 0 < nodes[x].children[c] < |nodes| && words[nodes[x].children[c]] == words[x] + [c]
    ensures forall y :: 0 <= y < |nodes| && words[y] == words[x] ==> y == x
  {
    assert Edges(nodes, words, index, x);
    assert words[x] + [c] in index;
    assert forall y :: 0 <= y < |nodes| && words[y] == words[x] ==> y == index[words[y]] == index[words[x]] == x;
  }

  lemma QueuedPush(words: seq<string>, q: seq<nat>, seen: set<nat>, processed: set<nat>, d: nat, child: nat)
    requires Queued(words, q, seen, processed, d) && child !in seen && child < |words| && |words[child]| == d + 1
    ensures Queued(words, q + [child], seen + {child}, processed, d)
  {
  }

  lemma QueuedFront(words: seq<string>, q: seq<nat>, seen: set<nat>, processed: set<nat>, d: nat)
    requires Queued(words, q, seen, processed, d)
    ensures Queued(words, q, seen, processed, Front(words, q))
  {
  }

  /** Linking one more child of `cur` and marking it seen. */
  lemma ProgressStep(nodes: seq<Node>, words: seq<string>, index: map<string, nat>, dict: Dict,
                     seen: set<nat>, processed: set<nat>, cur: nat, todo: set<char>, ch: char, fail: nat, outputs: seq<string>)
    requires IsTrie(nodes, words, index) && DictIn(dict, index)
    requires Progress(nodes, words, index, dict, seen, processed, cur, todo)
    requires cur !in processed && ch in todo && ch in nodes[cur].children && fail < |nodes|
    requires var child := nodes[cur].children[ch];
             child < |nodes| && words[child] != [] && Longest(index, words[child][1..], words[fail]) &&
             forall o :: o in outputs <==> EndsKeyword(dict, words[child], o)
    ensures var child := nodes[cur].children[ch];
            var nodes' := nodes[child := nodes[child].(fail := fail, outputs := outputs)];
            child !in seen && IsTrie(nodes', words, index) &&
            Progress(nodes', words, index, dict, seen + {child}, processed, cur, todo - {ch})
  {
    var child := nodes[cur].children[ch];
    var nodes' := nodes[child := nodes[child].(fail := fail, outputs := outputs)];
    assert ChildrenSeen(nodes, seen, processed, cur, todo, cur);
    ChildWord(nodes, words, index, cur, ch);
    forall i: nat | i < |nodes'| ensures Edges(nodes', words, index, i) {
      assert Edges(nodes, words, index, i);
    }
    forall x | x in seen + {child}
      ensures if x == 0 then nodes'[x].outputs == [] else Linked(nodes', words, index, dict, x)
    {
      if x != 0 && x != child {
        assert Linked(nodes, words, index, dict, x);
      }
    }
    forall x | 0 <= x < |nodes'| && x !in seen + {child} ensures OwnOutputs(nodes', words, dict, x) {
      assert OwnOutputs(nodes, words, dict, x);
    }
    forall x | 0 <= x < |nodes'| ensures ChildrenSeen(nodes', seen + {child}, processed, cur, todo - {ch}, x) {
      assert ChildrenSeen(nodes, seen, processed, cur, todo, x);
      forall c | c in nodes[x].children && nodes[x].children[c] == child ensures x == cur && c == ch {
        ChildWord(nodes, words, index, x, c);
        SnocInjective(words[x], c, words[cur], ch);
      }
    }
  }

  /** Every node no deeper than the front of the queue has been linked. */
  lemma {:induction false} ShallowSeen(nodes: seq<Node>, words: seq<string>, index: map<string, nat>, dict: Dict,
                                       seen: set<nat>, processed: set<nat>, cur: nat, todo: set<char>, d: nat, j: nat)
    requires IsTrie(nodes, words, index) && Progress(nodes, words, index, dict, seen, processed, cur, todo)
    requires forall x :: x in seen ==> x in processed || d <= |words[x]|
    requires j < |nodes| && |words[j]| <= d
    ensures j in seen
    decreases |words[j]|
  {
    if words[j] == [] {
      assert j == index[words[j]] == index[words[0]] == 0;
    } else {
      var w := words[j];
      assert w == w[..|w| - 1] + [w[|w| - 1]];
      var i := index[w[..|w| - 1]];
      ShallowSeen(nodes, words, index, dict, seen, processed, cur, todo, d, i);
      assert Edges(nodes, words, index, i);
      assert ChildrenSeen(nodes, seen, processed, cur, todo, i);
      assert w[|w| - 1] in nodes[i].children && nodes[i].children[w[|w| - 1]] == j;
    }
  }

  lemma OutputAdded(nodes: seq<Node>, words: seq<string>, index: map<string, nat>, dict: Dict, at: nat, output: string)
    requires IsTrie(nodes, words, index) && at < |nodes|
    requires forall i :: 0 <= i < |nodes| ==> OwnOutputs(nodes, words, dict, i)
    ensures var nodes' := nodes[at := nodes[at].(outputs := nodes[at].outputs + [output])];
            IsTrie(nodes', words, index) &&
            forall i :: 0 <= i < |nodes'| ==> OwnOutputs(nodes', words, dict + {(words[at], output)}, i)
  {
    var nodes' := nodes[at := nodes[at].(outputs := nodes[at].outputs + [output])];
    forall i | 0 <= i < |nodes'| 
      ensures OwnOutputs(nodes', words, dict + {(words[at], output)}, i) && Edges(nodes', words, index, i)
    {
      assert Edges(nodes, words, index, i);
      assert OwnOutputs(nodes, words, dict, i);
      assert words[i] == words[at] ==> i == index[words[i]] == at;
    }
  }

  ghost function Below(n: nat): (s: set<nat>)
    ensures forall i :: i in s <==> 0 <= i < n
  {
    if n == 0 then {} else Below(n - 1) + {n - 1}
  }

  lemma DepthOneLink(nodes: seq<Node>, words: seq<string>, index: map<string, nat>, dict: Dict, child: nat)
    requires IsTrie(nodes, words, index) && DictIn(dict, index)
    requires child < |nodes| && |words[child]| == 1 && OwnOutputs(nodes, words, dict, child)
    ensures Longest(index, words[child][1..], words[0])
    ensures forall o :: o in nodes[child].outputs <==> EndsKeyword(dict, words[child], o)
  {
    forall o ensures o in nodes[child].outputs <==> EndsKeyword(dict, words[child], o) {
      MergedOutputs(dict, index, words[child], [], o);
    }
  }

  lemma HasMember(s: seq<string>)
    requires s != []
    ensures exists o :: o in s
  {
    assert s[0] in s;
  }

  lemma StartProgress(nodes: seq<Node>, words: seq<string>, index: map<string, nat>, dict: Dict)
    requires IsTrie(nodes, words, index) && DictIn(dict, index)
    requires forall i :: 0 <= i < |nodes| ==> OwnOutputs(nodes, words, dict, i)
    ensures Progress(nodes, words, index, dict, {0}, {}, 0, nodes[0].children.Keys)
  {
    assert nodes[0].outputs == [] by {
      assert OwnOutputs(nodes, words, dict, 0);
      if nodes[0].outputs != [] {
        HasMember(nodes[0].outputs);
      }
    }
    forall x | 0 <= x < |nodes| ensures ChildrenSeen(nodes, {0}, {}, 0, nodes[0].children.Keys, x) {
      forall c | c in nodes[x].children ensures nodes[x].children[c] != 0 {
        ChildWord(nodes, words, index, x, c);
      }
    }
  }

  /** Between two nodes it does not matter which node is current. */
  lemma StartNode(nodes: seq<Node>, words: seq<string>, index: map<string, nat>, dict: Dict,
                  seen: set<nat>, processed: set<nat>, cur: nat)
    requires IsTrie(nodes, words, index) && 0 in processed && cur !in processed && cur in seen && cur < |nodes|
    requires Progress(nodes, words, index, dict, seen, processed, 0, {})
    ensures Progress(nodes, words, index, dict, seen, processed, cur, nodes[cur].children.Keys)
  {
    forall x | 0 <= x < |nodes| ensures ChildrenSeen(nodes, seen, processed, cur, nodes[cur].children.Keys, x) {
      assert ChildrenSeen(nodes, seen, processed, 0, {}, x);
    }
  }

  lemma NextNode(nodes: seq<Node>, words: seq<string>, index: map<string, nat>, dict: Dict,
                 seen: set<nat>, processed: set<nat>, cur: nat)
    requires IsTrie(nodes, words, index) && cur < |nodes| && (cur == 0 || 0 in processed)
    requires Progress(nodes, words, index, dict, seen, processed, cur, {})
    ensures Progress(nodes, words, index, dict, seen, processed + {cur}, 0, {})
  {
    forall x | 0 <= x < |nodes| ensures ChildrenSeen(nodes, seen, processed + {cur}, 0, {}, x) {
      assert ChildrenSeen(nodes, seen, processed, cur, {}, x);
    }
  }

  lemma ShallowLinked(nodes: seq<Node>, words: seq<string>, index: map<string, nat>, dict: Dict,
                      seen: set<nat>, processed: set<nat>, cur: nat, todo: set<char>, d: nat)
    requires IsTrie(nodes, words, index) && Progress(nodes, words, index, dict, seen, processed, cur, todo)
    requires forall x :: x in seen ==> x in processed || d <= |words[x]|
    ensures forall x {:trigger Linked(nodes, words, index, dict, x)} :: 0 < x < |nodes| && |words[x]| <= d ==> Linked(nodes, words, index, dict, x)
  {
    forall x | 0 < x < |nodes| && |words[x]| <= d ensures Linked(nodes, words, index, dict, x) {
      ShallowSeen(nodes, words, index, dict, seen, processed, cur, todo, d, x);
    }
  }

  lemma StateOutputs(nodes: seq<Node>, words: seq<string>, index: map<string, nat>, dict: Dict, x: nat, t: string)
    requires IsTrie(nodes, words, index) && DictIn(dict, index) && x < |nodes| && Longest(index, t, words[x])
    requires if x == 0 then nodes[0].outputs == [] else Linked(nodes, words, index, dict, x)
    ensures forall o :: o in nodes[x].outputs <==> EndsKeyword(dict, t, o)
  {
    forall o ensures o in nodes[x].outputs <==> EndsKeyword(dict, t, o) {
      LongestEndsSame(dict, index, t, words[x], o);
    }
  }

  lemma ShallowFails(nodes: seq<Node>, words: seq<string>, index: map<string, nat>, dict: Dict,
                     seen: set<nat>, processed: set<nat>, cur: nat, todo: set<char>)
    requires IsTrie(nodes, words, index) && Progress(nodes, words, index, dict, seen, processed, cur, todo)
    requires cur != 0
    requires forall x :: x in seen ==> x in processed || |words[cur]| <= |words[x]|
    ensures FailOk(nodes, words, index, cur)
    ensures forall x {:trigger FailOk(nodes, words, index, x)} :: 0 < x < |nodes| && |words[x]| <= |words[cur]| ==> FailOk(nodes, words, index, x)
  {
    ShallowLinked(nodes, words, index, dict, seen, processed, cur, todo, |words[cur]|);
    forall x | 0 < x < |nodes| && |words[x]| <= |words[cur]| ensures FailOk(nodes, words, index, x) {
      assert Linked(nodes, words, index, dict, x);
    }
  }

  lemma RootStep(nodes: seq<Node>, words: seq<string>, index: map<string, nat>, dict: Dict,
                 seen: set<nat>, todo: set<char>, ch: char)
    requires IsTrie(nodes, words, index) && DictIn(dict, index) && Progress(nodes, words, index, dict, seen, {}, 0, todo)
    requires ch in todo && ch in nodes[0].children
    ensures var child := nodes[0].children[ch];
            0 < child < |nodes| && child !in seen && |words[child]| == 1 &&
            var nodes' := nodes[child := nodes[child].(fail := 0)];
            nodes'[0] == nodes[0] && IsTrie(nodes', words, index) && Progress(nodes', words, index, dict, seen + {child}, {}, 0, todo - {ch})
  {
    var child := nodes[0].children[ch];
    ChildWord(nodes, words, index, 0, ch);
    assert ChildrenSeen(nodes, seen, {}, 0, todo, 0);
    DepthOneLink(nodes, words, index, dict, child);
    ProgressStep(nodes, words, index, dict, seen, {}, 0, todo, ch, 0, nodes[child].outputs);
  }

  lemma ChildStep(nodes: seq<Node>, words: seq<string>, index: map<string, nat>, dict: Dict,
                  seen: set<nat>, processed: set<nat>, cur: nat, todo: set<char>, ch: char, f: nat, outputs: seq<string>)
    requires IsTrie(nodes, words, index) && DictIn(dict, index) && Progress(nodes, words, index, dict, seen, processed, cur, todo)
    requires cur !in processed && ch in todo && ch in nodes[cur].children && words[cur] != []
    requires forall x :: x in seen ==> x in processed || |words[cur]| <= |words[x]|
    requires f < |nodes| && |words[f]| <= |words[cur]| && Longest(index, words[cur][1..] + [ch], words[f])
    requires nodes[cur].children[ch] < |nodes|
    requires forall o :: o in outputs <==> o in nodes[nodes[cur].children[ch]].outputs || o in nodes[f].outputs
    ensures var child := nodes[cur].children[ch];
            var nodes' := nodes[child := nodes[child].(fail := f, outputs := outputs)];
            child !in seen && IsTrie(nodes', words, index) &&
            Progress(nodes', words, index, dict, seen + {child}, processed, cur, todo - {ch})
  {
    var child := nodes[cur].children[ch];
    ChildWord(nodes, words, index, cur, ch);
    assert ChildrenSeen(nodes, seen, processed, cur, todo, cur);
    assert words[child][1..] == words[cur][1..] + [ch];
    ShallowLinked(nodes, words, index, dict, seen, processed, cur, todo, |words[cur]|);
    ChildOutputs(nodes, words, index, dict, child, f, outputs);
    ProgressStep(nodes, words, index, dict, seen, processed, cur, todo, ch, f, outputs);
  }

  lemma ChildOutputs(nodes: seq<Node>, words: seq<string>, index: map<string, nat>, dict: Dict,
                     child: nat, f: nat, outputs: seq<string>)
    requires IsTrie(nodes, words, index) && DictIn(dict, index) && child < |nodes| && f < |nodes|
    requires words[child] != [] && OwnOutputs(nodes, words, dict, child)
    requires Longest(index, words[child][1..], words[f])
    requires if f == 0 then nodes[f].outputs == [] else Linked(nodes, words, index, dict, f)
    requires forall o :: o in outputs <==> o in nodes[child].outputs || o in nodes[f].outputs
    ensures forall o :: o in outputs <==> EndsKeyword(dict, words[child], o)
  {
    forall o ensures o in outputs <==> EndsKeyword(dict, words[child], o) {
      MergedOutputs(dict, index, words[child], words[f], o);
      assert f == 0 ==> !EndsKeyword(dict, words[f], o);
    }
  }

  /** The two output lists as one list without repetitions, in some order. */
  method Union(a: seq<string>, b: seq<string>) returns (r: seq<string>)
    ensures forall o :: o in r <==> o in a || o in b
    ensures forall i, j :: 0 <= i < j < |r| ==> r[i] != r[j]
  {
    r := Listed((set o | o in a) + (set o | o in b));
  }

  /** The members of a set in some order, each once. */
  method Listed(s: set<string>) returns (r: seq<string>)
    ensures forall o :: o in r <==> o in s
    ensures forall i, j :: 0 <= i < j < |r| ==> r[i] != r[j]
  {
    r := [];
    var rest := s;
    while rest != {}
      invariant forall o :: o in r <==> o in s && o !in rest
      invariant forall i, j :: 0 <= i < j < |r| ==> r[i] != r[j]
    {
      var o :| o in rest;
      r, rest := r + [o], rest - {o};
    }
  }

  class AhoCorasick {
    /** The JavaScript form, where the failure link of the root is null; in the C++ form it is the root. */
    const nullRoot: bool
    var nodes: seq<Node>
    var compiled: bool
    ghost var words: seq<string>
    ghost var index: map<string, nat>
    ghost var dict: Dict

    ghost predicate Valid()
      reads this
    {
      && IsTrie(nodes, words, index)
      && DictIn(dict, index)
      && if compiled then
           nodes[0].outputs == [] &&
           forall i :: 0 < i < |nodes| ==> Linked(nodes, words, index, dict, i)
         else
           forall i :: 0 <= i < |nodes| ==> OwnOutputs(nodes, words, dict, i)
    }

    constructor (nullRoot: bool)
      ensures Valid() && !compiled && dict == {} && this.nullRoot == nullRoot
    {
      this.nullRoot := nullRoot;
      nodes := [Node(map[], 0, [])];
      compiled := false;
      words := [[]];
      index := map[[] := 0];
      dict := {};
    }

    method Add(keyword: string, output: string)
      requires Valid()
      modifies this
      ensures Valid() && compiled == old(compiled)
      ensures dict == if compiled || keyword == [] then old(dict) else old(dict) + {(keyword, output)}
    {
      if compiled {
        return;
      }
      if keyword == [] {
        return;
      }
      var nodeIdx: nat := 0;
      var i := 0;
      while i < |keyword|
        invariant 0 <= i <= |keyword|
        invariant Valid() && !compiled && dict == old(dict) && |words| == |nodes|
        invariant nodeIdx < |nodes| && words[nodeIdx] == keyword[..i]
      {
        var ch := keyword[i];
        assert keyword[..i + 1] == keyword[..i] + [ch];
        if ch !in nodes[nodeIdx].children {
          var nextIdx := |nodes|;
          TrieGrows(nodes, words, index, dict, nodeIdx, ch);
          nodes := nodes[nodeIdx := nodes[nodeIdx].(children := nodes[nodeIdx].children[ch := nextIdx])];
          nodes := nodes + [Node(map[], 0, [])];
          index := index[words[nodeIdx] + [ch] := nextIdx];
          words := words + [words[nodeIdx] + [ch]];
          nodeIdx := nextIdx;
        } else {
          ChildWord(nodes, words, index, nodeIdx, ch);
          nodeIdx := nodes[nodeIdx].children[ch];
        }
        i := i + 1;
      }
      assert keyword[..i] == keyword;
      OutputAdded(nodes, words, index, dict, nodeIdx, output);
      nodes := nodes[nodeIdx := nodes[nodeIdx].(outputs := nodes[nodeIdx].outputs + [output])];
      dict := dict + {(keyword, output)};
    }

    /** Follows failure links from `start` until `ch` can be read; `t` is any text whose longest suffix is `start`. */
    method Follow(start: nat, ch: char, ghost t: string) returns (next: nat, ghost hops: nat)
      requires IsTrie(nodes, words, index) && start < |nodes| && Longest(index, t, words[start])
      requires forall x {:trigger FailOk(nodes, words, index, x)} :: 0 < x < |nodes| && |words[x]| <= |words[start]| ==> FailOk(nodes, words, index, x)
      ensures next < |nodes| && Longest(index, t + [ch], words[next])
      ensures hops + |words[next]| <= |words[start]| + 1
    {
      next, hops := start, 0;
      CandidateStart(index, t, ch, words[start]);
      while next > 0 && ch !in nodes[next].children
        invariant next < |nodes| && Candidate(index, t, ch, words[next])
        invariant hops + |words[next]| <= |words[start]|
        decreases |words[next]|
      {
        assert FailOk(nodes, words, index, next) && Edges(nodes, words, index, next);
        CandidateHop(index, t, ch, words[next], words[nodes[next].fail]);
        next, hops := nodes[next].fail, hops + 1;
      }
      assert Edges(nodes, words, index, next);
      if ch in nodes[next].children {
        ChildWord(nodes, words, index, next, ch);
        CandidateFound(index, t, ch, words[next]);
        next := nodes[next].children[ch];
      } else {
        assert words[0] + [ch] == [ch];
        CandidateExhausted(index, t, ch);
        next := 0;
      }
    }

    /**
     * The same walk where the failure link of the root is null: the loop leaves the root by one hop
     * more. References are the node numbers.
     */
    method FollowToNull(start: nat, ch: char, ghost t: string) returns (next: nat, ghost hops: nat)
      requires IsTrie(nodes, words, index) && start < |nodes| && Longest(index, t, words[start])
      requires forall x {:trigger FailOk(nodes, words, index, x)} :: 0 < x < |nodes| && |words[x]| <= |words[start]| ==> FailOk(nodes, words, index, x)
      ensures next < |nodes| && Longest(index, t + [ch], words[next])
      ensures hops + |words[next]| <= |words[start]| + 2
    {
      var node: Option<nat> := Some(start);
      hops := 0;
      CandidateStart(index, t, ch, words[start]);
      while node.Some? && ch !in nodes[node.value].children
        invariant node.Some? ==> node.value < |nodes| && Candidate(index, t, ch, words[node.value])
        invariant node.Some? ==> hops + |words[node.value]| <= |words[start]|
        invariant node.None? ==> hops <= |words[start]| + 1 && Candidate(index, t, ch, []) && [ch] !in index
        decreases if node.Some? then 1 + |words[node.value]| else 0
      {
        assert Edges(nodes, words, index, node.value);
        if node.value == 0 {
          assert words[0] + [ch] == [ch];
          node := None;
        } else {
          assert FailOk(nodes, words, index, node.value);
          CandidateHop(index, t, ch, words[node.value], words[nodes[node.value].fail]);
          node := Some(nodes[node.value].fail);
        }
        hops := hops + 1;
      }
      if node.Some? {
        assert Edges(nodes, words, index, node.value);
        ChildWord(nodes, words, index, node.value, ch);
        CandidateFound(index, t, ch, words[node.value]);
        next := nodes[node.value].children[ch];
      } else {
        CandidateExhausted(index, t, ch);
        next := 0;
      }
    }

    method Build()
      requires Valid()
      modifies this
      ensures Valid() && compiled && dict == old(dict)
    {
      if compiled {
        return;
      }
      compiled := true;
      var q, seen := LinkRootChildren();
      ghost var all, processed: set<nat> := Below(|nodes|), {0};

      while q != []
        invariant dict == old(dict) && compiled && IsTrie(nodes, words, index) && DictIn(dict, index)
        invariant all == Below(|nodes|) && 0 in processed
        invariant Progress(nodes, words, index, dict, seen, processed, 0, {})
        invariant Queued(words, q, seen, processed, Front(words, q))
        decreases all - processed
      {
        var currentIdx := q[0];
        q, seen := LinkChildren(currentIdx, q[1..], seen, processed);
        processed := processed + {currentIdx};
      }
      forall j | 0 < j < |nodes| ensures Linked(nodes, words, index, dict, j) {
        ShallowSeen(nodes, words, index, dict, seen, processed, 0, {}, |words[j]|, j);
      }
    }

    /** First loop of `build`: children of the root fail to the root and enter the queue. */
    method LinkRootChildren() returns (q: seq<nat>, ghost seen: set<nat>)
      requires IsTrie(nodes, words, index) && DictIn(dict, index)
      requires forall i :: 0 <= i < |nodes| ==> OwnOutputs(nodes, words, dict, i)
      modifies this`nodes
      ensures IsTrie(nodes, words, index)
      ensures Progress(nodes, words, index, dict, seen, {0}, 0, {}) && Queued(words, q, seen, {0}, Front(words, q))
    {
      hide Linked, OwnOutputs, DictIn, Closed, Edges;
      q, seen := [], {0};
      var todo := nodes[0].children.Keys;
      StartProgress(nodes, words, index, dict);
      while todo != {}
        invariant IsTrie(nodes, words, index) && todo <= nodes[0].children.Keys
        invariant Progress(nodes, words, index, dict, seen, {}, 0, todo)
        invariant Queued(words, q, seen, {0}, 0)
      {
        var ch :| ch in todo;
        var childIdx := nodes[0].children[ch];
        RootStep(nodes, words, index, dict, seen, todo, ch);
        QueuedPush(words, q, seen, {0}, 0, childIdx);
        todo := todo - {ch};
        nodes := nodes[childIdx := nodes[childIdx].(fail := 0)];
        q := q + [childIdx];
        seen := seen + {childIdx};
      }
      NextNode(nodes, words, index, dict, seen, {}, 0);
      QueuedFront(words, q, seen, {0}, 0);
      ghost var none: set<nat> := {};
      assert none + {0} == {0};
    }

    /** Body of the second loop: every child of `currentIdx` is queued, linked and given its merged outputs. */
    method LinkChildren(currentIdx: nat, q0: seq<nat>, ghost seen0: set<nat>, ghost processed: set<nat>)
      returns (q: seq<nat>, ghost seen: set<nat>)
      requires IsTrie(nodes, words, index) && DictIn(dict, index)
      requires 0 in processed && currentIdx !in processed && currentIdx < |nodes| && currentIdx in seen0
      requires Progress(nodes, words, index, dict, seen0, processed, 0, {})
      requires Queued(words, q0, seen0, processed + {currentIdx}, |words[currentIdx]|)
      modifies this`nodes
      ensures IsTrie(nodes, words, index) && |nodes| == old(|nodes|)
      ensures Progress(nodes, words, index, dict, seen, processed + {currentIdx}, 0, {})
      ensures Queued(words, q, seen, processed + {currentIdx}, Front(words, q))
    {
      q, seen := q0, seen0;
      var todo := nodes[currentIdx].children.Keys;
      ghost var d := |words[currentIdx]|;
      StartNode(nodes, words, index, dict, seen, processed, currentIdx);
      while todo != {}
        invariant |nodes| == old(|nodes|) && IsTrie(nodes, words, index) && todo <= nodes[currentIdx].children.Keys
        invariant Progress(nodes, words, index, dict, seen, processed, currentIdx, todo)
        invariant Queued(words, q, seen, processed + {currentIdx}, d)
      {
        var ch :| ch in todo;
        var childIdx := nodes[currentIdx].children[ch];
        var failLinkIdx, outputs := LinkChild(currentIdx, ch, seen, processed, todo);
        nodes := nodes[childIdx := nodes[childIdx].(fail := failLinkIdx, outputs := outputs)];
        QueuedPush(words, q, seen, processed + {currentIdx}, d, childIdx);
        q := q + [childIdx];
        seen := seen + {childIdx};
        todo := todo - {ch};
      }
      NextNode(nodes, words, index, dict, seen, processed, currentIdx);
      QueuedFront(words, q, seen, processed + {currentIdx}, d);
    }

    method LinkChild(currentIdx: nat, ch: char, ghost seen: set<nat>, ghost processed: set<nat>, ghost todo: set<char>)
      returns (f: nat, outputs: seq<string>)
      requires IsTrie(nodes, words, index) && DictIn(dict, index) && Progress(nodes, words, index, dict, seen, processed, currentIdx, todo)
      requires 0 in processed && currentIdx !in processed && currentIdx < |nodes|
      requires ch in todo && ch in nodes[currentIdx].children
      requires forall x :: x in seen ==> x in processed || |words[currentIdx]| <= |words[x]|
      ensures var child := nodes[currentIdx].children[ch];
              0 < child < |nodes| && child !in seen && words[child] == words[currentIdx] + [ch] &&
              var nodes' := nodes[child := nodes[child].(fail := f, outputs := outputs)];
              nodes'[currentIdx] == nodes[currentIdx] && IsTrie(nodes', words, index) &&
              Progress(nodes', words, index, dict, seen + {child}, processed, currentIdx, todo - {ch})
    {
      ChildWord(nodes, words, index, currentIdx, ch);
      ShallowFails(nodes, words, index, dict, seen, processed, currentIdx, todo);
      f, outputs := FailAndOutputs(currentIdx, ch);
      ChildStep(nodes, words, index, dict, seen, processed, currentIdx, todo, ch, f, outputs);
    }

    method FailAndOutputs(currentIdx: nat, ch: char) returns (f: nat, outputs: seq<string>)
      requires IsTrie(nodes, words, index) && currentIdx < |nodes| && FailOk(nodes, words, index, currentIdx)
      requires forall x {:trigger FailOk(nodes, words, index, x)} :: 0 < x < |nodes| && |words[x]| <= |words[currentIdx]| ==> FailOk(nodes, words, index, x)
      requires ch in nodes[currentIdx].children && nodes[currentIdx].children[ch] < |nodes|
      ensures f < |nodes| && |words[f]| <= |words[currentIdx]|
      ensures Longest(index, words[currentIdx][1..] + [ch], words[f])
      ensures forall o :: o in outputs <==> o in nodes[nodes[currentIdx].children[ch]].outputs || o in nodes[f].outputs
    {
      ghost var hops;
      if nullRoot {
        f, hops := FollowToNull(nodes[currentIdx].fail, ch, words[currentIdx][1..]);
      } else {
        f, hops := Follow(nodes[currentIdx].fail, ch, words[currentIdx][1..]);
      }
      outputs := nodes[nodes[currentIdx].children[ch]].outputs;
      if nodes[f].outputs != [] {
        outputs := Union(outputs, nodes[f].outputs);
      }
    }

    method Search(text: string) returns (found: seq<string>, ghost hops: nat)
      requires Valid() && !nullRoot
      ensures forall o :: o in found <==> compiled && HitBy(dict, text, o)
      ensures forall i, j :: 0 <= i < j < |found| ==> found[i] != found[j]
      ensures hops <= |text|
    {
      hops := 0;
      if !compiled || text == [] {
        HitAtSomePrefixAll(dict, text);
        return [], 0;
      }
      forall x | 0 < x < |nodes| ensures FailOk(nodes, words, index, x) {
        assert Linked(nodes, words, index, dict, x);
      }
      var results: set<string> := {};
      var nodeIdx: nat := 0;
      var i := 0;
      while i < |text|
        invariant 0 <= i <= |text| && nodeIdx < |nodes|
        invariant Longest(index, text[..i], words[nodeIdx])
        invariant hops + |words[nodeIdx]| <= i
        invariant forall o :: o in results <==> EndsWithin(dict, text, i, o)
      {
        var ch := text[i];
        assert text[..i + 1] == text[..i] + [ch];
        ghost var h;
        nodeIdx, h := Follow(nodeIdx, ch, text[..i]);
        hops := hops + h;
        StateOutputs(nodes, words, index, dict, nodeIdx, text[..i + 1]);
        results := results + set o | o in nodes[nodeIdx].outputs;
        EndsWithinNext(dict, text, i);
        i := i + 1;
      }
      HitAtSomePrefixAll(dict, text);
      found := Listed(results);
    }

    /** The loop of the JavaScript search. */
    method Scan(text: string) returns (found: seq<string>, ghost hops: nat)
      requires Valid() && compiled && nullRoot
      ensures forall o :: o in found <==> HitBy(dict, text, o)
      ensures forall i, j :: 0 <= i < j < |found| ==> found[i] != found[j]
      ensures hops <= 2 * |text|
    {
      hops := 0;
      forall x | 0 < x < |nodes| ensures FailOk(nodes, words, index, x) {
        assert Linked(nodes, words, index, dict, x);
      }
      var results: set<string> := {};
      var node: nat := 0;
      for i := 0 to |text|
        invariant node < |nodes| && Longest(index, text[..i], words[node])
        invariant hops + |words[node]| <= 2 * i
        invariant forall o :: o in results <==> EndsWithin(dict, text, i, o)
      {
        var ch := text[i];
        assert text[..i + 1] == text[..i] + [ch];
        ghost var h;
        node, h := FollowToNull(node, ch, text[..i]);
        hops := hops + h;
        StateOutputs(nodes, words, index, dict, node, text[..i + 1]);
        results := results + set o | o in nodes[node].outputs;
        EndsWithinNext(dict, text, i);
      }
      HitAtSomePrefixAll(dict, text);
      found := Listed(results);
    }

    /** The search of the JavaScript form, which builds the links on first use. */
    method SearchLazily(text: string) returns (found: seq<string>, ghost hops: nat)
      requires Valid() && nullRoot
      modifies this
      ensures Valid() && compiled && dict == old(dict)
      ensures forall o :: o in found <==> HitBy(dict, text, o)
      ensures forall i, j :: 0 <= i < j < |found| ==> found[i] != found[j]
      ensures hops <= 2 * |text|
    {
      if !compiled {
        Build();
      }
      if text == [] {
        HitAtSomePrefixAll(dict, text);
        return [], 0;
      }
      found, hops := Scan(text);
    }
  }
}
