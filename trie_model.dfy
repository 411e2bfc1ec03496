/**
 * The nested-dictionary trie of the `Trie` class in timing.py, as tables
 * indexed by node id (the root is node 0):
 *   - `kids[u]` lists the character children of node `u` in the order they
 *     were first added;
 *   - `term[u]` is its `"**"` entry (the keyword ending there);
 *   - `repl[u]` is its `"&&"` entry;
 *   - `fail[u]` is its `"##"` entry.
 *
 * The ghost tables `paths` (the string that spells the way from the root to
 * a node) and `parent` record the tree shape the dictionaries have.
 *
 * The scans are modelled twice. `TrieAll` and `TrieLongest` follow the loops
 * of `extract_keywords` as they are written; `FixedAll` and `FixedLongest`
 * are the evidently intended scans. These are proved to be the scans of the
 * prefix table (`PrefixScan`) built from the same keywords.
 */
module TrieModel {
  import opened Options
  import opened Text
  import opened PrefixScan

  /** The children of a node: each is a character and the id of the child, in insertion order. */
  type Kids = seq<(char, nat)>

  /**
   * What `__insert` receives: a word, or (only meaningful with
   * `case_sensitive=True`) a tuple of a word and its replacement.
   */
  datatype Request = Plain(word: string) | Pair(word: string, replacement: string)

  /** `c in node` followed by `node[c]`: the child for `c`, if any. */
  function Child(ks: Kids, c: char): (r: Option<nat>)
    ensures r.Some? ==> (c, r.value) in ks
    ensures r.None? <==> forall k :: 0 <= k < |ks| ==> ks[k].0 != c
  {
    if ks == [] then None
    else if ks[0].0 == c then Some(ks[0].1)
    else Child(ks[1..], c)
  }

  /** Every child id is a node created after its parent. */
  predicate InRange(kids: seq<Kids>) {
    forall u, k :: 0 <= u < |kids| && 0 <= k < |kids[u]| ==> u < kids[u][k].1 < |kids|
  }

  /** A dictionary holds each character key once. */
  predicate DistinctChars(ks: Kids) {
    forall a, b :: 0 <= a < b < |ks| ==> ks[a].0 != ks[b].0
  }

  lemma {:induction false} ChildOfDistinct(ks: Kids, k: nat)
    requires DistinctChars(ks) && k < |ks|
    ensures Child(ks, ks[k].0) == Some(ks[k].1)
  {
    if k > 0 {
      assert ks[0].0 != ks[k].0;
      assert DistinctChars(ks[1..]) by {
        forall a, b | 0 <= a < b < |ks[1..]| ensures ks[1..][a].0 != ks[1..][b].0 {
          assert ks[1..][a] == ks[a + 1] && ks[1..][b] == ks[b + 1];
        }
      }
      ChildOfDistinct(ks[1..], k - 1);
    }
  }

  // ---------------------------------------------------------------------------
  // The shape of the trie
  // ---------------------------------------------------------------------------

  predicate Sizes(kids: seq<Kids>, term: seq<Option<string>>, paths: seq<string>, parent: seq<nat>) {
    |kids| >= 1 && |term| == |kids| && |paths| == |kids| && |parent| == |kids| && paths[0] == []
  }

  /** The child of `u` for `c` spells the path of `u` followed by `c`. */
  ghost predicate KidPaths(kids: seq<Kids>, paths: seq<string>)
    requires |paths| == |kids|
    requires InRange(kids)
  {
    forall u, k :: 0 <= u < |kids| && 0 <= k < |kids[u]| ==> paths[kids[u][k].1] == paths[u] + [kids[u][k].0]
  }

  /** Different nodes spell different strings. */
  ghost predicate Injective(paths: seq<string>) {
    forall a, b :: 0 <= a < b < |paths| ==> paths[a] != paths[b]
  }

  /** Every node but the root is the child of an earlier node for the last character of its path. */
  ghost predicate Parents(kids: seq<Kids>, paths: seq<string>, parent: seq<nat>)
    requires |paths| == |kids| && |parent| == |kids|
  {
    forall v {:trigger parent[v]} :: 0 < v < |kids| ==>
      parent[v] < v && |paths[v]| > 0 &&
      paths[v] == paths[parent[v]] + [paths[v][|paths[v]| - 1]] &&
      Child(kids[parent[v]], paths[v][|paths[v]| - 1]) == Some(v)
  }

  /** The `"**"` entry of a node is the string its path spells. */
  ghost predicate TermsArePaths(term: seq<Option<string>>, paths: seq<string>)
    requires |term| == |paths|
  {
    forall v :: 0 <= v < |term| && term[v].Some? ==> term[v].value == paths[v]
  }

  /** The nested dictionaries form a trie. */
  ghost predicate Shaped(kids: seq<Kids>, term: seq<Option<string>>, paths: seq<string>, parent: seq<nat>) {
    Sizes(kids, term, paths, parent) && InRange(kids) &&
    (forall u :: 0 <= u < |kids| ==> DistinctChars(kids[u])) &&
    KidPaths(kids, paths) && Injective(paths) && Parents(kids, paths, parent) &&
    TermsArePaths(term, paths)
  }

  /** The keywords: the `"**"` entries of the nodes below the root. */
  function TermSet(term: seq<Option<string>>): set<string> {
    set v | 1 <= v < |term| && term[v].Some? :: term[v].value
  }

  /**
   * The trie read as a prefix table: the path of every node below the root,
   * flagged when the node ends a keyword.
   */
  function TableOf(term: seq<Option<string>>, paths: seq<string>): (t: Table)
    requires |term| == |paths| && Injective(paths)
  {
    map v | 1 <= v < |paths| :: paths[v] := term[v].Some?
  }

  lemma TableOfNode(term: seq<Option<string>>, paths: seq<string>, v: nat)
    requires |term| == |paths| && Injective(paths) && 1 <= v < |paths|
    ensures paths[v] in TableOf(term, paths) && TableOf(term, paths)[paths[v]] == term[v].Some?
  {
  }

  /** The keywords of the table are the keywords of the trie. */
  lemma TableKeywords(kids: seq<Kids>, term: seq<Option<string>>, paths: seq<string>, parent: seq<nat>)
    requires Shaped(kids, term, paths, parent)
    ensures Keywords(TableOf(term, paths)) == TermSet(term)
  {
    var t := TableOf(term, paths);
    forall w ensures w in Keywords(t) <==> w in TermSet(term) {
      if w in TermSet(term) {
        var v :| 1 <= v < |term| && term[v].Some? && term[v].value == w;
        TableOfNode(term, paths, v);
      }
      if w in Keywords(t) {
        var v :| 1 <= v < |paths| && paths[v] == w;
        TableOfNode(term, paths, v);
      }
    }
  }

  /** Every prefix of the path of a node is the path of one of its ancestors. */
  lemma {:induction false} Ancestor(kids: seq<Kids>, term: seq<Option<string>>, paths: seq<string>, parent: seq<nat>, v: nat, m: nat)
    requires Shaped(kids, term, paths, parent) && v < |kids| && m <= |paths[v]|
    ensures exists u :: 0 <= u <= v && paths[u] == paths[v][..m]
    decreases v
  {
    if m == |paths[v]| {
      assert paths[v][..m] == paths[v];
    } else {
      var p := parent[v];
      assert paths[v] == paths[p] + [paths[v][|paths[v]| - 1]];
      Ancestor(kids, term, paths, parent, p, m);
      assert paths[p][..m] == paths[v][..m];
    }
  }

  /** So the table of a trie is closed under prefixes. */
  lemma TableClosed(kids: seq<Kids>, term: seq<Option<string>>, paths: seq<string>, parent: seq<nat>)
    requires Shaped(kids, term, paths, parent)
    ensures FlagsPrefixClosed(TableOf(term, paths))
  {
    var t := TableOf(term, paths);
    forall k, m | k in t && t[k] && 0 < m <= |k| ensures k[..m] in t {
      var v :| 1 <= v < |paths| && paths[v] == k;
      Ancestor(kids, term, paths, parent, v, m);
      var u :| 0 <= u <= v && paths[u] == paths[v][..m];
      assert u != 0;
      TableOfNode(term, paths, u);
    }
  }

  /** The child for `c` of a node is a node below the root spelling its path followed by `c`. */
  lemma ChildNode(kids: seq<Kids>, term: seq<Option<string>>, paths: seq<string>, parent: seq<nat>, u: nat, c: char)
    requires Shaped(kids, term, paths, parent) && u < |kids| && Child(kids[u], c).Some?
    ensures var v := Child(kids[u], c).value;
      1 <= v < |kids| && paths[v] == paths[u] + [c] &&
      paths[v] in TableOf(term, paths) && TableOf(term, paths)[paths[v]] == term[v].Some?
  {
    var v := Child(kids[u], c).value;
    var k :| 0 <= k < |kids[u]| && kids[u][k] == (c, v);
    assert u < kids[u][k].1 < |kids|;
    assert paths[kids[u][k].1] == paths[u] + [kids[u][k].0];
    TableOfNode(term, paths, v);
  }

  /** A key of the table extending the path of a node by `c` is the path of its child for `c`. */
  lemma KeyHasChild(kids: seq<Kids>, term: seq<Option<string>>, paths: seq<string>, parent: seq<nat>, u: nat, c: char)
    requires Shaped(kids, term, paths, parent) && u < |kids|
    ensures paths[u] + [c] in TableOf(term, paths) ==> Child(kids[u], c).Some?
  {
    if paths[u] + [c] in TableOf(term, paths) {
      var v :| 1 <= v < |paths| && paths[v] == paths[u] + [c];
      var p := parent[v];
      assert paths[v] == paths[p] + [paths[v][|paths[v]| - 1]];
      assert paths[v][|paths[v]| - 1] == c;
      assert paths[p] == paths[v][..|paths[v]| - 1] == paths[u];
      assert p == u;
    }
  }

  // ---------------------------------------------------------------------------
  // Growing the trie
  // ---------------------------------------------------------------------------

  /** Adding a child at the end of a dictionary leaves the other children where they were. */
  lemma {:induction false} ChildAppend(ks: Kids, e: (char, nat), d: char)
    ensures Child(ks + [e], d) == if Child(ks, d).Some? then Child(ks, d) else if e.0 == d then Some(e.1) else None
    decreases |ks|
  {
    if ks != [] {
      assert (ks + [e])[1..] == ks[1..] + [e];
      ChildAppend(ks[1..], e, d);
    }
  }

  /** The tables after `setdefault` adds a new child for `c` to node `u`. */
  function GrowKids(kids: seq<Kids>, u: nat, c: char): seq<Kids>
    requires u < |kids|
  {
    kids[u := kids[u] + [(c, |kids|)]] + [[]]
  }

  lemma GrowKidsChildren(kids: seq<Kids>, u: nat, c: char, x: nat, d: char)
    requires u < |kids| && x < |kids|
    ensures Child(GrowKids(kids, u, c)[x], d) ==
      if x == u && Child(kids[u], d).None? && c == d then Some(|kids|) else Child(kids[x], d)
  {
    if x == u {
      ChildAppend(kids[u], (c, |kids|), d);
    }
  }

  lemma GrowShapeKids(kids: seq<Kids>, term: seq<Option<string>>, paths: seq<string>, parent: seq<nat>, u: nat, c: char)
    requires Shaped(kids, term, paths, parent) && u < |kids| && Child(kids[u], c).None?
    ensures var kids', paths' := GrowKids(kids, u, c), paths + [paths[u] + [c]];
      InRange(kids') && (forall x :: 0 <= x < |kids'| ==> DistinctChars(kids'[x])) && KidPaths(kids', paths')
  {
    var kids': seq<Kids> := GrowKids(kids, u, c);
    var paths': seq<string> := paths + [paths[u] + [c]];
    forall x, k | 0 <= x < |kids'| && 0 <= k < |kids'[x]|
      ensures x < kids'[x][k].1 < |kids'| && paths'[kids'[x][k].1] == paths'[x] + [kids'[x][k].0]
    {
      if x == u && k == |kids[u]| {
      } else {
        assert kids'[x][k] == kids[x][k];
      }
    }
    forall x | 0 <= x < |kids'| ensures DistinctChars(kids'[x]) {
      if x == u {
        forall a, b | 0 <= a < b < |kids'[x]| ensures kids'[x][a].0 != kids'[x][b].0 {
          if b == |kids[u]| {
            assert kids'[x][a] == kids[u][a];
          } else {
            assert kids'[x][a] == kids[u][a] && kids'[x][b] == kids[u][b];
          }
        }
      }
    }
  }

  lemma GrowShapePaths(kids: seq<Kids>, term: seq<Option<string>>, paths: seq<string>, parent: seq<nat>, u: nat, c: char)
    requires Shaped(kids, term, paths, parent) && u < |kids| && Child(kids[u], c).None?
    ensures var kids', paths' := GrowKids(kids, u, c), paths + [paths[u] + [c]];
      Injective(paths') && Parents(kids', paths', parent + [u]) && TermsArePaths(term + [None], paths')
  {
    GrowInjective(kids, term, paths, parent, u, c);
    GrowParents(kids, term, paths, parent, u, c);
  }

  /** The new node spells a string no other node spells. */
  lemma GrowInjective(kids: seq<Kids>, term: seq<Option<string>>, paths: seq<string>, parent: seq<nat>, u: nat, c: char)
    requires Shaped(kids, term, paths, parent) && u < |kids| && Child(kids[u], c).None?
    ensures Injective(paths + [paths[u] + [c]])
  {
    var n := |kids|;
    var paths' := paths + [paths[u] + [c]];
    KeyHasChild(kids, term, paths, parent, u, c);
    forall a, b | 0 <= a < b < |paths'| ensures paths'[a] != paths'[b] {
      if b == n {
        if a != 0 {
          TableOfNode(term, paths, a);
        }
      } else {
        assert paths'[a] == paths[a] && paths'[b] == paths[b];
      }
    }
  }

  /** The new node is the child of `u` for `c`, and the old nodes keep their parents. */
  lemma GrowParents(kids: seq<Kids>, term: seq<Option<string>>, paths: seq<string>, parent: seq<nat>, u: nat, c: char)
    requires Shaped(kids, term, paths, parent) && u < |kids| && Child(kids[u], c).None?
    ensures Parents(GrowKids(kids, u, c), paths + [paths[u] + [c]], parent + [u])
  {
    forall v | 0 < v < |kids| + 1
      ensures var kids', paths', parent' := GrowKids(kids, u, c), paths + [paths[u] + [c]], parent + [u];
        parent'[v] < v && |paths'[v]| > 0 &&
        paths'[v] == paths'[parent'[v]] + [paths'[v][|paths'[v]| - 1]] &&
        Child(kids'[parent'[v]], paths'[v][|paths'[v]| - 1]) == Some(v)
    {
      GrowParent(kids, term, paths, parent, u, c, v);
    }
  }

  /** `GrowParents` for one node `v`. */
  lemma GrowParent(kids: seq<Kids>, term: seq<Option<string>>, paths: seq<string>, parent: seq<nat>, u: nat, c: char, v: nat)
    requires Shaped(kids, term, paths, parent) && u < |kids| && Child(kids[u], c).None?
    requires 0 < v < |kids| + 1
    ensures var kids', paths', parent' := GrowKids(kids, u, c), paths + [paths[u] + [c]], parent + [u];
      parent'[v] < v && |paths'[v]| > 0 &&
      paths'[v] == paths'[parent'[v]] + [paths'[v][|paths'[v]| - 1]] &&
      Child(kids'[parent'[v]], paths'[v][|paths'[v]| - 1]) == Some(v)
  {
    var n := |kids|;
    var paths' := paths + [paths[u] + [c]];
    var parent' := parent + [u];
    if v < n {
      assert paths'[v] == paths[v] && parent'[v] == parent[v];
      var p := parent[v];
      var d := paths[v][|paths[v]| - 1];
      assert paths'[p] == paths[p];
      assert Child(kids[p], d) == Some(v);
      GrowKidsChildren(kids, u, c, p, d);
    } else {
      assert paths'[v] == paths[u] + [c] && parent'[v] == u;
      GrowKidsChildren(kids, u, c, u, c);
    }
  }

  /** `setdefault` adding a new child keeps the trie shape and registers its path with no keyword. */
  lemma GrowShape(kids: seq<Kids>, term: seq<Option<string>>, paths: seq<string>, parent: seq<nat>, u: nat, c: char)
    requires Shaped(kids, term, paths, parent) && u < |kids| && Child(kids[u], c).None?
    ensures Shaped(GrowKids(kids, u, c), term + [None], paths + [paths[u] + [c]], parent + [u])
    ensures TableOf(term + [None], paths + [paths[u] + [c]]) == TableOf(term, paths)[paths[u] + [c] := false]
    ensures paths[u] + [c] !in TableOf(term, paths)
  {
    GrowShapeKids(kids, term, paths, parent, u, c);
    GrowShapePaths(kids, term, paths, parent, u, c);
    KeyHasChild(kids, term, paths, parent, u, c);
    TableGrow(term, paths, paths[u] + [c]);
  }

  lemma InjectiveInit(paths: seq<string>, p: string)
    requires Injective(paths + [p])
    ensures Injective(paths)
  {
    forall a, b | 0 <= a < b < |paths| ensures paths[a] != paths[b] {
      assert paths[a] == (paths + [p])[a] && paths[b] == (paths + [p])[b];
    }
  }

  lemma TableGrow(term: seq<Option<string>>, paths: seq<string>, p: string)
    requires |term| == |paths| >= 1 && Injective(paths + [p])
    ensures Injective(paths)
    ensures TableOf(term + [None], paths + [p]) == TableOf(term, paths)[p := false]
  {
    InjectiveInit(paths, p);
    TableGrowOld(term, paths, p);
    TableGrowNew(term, paths, p);
  }

  lemma TableGrowOld(term: seq<Option<string>>, paths: seq<string>, p: string)
    requires |term| == |paths| >= 1 && Injective(paths + [p]) && Injective(paths)
    ensures var l, r := TableOf(term + [None], paths + [p]), TableOf(term, paths)[p := false];
      forall k :: k in l ==> k in r && l[k] == r[k]
  {
    var l := TableOf(term + [None], paths + [p]);
    var r := TableOf(term, paths)[p := false];
    forall k | k in l ensures k in r && l[k] == r[k] {
      var v :| 1 <= v < |paths| + 1 && (paths + [p])[v] == k;
      TableOfNode(term + [None], paths + [p], v);
      if v < |paths| {
        TableOfNode(term, paths, v);
      }
    }
  }

  lemma TableGrowNew(term: seq<Option<string>>, paths: seq<string>, p: string)
    requires |term| == |paths| >= 1 && Injective(paths + [p]) && Injective(paths)
    ensures var l, r := TableOf(term + [None], paths + [p]), TableOf(term, paths)[p := false];
      forall k :: k in r ==> k in l
  {
    var l := TableOf(term + [None], paths + [p]);
    var r := TableOf(term, paths)[p := false];
    forall k | k in r ensures k in l {
      if k != p {
        var v :| 1 <= v < |paths| && paths[v] == k;
        TableOfNode(term + [None], paths + [p], v);
      } else {
        TableOfNode(term + [None], paths + [p], |paths|);
      }
    }
  }

  /** Storing the keyword at the node that spells it keeps the shape and flags its path. */
  lemma SetTermShape(kids: seq<Kids>, term: seq<Option<string>>, paths: seq<string>, parent: seq<nat>, v: nat)
    requires Shaped(kids, term, paths, parent) && v < |kids|
    ensures Shaped(kids, term[v := Some(paths[v])], paths, parent)
    ensures 1 <= v ==> TableOf(term[v := Some(paths[v])], paths) == TableOf(term, paths)[paths[v] := true]
    ensures v == 0 ==> TableOf(term[v := Some(paths[v])], paths) == TableOf(term, paths)
  {
  }

  // ---------------------------------------------------------------------------
  // Failure links
  // ---------------------------------------------------------------------------

  predicate IsProperSuffix(t: string, s: string) {
    |t| < |s| && t == s[|s| - |t|..]
  }

  /**
   * Every `"##"` entry that holds a node names one whose path is a proper
   * suffix of the node's own path. (The root never gets one.)
   */
  ghost predicate LinksOK(fail: seq<Option<nat>>, paths: seq<string>) {
    |fail| == |paths| &&
    forall v :: 0 <= v < |fail| && fail[v].Some? ==>
      fail[v].value < |paths| && IsProperSuffix(paths[fail[v].value], paths[v])
  }

  /** Clearing a link keeps the links proper. */
  lemma LinksClear(fail: seq<Option<nat>>, paths: seq<string>, v: nat)
    requires LinksOK(fail, paths) && v < |fail|
    ensures LinksOK(fail[v := None], paths)
  {
  }

  /** A new node without a link keeps the links proper. */
  lemma LinksGrow(fail: seq<Option<nat>>, paths: seq<string>, p: string)
    requires LinksOK(fail, paths)
    ensures LinksOK(fail + [None], paths + [p])
  {
    var fail', paths' := fail + [None], paths + [p];
    forall v | 0 <= v < |fail'| && fail'[v].Some?
      ensures fail'[v].value < |paths'| && IsProperSuffix(paths'[fail'[v].value], paths'[v])
    {
      assert fail'[v] == fail[v] && paths'[v] == paths[v];
      assert paths'[fail[v].value] == paths[fail[v].value];
    }
  }

  /** Setting a link to a node spelling a proper suffix keeps the links proper. */
  lemma LinksSet(fail: seq<Option<nat>>, paths: seq<string>, v: nat, x: nat)
    requires LinksOK(fail, paths) && v < |fail| && x < |paths| && IsProperSuffix(paths[x], paths[v])
    ensures LinksOK(fail[v := Some(x)], paths)
  {
  }

  /**
   * The link `__build_links` gives the child for `c` of node `u`: the root
   * below the root; otherwise the child for `c` of the link of `u` when
   * there is one, and the root when there is not.
   */
  function OneHop(kids: seq<Kids>, fail: seq<Option<nat>>, u: nat, c: char): nat
    requires u < |kids| == |fail|
    requires u != 0 ==> fail[u].Some? && fail[u].value < |kids|
  {
    if u == 0 then 0
    else match Child(kids[fail[u].value], c)
      case Some(x) => x
      case None => 0
  }

  /** Every node below the root holds the link `OneHop` computes from its parent's. */
  ghost predicate Linked(kids: seq<Kids>, fail: seq<Option<nat>>, paths: seq<string>, parent: seq<nat>)
    requires |paths| == |kids| && |parent| == |kids| && Parents(kids, paths, parent)
  {
    |fail| == |kids| &&
    (forall v :: 1 <= v < |kids| ==> fail[v].Some? && fail[v].value < |kids|) &&
    (forall v :: 1 <= v < |kids| ==>
       fail[v] == Some(OneHop(kids, fail, parent[v], paths[v][|paths[v]| - 1])))
  }

  /** The nodes met by following links from `v` until one has none. */
  ghost function Chain(fail: seq<Option<nat>>, paths: seq<string>, v: nat): seq<nat>
    requires LinksOK(fail, paths) && v < |paths|
    decreases |paths[v]|
  {
    [v] + if fail[v].Some? then Chain(fail, paths, fail[v].value) else []
  }

  /**
   * Once every node below the root has a link, following links from any
   * node passes through ever shorter suffixes of its path and ends at the
   * root, after at most as many links as the path has characters.
   */
  lemma {:induction false} ChainReachesRoot(fail: seq<Option<nat>>, paths: seq<string>, v: nat)
    requires LinksOK(fail, paths) && v < |paths|
    requires forall u :: 1 <= u < |fail| ==> fail[u].Some?
    ensures var c := Chain(fail, paths, v);
      c[0] == v && c[|c| - 1] == 0 && |c| <= |paths[v]| + 1 &&
      forall k :: 0 < k < |c| ==> c[k] < |paths| && IsProperSuffix(paths[c[k]], paths[c[k - 1]])
    decreases |paths[v]|
  {
    if fail[v].Some? {
      var f := fail[v].value;
      ChainReachesRoot(fail, paths, f);
      var c := Chain(fail, paths, v);
      assert c == [v] + Chain(fail, paths, f);
      forall k | 0 < k < |c| ensures c[k] < |paths| && IsProperSuffix(paths[c[k]], paths[c[k - 1]]) {
        if k > 1 {
          assert c[k] == Chain(fail, paths, f)[k - 1] && c[k - 1] == Chain(fail, paths, f)[k - 2];
        }
      }
    }
  }

  /** The link `OneHop` gives the child for `c` of `u` spells a proper suffix of the child's path. */
  lemma OneHopSuffix(kids: seq<Kids>, term: seq<Option<string>>, fail: seq<Option<nat>>, paths: seq<string>, parent: seq<nat>,
                     u: nat, c: char)
    requires Shaped(kids, term, paths, parent) && LinksOK(fail, paths) && u < |kids|
    requires u != 0 ==> fail[u].Some?
    ensures OneHop(kids, fail, u, c) < |kids|
    ensures IsProperSuffix(paths[OneHop(kids, fail, u, c)], paths[u] + [c])
  {
    if u != 0 {
      var f := fail[u].value;
      match Child(kids[f], c)
      case Some(x) =>
        ChildNode(kids, term, paths, parent, f, c);
        var p := paths[u] + [c];
        assert paths[x] == paths[f] + [c];
        assert paths[f] == paths[u][|paths[u]| - |paths[f]|..];
        assert p[|p| - |paths[x]|..] == paths[u][|paths[u]| - |paths[f]|..] + [c];
      case None =>
    }
  }

  /**
   * Where one hop is not the textbook link: in the trie of "xac", "ab" and
   * "c" (inserted in that order), node "xa" links to "a", which has no
   * child `c`, so node "xac" links to the root although node "c", a longer
   * proper suffix, is in the trie.
   */
  lemma OneHopMissesSuffix(kids: seq<Kids>, fail: seq<Option<nat>>, paths: seq<string>, parent: seq<nat>)
    requires kids == [[('x', 1), ('a', 4), ('c', 6)], [('a', 2)], [('c', 3)], [], [('b', 5)], [], []]
    requires paths == ["", "x", "xa", "xac", "a", "ab", "c"]
    requires parent == [0, 0, 1, 2, 0, 4, 0]
    requires Linked(kids, fail, paths, parent)
    ensures fail[2] == Some(4) && fail[3] == Some(0)
    ensures IsProperSuffix(paths[6], paths[3])
  {
    assert paths[1][|paths[1]| - 1] == 'x';
    assert fail[1] == Some(0);
    assert paths[2][|paths[2]| - 1] == 'a';
    assert Child(kids[0], 'a') == Some(4);
    assert paths[3][|paths[3]| - 1] == 'c';
    assert Child(kids[4], 'c') == None;
  }

  // ---------------------------------------------------------------------------
  // Scanning as written
  // ---------------------------------------------------------------------------

  /** What the inner loop leaves: the keywords met, and `j` and `current` when it stops. */
  datatype Walked = Walked(met: seq<string>, end: nat, at: nat)

  /**
   * The inner loop of `extract_keywords` from index `j` at node `cur`: it
   * follows the children for the characters of the sentence, meets the
   * `"**"` entry of every node it enters, and on a missing child goes back
   * to the root (both modes do, since `current.get("fail", root)` is always
   * the root). When it runs off the end of the sentence it stays where it is.
   */
  function Walk(kids: seq<Kids>, term: seq<Option<string>>, s: string, j: nat, cur: nat): (r: Walked)
    requires InRange(kids) && |term| == |kids| && cur < |kids| && j <= |s|
    ensures j <= r.end <= |s| && r.at < |kids|
    ensures r.end < |s| ==> r.at == 0
    ensures r.end == |s| && j < |s| ==> cur < r.at
    ensures r.met != [] ==> j < r.end
    decreases |s| - j
  {
    if j < |s| then
      match Child(kids[cur], s[j])
      case None => Walked([], j, 0)
      case Some(v) =>
        var r := Walk(kids, term, s, j + 1, v);
        Walked((if term[v].Some? then [term[v].value] else []) + r.met, r.end, r.at)
    else Walked([], j, cur)
  }

  /** The last keyword met, which the loop keeps in `w`. */
  function LastOf(met: seq<string>): Option<string> {
    if met == [] then None else Some(met[|met| - 1])
  }

  /**
   * `extract_keywords(sentence, all_mode=True)` from index `i` at node `cur`:
   * every keyword met is reported and `i` moves on by one, but `current`
   * is carried over to the next start.
   */
  function TrieAll(kids: seq<Kids>, term: seq<Option<string>>, s: string, i: nat, cur: nat): seq<string>
    requires InRange(kids) && |term| == |kids| && cur < |kids| && i <= |s|
    decreases |s| - i
  {
    if i == |s| then []
    else
      var r := Walk(kids, term, s, i, cur);
      r.met + TrieAll(kids, term, s, i + 1, r.at)
  }

  /**
   * `extract_keywords(sentence, all_mode=False)` from index `i` at node
   * `cur`: the last keyword met is reported and the scan resumes at `j`;
   * without one it moves on by one only when `current` is the root, and
   * otherwise starts again at the same `i` from the node it stopped at.
   */
  function TrieLongest(kids: seq<Kids>, term: seq<Option<string>>, s: string, i: nat, cur: nat): seq<string>
    requires InRange(kids) && |term| == |kids| && cur < |kids| && i <= |s|
    decreases |s| - i, |kids| - cur
  {
    if i == |s| then []
    else
      var r := Walk(kids, term, s, i, cur);
      var w := LastOf(r.met);
      if w.Some? && w.value != "" then [w.value] + TrieLongest(kids, term, s, r.end, r.at)
      else if r.at == 0 then TrieLongest(kids, term, s, i + 1, 0)
      else TrieLongest(kids, term, s, i, r.at)
  }

  /** Every keyword the inner loop meets is the `"**"` entry of a node below the root. */
  lemma {:induction false} WalkMeetsKeywords(kids: seq<Kids>, term: seq<Option<string>>, s: string, j: nat, cur: nat)
    requires InRange(kids) && |term| == |kids| && cur < |kids| && j <= |s|
    ensures forall w :: w in Walk(kids, term, s, j, cur).met ==> w in TermSet(term)
    decreases |s| - j
  {
    if j < |s| {
      match Child(kids[cur], s[j])
      case None =>
      case Some(v) =>
        var k :| 0 <= k < |kids[cur]| && kids[cur][k] == (s[j], v);
        WalkMeetsKeywords(kids, term, s, j + 1, v);
    }
  }

  /** Whatever the as-written scan with `all_mode` reports is a keyword. */
  lemma {:induction false} TrieAllKeywords(kids: seq<Kids>, term: seq<Option<string>>, s: string, i: nat, cur: nat)
    requires InRange(kids) && |term| == |kids| && cur < |kids| && i <= |s|
    ensures forall w :: w in TrieAll(kids, term, s, i, cur) ==> w in TermSet(term)
    decreases |s| - i
  {
    if i < |s| {
      var r := Walk(kids, term, s, i, cur);
      WalkMeetsKeywords(kids, term, s, i, cur);
      TrieAllKeywords(kids, term, s, i + 1, r.at);
      assert TrieAll(kids, term, s, i, cur) == r.met + TrieAll(kids, term, s, i + 1, r.at);
    }
  }

  /** Whatever the as-written scan without `all_mode` reports is a keyword. */
  lemma {:induction false} TrieLongestKeywords(kids: seq<Kids>, term: seq<Option<string>>, s: string, i: nat, cur: nat)
    requires InRange(kids) && |term| == |kids| && cur < |kids| && i <= |s|
    ensures forall w :: w in TrieLongest(kids, term, s, i, cur) ==> w in TermSet(term)
    decreases |s| - i, |kids| - cur
  {
    if i < |s| {
      var r := Walk(kids, term, s, i, cur);
      WalkMeetsKeywords(kids, term, s, i, cur);
      var w := LastOf(r.met);
      if w.Some? && w.value != "" {
        assert w.value in r.met;
        TrieLongestKeywords(kids, term, s, r.end, r.at);
      } else if r.at == 0 {
        TrieLongestKeywords(kids, term, s, i + 1, 0);
      } else {
        TrieLongestKeywords(kids, term, s, i, r.at);
      }
    }
  }

  // ---------------------------------------------------------------------------
  // Scanning as intended
  // ---------------------------------------------------------------------------

  /** `all_mode` as intended: every start is walked from the root. */
  function FixedAll(kids: seq<Kids>, term: seq<Option<string>>, s: string, i: nat): seq<string>
    requires InRange(kids) && |term| == |kids| >= 1
    decreases |s| - i
  {
    if i >= |s| then []
    else Walk(kids, term, s, i, 0).met + FixedAll(kids, term, s, i + 1)
  }

  /**
   * Longest-first as intended: from the root at every start, the last
   * keyword met is reported and the scan resumes just past it.
   */
  function FixedLongest(kids: seq<Kids>, term: seq<Option<string>>, s: string, i: nat): seq<string>
    requires InRange(kids) && |term| == |kids| >= 1
    decreases |s| - i
  {
    if i >= |s| then []
    else
      match Pick(kids, term, s, i)
      case Some(w) => [w] + FixedLongest(kids, term, s, i + |w|)
      case None => FixedLongest(kids, term, s, i + 1)
  }

  /** The keyword met on entering node `v`. */
  function MetAt(term: seq<Option<string>>, v: nat): seq<string>
    requires v < |term|
  {
    if term[v].Some? then [term[v].value] else []
  }

  /** One step of a walk that finds the child is one step of the run. */
  lemma WalkStepSome(kids: seq<Kids>, term: seq<Option<string>>, paths: seq<string>, parent: seq<nat>,
                     s: string, i: nat, j: nat, cur: nat)
    requires Shaped(kids, term, paths, parent)
    requires i <= j < |s| && cur < |kids| && paths[cur] == s[i..j] && Child(kids[cur], s[j]).Some?
    ensures var v := Child(kids[cur], s[j]).value;
      var t := TableOf(term, paths);
      v < |kids| && paths[v] == s[i..j + 1] &&
      Walk(kids, term, s, j, cur).met == MetAt(term, v) + Walk(kids, term, s, j + 1, v).met &&
      Walk(kids, term, s, j, cur).end == Walk(kids, term, s, j + 1, v).end &&
      Words(RunHits(t, s, i, j)) == MetAt(term, v) + Words(RunHits(t, s, i, j + 1)) &&
      RunEnd(t, s, i, j) == RunEnd(t, s, i, j + 1)
  {
    var t := TableOf(term, paths);
    var key := s[i..j + 1];
    assert key == paths[cur] + [s[j]];
    var v := Child(kids[cur], s[j]).value;
    ChildNode(kids, term, paths, parent, cur, s[j]);
    RunHitsUnfold(t, s, i, j);
    var here := if t[key] then [Match(key, i, j + 1)] else [];
    assert Words(here) == MetAt(term, v);
    WordsAppend(here, RunHits(t, s, i, j + 1));
  }

  /** A walk that misses the child stops where the run stops, having met nothing. */
  lemma WalkStepNone(kids: seq<Kids>, term: seq<Option<string>>, paths: seq<string>, parent: seq<nat>,
                     s: string, i: nat, j: nat, cur: nat)
    requires Shaped(kids, term, paths, parent)
    requires i <= j < |s| && cur < |kids| && paths[cur] == s[i..j] && Child(kids[cur], s[j]).None?
    ensures RunHits(TableOf(term, paths), s, i, j) == [] && RunEnd(TableOf(term, paths), s, i, j) == j
  {
    assert s[i..j + 1] == paths[cur] + [s[j]];
    KeyHasChild(kids, term, paths, parent, cur, s[j]);
  }

  /**
   * A walk from a node spelling `s[i..j]` meets the candidates of the run
   * of the prefix table at `i` and stops where that run ends.
   */
  lemma {:induction false} WalkIsRun(kids: seq<Kids>, term: seq<Option<string>>, paths: seq<string>, parent: seq<nat>,
                                     s: string, i: nat, j: nat, cur: nat)
    requires Shaped(kids, term, paths, parent)
    requires i <= j <= |s| && cur < |kids| && paths[cur] == s[i..j]
    ensures Walk(kids, term, s, j, cur).met == Words(RunHits(TableOf(term, paths), s, i, j))
    ensures Walk(kids, term, s, j, cur).end == RunEnd(TableOf(term, paths), s, i, j)
    decreases |s| - j
  {
    if j < |s| {
      match Child(kids[cur], s[j])
      case None =>
        WalkStepNone(kids, term, paths, parent, s, i, j, cur);
      case Some(v) =>
        WalkStepSome(kids, term, paths, parent, s, i, j, cur);
        WalkIsRun(kids, term, paths, parent, s, i, j + 1, v);
    }
  }

  /** The intended `all_mode` scan is the overlapping scan of the prefix table. */
  lemma {:induction false} FixedAllIsAll(kids: seq<Kids>, term: seq<Option<string>>, paths: seq<string>, parent: seq<nat>,
                                         s: string, i: nat)
    requires Shaped(kids, term, paths, parent) && i <= |s|
    ensures FixedAll(kids, term, s, i) == Words(AllFrom(TableOf(term, paths), s, i))
    decreases |s| - i
  {
    if i < |s| {
      var t := TableOf(term, paths);
      WalkIsRun(kids, term, paths, parent, s, i, i, 0);
      FixedAllIsAll(kids, term, paths, parent, s, i + 1);
      WordsAppend(RunHits(t, s, i, i), AllFrom(t, s, i + 1));
    }
  }

  /** The last word of a list of matches is the word of its last match. */
  lemma LastOfWords(ms: seq<Match>)
    ensures LastOf(Words(ms)) == if ms == [] then None else Some(ms[|ms| - 1].word)
  {
  }

  /** The longest candidate at `i` is the last one of the run. */
  lemma LongestIsLastHit(dic: Table, s: string, i: nat)
    requires i <= |s|
    ensures var hits := RunHits(dic, s, i, i);
      Longest(dic, s, i) == if hits == [] then None else Some(hits[|hits| - 1])
  {
    RunLastIsLast(dic, s, i, i, None);
  }

  function Pick(kids: seq<Kids>, term: seq<Option<string>>, s: string, i: nat): (r: Option<string>)
    requires InRange(kids) && |term| == |kids| >= 1 && i < |s|
    ensures r.Some? ==> r.value != ""
  {
    var w := LastOf(Walk(kids, term, s, i, 0).met);
    if w.Some? && w.value != "" then w else None
  }

  lemma LongestWordsStep(dic: Table, s: string, i: nat, m: Match)
    requires i < |s| && Longest(dic, s, i) == Some(m)
    ensures i + |m.word| <= |s|
    ensures Words(LongestFrom(dic, s, i)) == [m.word] + Words(LongestFrom(dic, s, i + |m.word|))
  {
    LongestStep(dic, s, i, m);
    WordsAppend([m], LongestFrom(dic, s, i + |m.word|));
    assert Words([m]) == [m.word];
  }

  /** Every walk from the root from a start at or after `i` meets the candidates of the run of `dic` there. */
  ghost predicate WalksAreRuns(kids: seq<Kids>, term: seq<Option<string>>, dic: Table, s: string, i: nat)
    requires InRange(kids) && |term| == |kids| >= 1
  {
    forall j :: i <= j < |s| ==> Walk(kids, term, s, j, 0).met == Words(RunHits(dic, s, j, j))
  }

  lemma {:induction false} FixedLongestFollows(kids: seq<Kids>, term: seq<Option<string>>, dic: Table, s: string, i: nat)
    requires InRange(kids) && |term| == |kids| >= 1 && i <= |s|
    requires WalksAreRuns(kids, term, dic, s, i)
    ensures FixedLongest(kids, term, s, i) == Words(LongestFrom(dic, s, i))
    decreases |s| - i
  {
    if i < |s| {
      FixedLongestStep(kids, term, dic, s, i);
      var next := if Longest(dic, s, i).Some? then i + |Longest(dic, s, i).value.word| else i + 1;
      WalksAreRunsLater(kids, term, dic, s, i, next);
      FixedLongestFollows(kids, term, dic, s, next);
    }
  }

  lemma WalksAreRunsLater(kids: seq<Kids>, term: seq<Option<string>>, dic: Table, s: string, i: nat, j: nat)
    requires InRange(kids) && |term| == |kids| >= 1 && i <= j
    requires WalksAreRuns(kids, term, dic, s, i)
    ensures WalksAreRuns(kids, term, dic, s, j)
  {
  }

  /** One step of both scans from a start whose walk meets the candidates of the run there. */
  lemma FixedLongestStep(kids: seq<Kids>, term: seq<Option<string>>, dic: Table, s: string, i: nat)
    requires InRange(kids) && |term| == |kids| >= 1 && i < |s|
    requires Walk(kids, term, s, i, 0).met == Words(RunHits(dic, s, i, i))
    ensures match Longest(dic, s, i)
      case None =>
        FixedLongest(kids, term, s, i) == FixedLongest(kids, term, s, i + 1) &&
        LongestFrom(dic, s, i) == LongestFrom(dic, s, i + 1)
      case Some(m) =>
        i + |m.word| <= |s| &&
        FixedLongest(kids, term, s, i) == [m.word] + FixedLongest(kids, term, s, i + |m.word|) &&
        Words(LongestFrom(dic, s, i)) == [m.word] + Words(LongestFrom(dic, s, i + |m.word|))
  {
    PickIsLongest(kids, term, dic, s, i);
    match Longest(dic, s, i)
    case None =>
      LongestNoneStep(dic, s, i);
      assert Pick(kids, term, s, i) == None;
    case Some(m) =>
      LongestWordsStep(dic, s, i, m);
      assert Pick(kids, term, s, i) == Some(m.word);
  }

  lemma PickIsLongest(kids: seq<Kids>, term: seq<Option<string>>, dic: Table, s: string, i: nat)
    requires InRange(kids) && |term| == |kids| >= 1 && i < |s|
    requires Walk(kids, term, s, i, 0).met == Words(RunHits(dic, s, i, i))
    ensures Pick(kids, term, s, i) == match Longest(dic, s, i) case None => None case Some(m) => Some(m.word)
  {
    LastOfWords(RunHits(dic, s, i, i));
    LongestIsLastHit(dic, s, i);
  }

  /** The intended longest-first scan is the skipping scan of the prefix table. */
  lemma FixedLongestIsLongest(kids: seq<Kids>, term: seq<Option<string>>, paths: seq<string>, parent: seq<nat>,
                              s: string, i: nat)
    requires Shaped(kids, term, paths, parent) && i <= |s|
    ensures FixedLongest(kids, term, s, i) == Words(LongestFrom(TableOf(term, paths), s, i))
  {
    var t := TableOf(term, paths);
    forall j | i <= j < |s| ensures Walk(kids, term, s, j, 0).met == Words(RunHits(t, s, j, j)) {
      WalkIsRun(kids, term, paths, parent, s, j, j, 0);
    }
    FixedLongestFollows(kids, term, t, s, i);
  }

  // ---------------------------------------------------------------------------
  // Where the scans as written go wrong
  // ---------------------------------------------------------------------------

  /** The nodes of the trie of the single keyword "abb" spell their paths. */
  lemma AbbPaths(kids: seq<Kids>, paths: seq<string>, parent: seq<nat>)
    requires kids == [[('a', 1)], [('b', 2)], [('b', 3)], []]
    requires paths == ["", "a", "ab", "abb"] && parent == [0, 0, 1, 2]
    ensures |paths| == |kids| && |parent| == |kids| && InRange(kids)
    ensures KidPaths(kids, paths) && Injective(paths) && Parents(kids, paths, parent)
  {
    assert Child(kids[0], 'a') == Some(1);
    assert Child(kids[1], 'b') == Some(2);
    assert Child(kids[2], 'b') == Some(3);
  }

  /** The trie of the single keyword "abb" is well formed. */
  lemma AbbShape(kids: seq<Kids>, term: seq<Option<string>>, paths: seq<string>, parent: seq<nat>)
    requires kids == [[('a', 1)], [('b', 2)], [('b', 3)], []]
    requires term == [None, None, None, Some("abb")]
    requires paths == ["", "a", "ab", "abb"] && parent == [0, 0, 1, 2]
    ensures Shaped(kids, term, paths, parent) && TermSet(term) == {"abb"}
  {
    AbbPaths(kids, paths, parent);
    assert term[3].value in TermSet(term);
  }

  /** The nodes of the trie of the single keyword "abab" spell their paths. */
  lemma AbabPaths(kids: seq<Kids>, paths: seq<string>, parent: seq<nat>)
    requires kids == [[('a', 1)], [('b', 2)], [('a', 3)], [('b', 4)], []]
    requires paths == ["", "a", "ab", "aba", "abab"] && parent == [0, 0, 1, 2, 3]
    ensures |paths| == |kids| && |parent| == |kids| && InRange(kids)
    ensures KidPaths(kids, paths) && Injective(paths) && Parents(kids, paths, parent)
  {
    assert Child(kids[0], 'a') == Some(1);
    assert Child(kids[1], 'b') == Some(2);
    assert Child(kids[2], 'a') == Some(3);
    assert Child(kids[3], 'b') == Some(4);
  }

  /** The trie of the single keyword "abab" is well formed. */
  lemma AbabShape(kids: seq<Kids>, term: seq<Option<string>>, paths: seq<string>, parent: seq<nat>)
    requires kids == [[('a', 1)], [('b', 2)], [('a', 3)], [('b', 4)], []]
    requires term == [None, None, None, None, Some("abab")]
    requires paths == ["", "a", "ab", "aba", "abab"] && parent == [0, 0, 1, 2, 3]
    ensures Shaped(kids, term, paths, parent) && TermSet(term) == {"abab"}
  {
    AbabPaths(kids, paths, parent);
    assert term[4].value in TermSet(term);
  }

  /** The nodes of the trie of "a", "abc" and "b" spell their paths. */
  lemma AAbcBPaths(kids: seq<Kids>, paths: seq<string>, parent: seq<nat>)
    requires kids == [[('a', 1), ('b', 4)], [('b', 2)], [('c', 3)], [], []]
    requires paths == ["", "a", "ab", "abc", "b"] && parent == [0, 0, 1, 2, 0]
    ensures |paths| == |kids| && |parent| == |kids| && InRange(kids)
    ensures KidPaths(kids, paths) && Injective(paths) && Parents(kids, paths, parent)
  {
    assert Child(kids[0], 'a') == Some(1);
    assert Child(kids[0], 'b') == Some(4);
    assert Child(kids[1], 'b') == Some(2);
    assert Child(kids[2], 'c') == Some(3);
  }

  /** The trie of "a", "abc" and "b" is well formed. */
  lemma AAbcBShape(kids: seq<Kids>, term: seq<Option<string>>, paths: seq<string>, parent: seq<nat>)
    requires kids == [[('a', 1), ('b', 4)], [('b', 2)], [('c', 3)], [], []]
    requires term == [None, Some("a"), None, Some("abc"), Some("b")]
    requires paths == ["", "a", "ab", "abc", "b"] && parent == [0, 0, 1, 2, 0]
    ensures Shaped(kids, term, paths, parent) && TermSet(term) == {"a", "abc", "b"}
  {
    AAbcBPaths(kids, paths, parent);
    assert term[1].value in TermSet(term);
    assert term[3].value in TermSet(term);
    assert term[4].value in TermSet(term);
  }

  /** The nodes of the trie of "ab" and "b" spell their paths. */
  lemma AbBPaths(kids: seq<Kids>, paths: seq<string>, parent: seq<nat>)
    requires kids == [[('a', 1), ('b', 3)], [('b', 2)], [], []]
    requires paths == ["", "a", "ab", "b"] && parent == [0, 0, 1, 0]
    ensures |paths| == |kids| && |parent| == |kids| && InRange(kids)
    ensures KidPaths(kids, paths) && Injective(paths) && Parents(kids, paths, parent)
  {
    assert Child(kids[0], 'a') == Some(1);
    assert Child(kids[0], 'b') == Some(3);
    assert Child(kids[1], 'b') == Some(2);
  }

  /** The trie of "ab" and "b" is well formed. */
  lemma AbBShape(kids: seq<Kids>, term: seq<Option<string>>, paths: seq<string>, parent: seq<nat>)
    requires kids == [[('a', 1), ('b', 3)], [('b', 2)], [], []]
    requires term == [None, None, Some("ab"), Some("b")]
    requires paths == ["", "a", "ab", "b"] && parent == [0, 0, 1, 0]
    ensures Shaped(kids, term, paths, parent) && TermSet(term) == {"ab", "b"}
  {
    AbBPaths(kids, paths, parent);
    assert term[2].value in TermSet(term);
    assert term[3].value in TermSet(term);
  }

  /**
   * The trie of the single keyword "abb". With `all_mode` the walk of "ab"
   * from index 0 stops at node "ab" at the end of the sentence; the next
   * start, index 1, is walked from there, reaches "abb" on the `b` and
   * reports a keyword the sentence does not hold. Walking each start from
   * the root reports nothing.
   */
  lemma AllModeCarriesNode(kids: seq<Kids>, term: seq<Option<string>>, paths: seq<string>, parent: seq<nat>, s: string)
    requires kids == [[('a', 1)], [('b', 2)], [('b', 3)], []]
    requires term == [None, None, None, Some("abb")]
    requires paths == ["", "a", "ab", "abb"] && parent == [0, 0, 1, 2]
    requires s == "ab"
    ensures Shaped(kids, term, paths, parent) && TermSet(term) == {"abb"}
    ensures TrieAll(kids, term, s, 0, 0) == ["abb"]
    ensures FixedAll(kids, term, s, 0) == []
  {
    AbbShape(kids, term, paths, parent);
    assert Walk(kids, term, s, 2, 2) == Walked([], 2, 2);
    assert Walk(kids, term, s, 1, 1) == Walked([], 2, 2);
    assert Walk(kids, term, s, 0, 0) == Walked([], 2, 2);
    assert Walk(kids, term, s, 2, 3) == Walked([], 2, 3);
    assert Walk(kids, term, s, 1, 2) == Walked(["abb"], 2, 3);
    assert TrieAll(kids, term, s, 2, 3) == [];
    assert TrieAll(kids, term, s, 1, 2) == ["abb"];
    assert Walk(kids, term, s, 1, 0) == Walked([], 1, 0);
    assert FixedAll(kids, term, s, 2) == [];
    assert FixedAll(kids, term, s, 1) == [];
  }

  /**
   * The trie of the single keyword "abab". Without `all_mode` the walk of
   * "ab" stops at node "ab"; since that is not the root the same start is
   * walked again from there, reaches "abab" and reports it.
   */
  lemma LongestModeCarriesNode(kids: seq<Kids>, term: seq<Option<string>>, paths: seq<string>, parent: seq<nat>, s: string)
    requires kids == [[('a', 1)], [('b', 2)], [('a', 3)], [('b', 4)], []]
    requires term == [None, None, None, None, Some("abab")]
    requires paths == ["", "a", "ab", "aba", "abab"] && parent == [0, 0, 1, 2, 3]
    requires s == "ab"
    ensures Shaped(kids, term, paths, parent) && TermSet(term) == {"abab"}
    ensures TrieLongest(kids, term, s, 0, 0) == ["abab"]
    ensures FixedLongest(kids, term, s, 0) == []
  {
    AbabShape(kids, term, paths, parent);
    assert Walk(kids, term, s, 2, 2) == Walked([], 2, 2);
    assert Walk(kids, term, s, 1, 1) == Walked([], 2, 2);
    assert Walk(kids, term, s, 0, 0) == Walked([], 2, 2);
    assert Walk(kids, term, s, 2, 4) == Walked([], 2, 4);
    assert Walk(kids, term, s, 1, 3) == Walked(["abab"], 2, 4);
    assert Walk(kids, term, s, 0, 2) == Walked(["abab"], 2, 4);
    assert TrieLongest(kids, term, s, 2, 4) == [];
    assert TrieLongest(kids, term, s, 0, 2) == ["abab"];
    assert Pick(kids, term, s, 0) == None;
    assert Walk(kids, term, s, 1, 0) == Walked([], 1, 0);
    assert Pick(kids, term, s, 1) == None;
    assert FixedLongest(kids, term, s, 2) == [];
    assert FixedLongest(kids, term, s, 1) == [];
  }

  /**
   * The trie of "a", "abc" and "b". Without `all_mode` the walk of "abd"
   * meets "a", goes on to "ab" and misses at `d`; the scan reports "a" and
   * resumes at the `d`, so the keyword "b" at index 1 is lost. Resuming
   * just past "a" finds it.
   */
  lemma LongestModeSkipsWalked(kids: seq<Kids>, term: seq<Option<string>>, paths: seq<string>, parent: seq<nat>, s: string)
    requires kids == [[('a', 1), ('b', 4)], [('b', 2)], [('c', 3)], [], []]
    requires term == [None, Some("a"), None, Some("abc"), Some("b")]
    requires paths == ["", "a", "ab", "abc", "b"] && parent == [0, 0, 1, 2, 0]
    requires s == "abd"
    ensures Shaped(kids, term, paths, parent) && TermSet(term) == {"a", "abc", "b"}
    ensures TrieLongest(kids, term, s, 0, 0) == ["a"]
    ensures FixedLongest(kids, term, s, 0) == ["a", "b"]
  {
    AAbcBShape(kids, term, paths, parent);
    assert Walk(kids, term, s, 2, 2) == Walked([], 2, 0);
    assert Walk(kids, term, s, 1, 1) == Walked([], 2, 0);
    assert Walk(kids, term, s, 0, 0) == Walked(["a"], 2, 0);
    assert Walk(kids, term, s, 2, 0) == Walked([], 2, 0);
    assert TrieLongest(kids, term, s, 3, 0) == [];
    assert TrieLongest(kids, term, s, 2, 0) == [];
    assert Pick(kids, term, s, 0) == Some("a");
    assert Walk(kids, term, s, 2, 4) == Walked([], 2, 0);
    assert Walk(kids, term, s, 1, 0) == Walked(["b"], 2, 0);
    assert Pick(kids, term, s, 1) == Some("b");
    assert Pick(kids, term, s, 2) == None;
    assert FixedLongest(kids, term, s, 3) == [];
    assert FixedLongest(kids, term, s, 2) == [];
    assert FixedLongest(kids, term, s, 1) == ["b"];
  }

  /**
   * The trie of "ab" and "b". With `all_mode` the walk of "ab" from index 0
   * reports "ab" and stops at node "ab"; the next start, index 1, is walked
   * from there, misses at `b` and so loses the keyword "b" the sentence
   * holds at index 1. Walking each start from the root reports both.
   */
  lemma AllModeLosesMatch(kids: seq<Kids>, term: seq<Option<string>>, paths: seq<string>, parent: seq<nat>, s: string)
    requires kids == [[('a', 1), ('b', 3)], [('b', 2)], [], []]
    requires term == [None, None, Some("ab"), Some("b")]
    requires paths == ["", "a", "ab", "b"] && parent == [0, 0, 1, 0]
    requires s == "ab"
    ensures Shaped(kids, term, paths, parent) && TermSet(term) == {"ab", "b"}
    ensures TrieAll(kids, term, s, 0, 0) == ["ab"]
    ensures FixedAll(kids, term, s, 0) == ["ab", "b"]
  {
    AbBShape(kids, term, paths, parent);
  }
}
