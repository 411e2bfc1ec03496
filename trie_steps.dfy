/**
 * The invariant the `Trie` methods keep and one-step facts about the tables,
 * kept apart from the class so that the methods meet them as whole facts.
 */
module TrieSteps {
  import opened Options
  import opened Text
  import opened PrefixScan
  import opened TrieModel

  /** What every method of `Trie` keeps: the tables form a trie and every link is proper. */
  ghost predicate TrieInv(kids: seq<Kids>, term: seq<Option<string>>, repl: seq<Option<string>>,
                          fail: seq<Option<nat>>, paths: seq<string>, parent: seq<nat>) {
    Shaped(kids, term, paths, parent) && |repl| == |kids| && LinksOK(fail, paths)
  }

  /** The nodes of `kids0` keep their paths and their children (and may gain more). */
  ghost predicate Extends(kids0: seq<Kids>, paths0: seq<string>, kids: seq<Kids>, paths: seq<string>) {
    |kids0| <= |kids| && |kids0| <= |paths| && paths0 == paths[..|kids0|] &&
    forall v :: 0 <= v < |kids0| ==> kids0[v] <= kids[v]
  }

  /** The `"**"` and `"&&"` entries of the old nodes are kept and the new nodes have none. */
  ghost predicate EntriesKept(term0: seq<Option<string>>, repl0: seq<Option<string>>,
                              term: seq<Option<string>>, repl: seq<Option<string>>) {
    |term0| <= |term| && |repl| == |term| && |repl0| == |term0| &&
    forall v :: 0 <= v < |term| ==>
      if v < |term0| then term[v] == term0[v] && repl[v] == repl0[v]
      else term[v] == None && repl[v] == None
  }

  /** The link of the node spelling `p` is cleared, and every other link below the root is kept. */
  ghost predicate ClearedAt(fail0: seq<Option<nat>>, fail: seq<Option<nat>>, paths: seq<string>, p: string) {
    |fail| == |paths| &&
    forall v :: 0 < v < |fail| ==>
      if paths[v] == p then fail[v] == None else v < |fail0| && fail[v] == fail0[v]
  }

  /** The links of the nodes spelling prefixes of `p` are cleared, and the others below the root are kept. */
  ghost predicate ClearedAlong(fail0: seq<Option<nat>>, fail: seq<Option<nat>>, paths: seq<string>, p: string) {
    |fail| == |paths| &&
    forall v :: 0 < v < |fail| ==>
      if IsPrefixOf(paths[v], p) then fail[v] == None else v < |fail0| && fail[v] == fail0[v]
  }

  /**
   * `setdefault` finding the child `v` for `c = w[k]` of the node `u` that
   * spells `w[..k]`, followed by clearing the link of `v` (giving `fail'`).
   */
  lemma DescendFound(kids: seq<Kids>, term: seq<Option<string>>, repl: seq<Option<string>>,
                     fail: seq<Option<nat>>, paths: seq<string>, parent: seq<nat>, u: nat, c: char,
                     w: string, k: nat, v: nat, fail': seq<Option<nat>>)
    requires TrieInv(kids, term, repl, fail, paths, parent) && u < |kids|
    requires k < |w| && c == w[k] && paths[u] == w[..k]
    requires Child(kids[u], c) == Some(v) && v < |fail| && fail' == fail[v := None]
    ensures TrieInv(kids, term, repl, fail', paths, parent)
    ensures v < |kids| && paths[v] == w[..k + 1]
    ensures AddFrom(TableOf(term, paths), w, k + 1) == AddFrom(TableOf(term, paths), w, k)
    ensures Extends(kids, paths, kids, paths) && EntriesKept(term, repl, term, repl)
    ensures ClearedAt(fail, fail', paths, w[..k + 1])
  {
    assert w[..k + 1] == paths[u] + [c];
    ChildNode(kids, term, paths, parent, u, c);
    LinksClear(fail, paths, v);
    forall x | 0 < x < |fail| && paths[x] == w[..k + 1] ensures x == v {
      assert paths[x] == paths[v];
    }
  }

  /**
   * `setdefault` adding a new child for `c = w[k]` to the node `u` that
   * spells `w[..k]`: the primed tables, where the new node has no entries.
   */
  lemma DescendGrow(kids: seq<Kids>, term: seq<Option<string>>, repl: seq<Option<string>>,
                    fail: seq<Option<nat>>, paths: seq<string>, parent: seq<nat>, u: nat, c: char,
                    w: string, k: nat,
                    kids': seq<Kids>, term': seq<Option<string>>, repl': seq<Option<string>>,
                    fail': seq<Option<nat>>, paths': seq<string>, parent': seq<nat>)
    requires TrieInv(kids, term, repl, fail, paths, parent) && u < |kids|
    requires k < |w| && c == w[k] && paths[u] == w[..k] && Child(kids[u], c).None?
    requires kids' == GrowKids(kids, u, c) && term' == term + [None] && repl' == repl + [None]
    requires fail' == fail + [None] && paths' == paths + [paths[u] + [c]] && parent' == parent + [u]
    ensures TrieInv(kids', term', repl', fail', paths', parent')
    ensures |kids| < |kids'| && paths'[|kids|] == w[..k + 1]
    ensures AddFrom(TableOf(term', paths'), w, k + 1) == AddFrom(TableOf(term, paths), w, k)
    ensures Extends(kids, paths, kids', paths') && EntriesKept(term, repl, term', repl')
    ensures ClearedAt(fail, fail', paths', w[..k + 1])
  {
    assert w[..k + 1] == paths[u] + [c];
    GrowShape(kids, term, paths, parent, u, c);
    LinksGrow(fail, paths, paths[u] + [c]);
    assert paths == paths'[..|kids|];
    forall x | 0 < x < |kids| ensures paths'[x] != paths[u] + [c] {
      TableOfNode(term, paths, x);
    }
  }

  /**
   * The `"**"` and `"&&"` entries of the old nodes other than `at` are kept
   * and the new nodes other than `at` have none.
   */
  ghost predicate EntriesKeptBut(term0: seq<Option<string>>, repl0: seq<Option<string>>,
                                 term: seq<Option<string>>, repl: seq<Option<string>>, at: nat) {
    |term0| <= |term| && |repl| == |term| && |repl0| == |term0| &&
    forall v :: 0 <= v < |term| && v != at ==>
      if v < |term0| then term[v] == term0[v] && repl[v] == repl0[v]
      else term[v] == None && repl[v] == None
  }

  /** From the tables at the start of `__insert` (suffix 0), to before a step (1), to after it (2). */
  lemma InsertStep(kids0: seq<Kids>, paths0: seq<string>, term0: seq<Option<string>>, repl0: seq<Option<string>>, fail0: seq<Option<nat>>,
                   kids1: seq<Kids>, paths1: seq<string>, term1: seq<Option<string>>, repl1: seq<Option<string>>, fail1: seq<Option<nat>>,
                   kids2: seq<Kids>, paths2: seq<string>, term2: seq<Option<string>>, repl2: seq<Option<string>>, fail2: seq<Option<nat>>,
                   w: string, k: nat)
    requires k < |w|
    requires Extends(kids0, paths0, kids1, paths1) && EntriesKept(term0, repl0, term1, repl1)
    requires ClearedAlong(fail0, fail1, paths1, w[..k])
    requires Extends(kids1, paths1, kids2, paths2) && EntriesKept(term1, repl1, term2, repl2)
    requires ClearedAt(fail1, fail2, paths2, w[..k + 1])
    ensures Extends(kids0, paths0, kids2, paths2) && EntriesKept(term0, repl0, term2, repl2)
    ensures ClearedAlong(fail0, fail2, paths2, w[..k + 1])
  {
    forall v | 0 <= v < |kids0| ensures kids0[v] <= kids2[v] {
      assert kids0[v] <= kids1[v] && kids1[v] <= kids2[v];
    }
    assert paths1 == paths2[..|kids1|];
    forall v | 0 < v < |fail2|
      ensures if IsPrefixOf(paths2[v], w[..k + 1]) then fail2[v] == None else v < |fail0| && fail2[v] == fail0[v]
    {
      assert IsPrefixOf(paths2[v], w[..k + 1]) <==> IsPrefixOf(paths2[v], w[..k]) || paths2[v] == w[..k + 1];
      if paths2[v] != w[..k + 1] {
        assert v < |fail1| && fail2[v] == fail1[v];
        assert paths2[v] == paths1[v];
      }
    }
  }

  /** Storing the keyword `w` and its replacement `r` at the node that spells `w`. */
  lemma SetTerm(kids: seq<Kids>, term: seq<Option<string>>, repl: seq<Option<string>>,
                fail: seq<Option<nat>>, paths: seq<string>, parent: seq<nat>, v: nat, w: string, r: Option<string>,
                term0: seq<Option<string>>, repl0: seq<Option<string>>, t0: Table,
                term': seq<Option<string>>, repl': seq<Option<string>>)
    requires TrieInv(kids, term, repl, fail, paths, parent) && v < |kids| && paths[v] == w
    requires EntriesKept(term0, repl0, term, repl)
    requires AddFrom(TableOf(term, paths), w, |w|) == AddWord(t0, w)
    requires w == [] ==> TableOf(term, paths) == t0
    requires term' == term[v := Some(w)] && repl' == repl[v := r]
    ensures TrieInv(kids, term', repl', fail, paths, parent)
    ensures TableOf(term', paths) == if w == [] then t0 else AddWord(t0, w)
    ensures EntriesKeptBut(term0, repl0, term', repl', v)
  {
    SetTermShape(kids, term, paths, parent, v);
    if v != 0 {
      assert paths[v] != paths[0];
    }
  }

  lemma ExtendsRefl(kids: seq<Kids>, paths: seq<string>)
    requires |paths| == |kids|
    ensures Extends(kids, paths, kids, paths)
  {
  }

  lemma EntriesKeptRefl(term: seq<Option<string>>, repl: seq<Option<string>>)
    requires |repl| == |term|
    ensures EntriesKept(term, repl, term, repl)
  {
  }

  /** Before the first step only the root spells a prefix of `w[..0]`, and it is not counted. */
  lemma ClearedAlongInit(fail: seq<Option<nat>>, paths: seq<string>, w: string)
    requires |fail| == |paths| && Injective(paths) && |paths| >= 1 && paths[0] == []
    ensures ClearedAlong(fail, fail, paths, w[..0])
  {
    forall v | 0 < v < |fail| ensures !IsPrefixOf(paths[v], w[..0]) {
      assert paths[v] != paths[0];
    }
  }

}
