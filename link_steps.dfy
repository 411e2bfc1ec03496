/**
 * The breadth-first walk of `__build_links` on the tables of `TrieModel`:
 * the state of its two loops as predicates, and one lemma per step.
 */
module LinkSteps {
  import opened Options
  import opened TrieModel
  import opened TrieSteps
  import opened Frontiers

  /**
   * The state of the `while queue` loop: a breadth-first `Frontier` in
   * which `is_root` holds until the root is popped and every child of a done
   * node has the link `OneHop` gives.
   */
  ghost predicate Bfs(kids: seq<Kids>, term: seq<Option<string>>, repl: seq<Option<string>>, fail: seq<Option<nat>>,
                      paths: seq<string>, parent: seq<nat>, queue: seq<nat>, done: set<nat>, isRoot: bool)
  {
    TrieInv(kids, term, repl, fail, paths, parent) &&
    Frontier(kids, term, paths, parent, queue, done) &&
    (isRoot <==> done == {}) &&
    (forall v :: 1 <= v < |kids| && parent[v] in done ==> fail[v].Some? && fail[v].value < |kids|) &&
    (forall v :: 1 <= v < |kids| && parent[v] in done ==>
       fail[v] == Some(OneHop(kids, fail, parent[v], LastChar(paths, v))))
  }

  /**
   * The state of the `for k, v in curr.items()` loop over the node `curr`,
   * taken from the front of the queue of the outer state (whose links are
   * `fail0`), after the first `i` children: they are at the end of the
   * queue and have their links.
   */
  ghost predicate Visiting(kids: seq<Kids>, term: seq<Option<string>>, repl: seq<Option<string>>, fail0: seq<Option<nat>>,
                           paths: seq<string>, parent: seq<nat>, rest: seq<nat>, done: set<nat>, isRoot: bool,
                           curr: nat, i: nat, fail: seq<Option<nat>>, queue: seq<nat>)
  {
    Bfs(kids, term, repl, fail0, paths, parent, [curr] + rest, done, isRoot) &&
    curr < |kids| && i <= |kids[curr]| && queue == rest + Ids(kids[curr])[..i] &&
    TrieInv(kids, term, repl, fail, paths, parent) &&
    forall v :: 1 <= v < |kids| ==>
      if v in Ids(kids[curr])[..i] then fail[v] == Some(OneHop(kids, fail0, curr, LastChar(paths, v)))
      else fail[v] == fail0[v]
  }

  // ---------------------------------------------------------------------------
  // The steps
  // ---------------------------------------------------------------------------

  /** `queue = [self.root]` and `is_root = True`. */
  lemma BfsInit(kids: seq<Kids>, term: seq<Option<string>>, repl: seq<Option<string>>, fail: seq<Option<nat>>,
                paths: seq<string>, parent: seq<nat>)
    requires TrieInv(kids, term, repl, fail, paths, parent)
    ensures Bfs(kids, term, repl, fail, paths, parent, [0], {}, true)
  {
    FrontierInit(kids, term, paths, parent);
  }

  /**
   * `curr = queue.pop(0)`: a node not yet done, the root exactly while
   * `is_root` holds, and otherwise a node with a link.
   */
  lemma BfsPop(kids: seq<Kids>, term: seq<Option<string>>, repl: seq<Option<string>>, fail: seq<Option<nat>>,
               paths: seq<string>, parent: seq<nat>, queue: seq<nat>, done: set<nat>, isRoot: bool)
    requires Bfs(kids, term, repl, fail, paths, parent, queue, done, isRoot) && queue != []
    ensures var curr := queue[0];
      curr < |kids| && curr !in done && (isRoot <==> curr == 0) &&
      (curr != 0 ==> fail[curr].Some? && fail[curr].value < |kids|) &&
      Visiting(kids, term, repl, fail, paths, parent, queue[1..], done, isRoot, curr, 0, fail, queue[1..])
  {
    FrontierPop(kids, term, paths, parent, queue, done);
  }

  /** `v[self._fail] = …` and `queue.append(v)` for the child `i` of `curr`. */
  lemma BfsVisit(kids: seq<Kids>, term: seq<Option<string>>, repl: seq<Option<string>>, fail0: seq<Option<nat>>,
                 paths: seq<string>, parent: seq<nat>, rest: seq<nat>, done: set<nat>, isRoot: bool,
                 curr: nat, i: nat, fail: seq<Option<nat>>, queue: seq<nat>, x: nat)
    requires Visiting(kids, term, repl, fail0, paths, parent, rest, done, isRoot, curr, i, fail, queue)
    requires i < |kids[curr]| && (curr != 0 ==> fail[curr].Some? && fail[curr].value < |kids|)
    requires x == OneHop(kids, fail, curr, kids[curr][i].0)
    ensures Visiting(kids, term, repl, fail0, paths, parent, rest, done, isRoot, curr, i + 1,
                     fail[kids[curr][i].1 := Some(x)], queue + [kids[curr][i].1])
  {
    var v, c := kids[curr][i].1, kids[curr][i].0;
    var ids := Ids(kids[curr]);
    KidParent(kids, term, paths, parent, curr, i);
    IdsDistinct(kids, term, paths, parent, curr);
    assert v !in ids[..i] by {
      forall j | 0 <= j < i ensures ids[..i][j] != v {
        assert ids[j] != ids[i];
      }
    }
    assert curr !in ids[..i];
    OneHopSuffix(kids, term, fail, paths, parent, curr, c);
    LinksSet(fail, paths, v, x);
    VisitLinks(kids, fail0, paths, curr, i, fail, v, x);
    QueueStep(rest, ids, i);
  }

  /** The links after setting the one of the child `v = kids[curr][i].1`. */
  lemma VisitLinks(kids: seq<Kids>, fail0: seq<Option<nat>>, paths: seq<string>, curr: nat, i: nat,
                   fail: seq<Option<nat>>, v: nat, x: nat)
    requires curr < |kids| == |fail0| == |fail| == |paths| && i < |kids[curr]|
    requires curr != 0 ==> fail0[curr].Some? && fail0[curr].value < |kids|
    requires forall u :: 1 <= u < |kids| && |paths[u]| > 0 ==>
      if u in Ids(kids[curr])[..i] then fail[u] == Some(OneHop(kids, fail0, curr, LastChar(paths, u)))
      else fail[u] == fail0[u]
    requires v == kids[curr][i].1 && 1 <= v < |kids| && |paths[v]| > 0 && LastChar(paths, v) == kids[curr][i].0
    requires v !in Ids(kids[curr])[..i] && x == OneHop(kids, fail0, curr, LastChar(paths, v))
    ensures forall u :: 1 <= u < |kids| && |paths[u]| > 0 ==>
      if u in Ids(kids[curr])[..i + 1] then fail[v := Some(x)][u] == Some(OneHop(kids, fail0, curr, LastChar(paths, u)))
      else fail[v := Some(x)][u] == fail0[u]
  {
    var ids := Ids(kids[curr]);
    assert ids[..i + 1] == ids[..i] + [v];
  }

  /** The inner loop is over: `curr` is done and `is_root` is cleared. */
  lemma BfsNext(kids: seq<Kids>, term: seq<Option<string>>, repl: seq<Option<string>>, fail0: seq<Option<nat>>,
                paths: seq<string>, parent: seq<nat>, rest: seq<nat>, done: set<nat>, isRoot: bool,
                curr: nat, fail: seq<Option<nat>>, queue: seq<nat>)
    requires curr < |kids| && Visiting(kids, term, repl, fail0, paths, parent, rest, done, isRoot, curr, |kids[curr]|, fail, queue)
    ensures Bfs(kids, term, repl, fail, paths, parent, queue, done + {curr}, false)
  {
    var ids := Ids(kids[curr]);
    assert ids[..|ids|] == ids;
    FrontierNext(kids, term, paths, parent, rest, done, curr, queue);
    NextLinks(kids, term, repl, fail0, paths, parent, rest, done, isRoot, curr, fail, queue);
  }

  /** After the inner loop every child of a done node, `curr` now included, has its link. */
  lemma NextLinks(kids: seq<Kids>, term: seq<Option<string>>, repl: seq<Option<string>>, fail0: seq<Option<nat>>,
                  paths: seq<string>, parent: seq<nat>, rest: seq<nat>, done: set<nat>, isRoot: bool,
                  curr: nat, fail: seq<Option<nat>>, queue: seq<nat>)
    requires curr < |kids| && Visiting(kids, term, repl, fail0, paths, parent, rest, done, isRoot, curr, |kids[curr]|, fail, queue)
    ensures forall v :: 1 <= v < |kids| && parent[v] in done + {curr} ==> fail[v].Some? && fail[v].value < |kids|
    ensures forall v :: 1 <= v < |kids| && parent[v] in done + {curr} ==>
       fail[v] == Some(OneHop(kids, fail, parent[v], LastChar(paths, v)))
  {
    forall v | 1 <= v < |kids| && parent[v] in done + {curr}
      ensures fail[v].Some? && fail[v].value < |kids| && fail[v] == Some(OneHop(kids, fail, parent[v], LastChar(paths, v)))
    {
      NextLink(kids, term, repl, fail0, paths, parent, rest, done, isRoot, curr, fail, queue, v);
    }
  }

  /** `NextLinks` for one node `v`. */
  lemma NextLink(kids: seq<Kids>, term: seq<Option<string>>, repl: seq<Option<string>>, fail0: seq<Option<nat>>,
                 paths: seq<string>, parent: seq<nat>, rest: seq<nat>, done: set<nat>, isRoot: bool,
                 curr: nat, fail: seq<Option<nat>>, queue: seq<nat>, v: nat)
    requires curr < |kids| && Visiting(kids, term, repl, fail0, paths, parent, rest, done, isRoot, curr, |kids[curr]|, fail, queue)
    requires 1 <= v < |kids| && parent[v] in done + {curr}
    ensures fail[v].Some? && fail[v].value < |kids| && fail[v] == Some(OneHop(kids, fail, parent[v], LastChar(paths, v)))
  {
    var ids := Ids(kids[curr]);
    assert ids[..|ids|] == ids;
    var u, c := parent[v], LastChar(paths, v);
    assert u < v;
    assert [curr] + rest == [curr] + rest[..];
    assert curr !in done by { assert ([curr] + rest)[0] == curr; }
    assert u == 0 || parent[u] != curr by {
      if u != 0 && u != curr {
        assert u in done;
        assert parent[u] in done;
      }
    }
    Unlisted(kids, term, paths, parent, curr, u);
    assert u == 0 || fail[u] == fail0[u];
    assert curr in [curr] + rest;
    if u == curr {
      ListedByParent(kids, term, paths, parent, v);
      assert fail[v] == Some(OneHop(kids, fail0, curr, c));
      OneHopSuffix(kids, term, fail0, paths, parent, curr, c);
    } else {
      Unlisted(kids, term, paths, parent, curr, v);
      assert fail[v] == fail0[v];
      assert fail0[v] == Some(OneHop(kids, fail0, u, c));
    }
    assert OneHop(kids, fail, u, c) == OneHop(kids, fail0, u, c);
  }

  /** Once the queue is empty every node is done, so every node below the root has its link. */
  lemma BfsEnd(kids: seq<Kids>, term: seq<Option<string>>, repl: seq<Option<string>>, fail: seq<Option<nat>>,
               paths: seq<string>, parent: seq<nat>, done: set<nat>, isRoot: bool)
    requires Bfs(kids, term, repl, fail, paths, parent, [], done, isRoot)
    ensures Linked(kids, fail, paths, parent)
  {
    FrontierEnd(kids, term, paths, parent, done);
  }

}
