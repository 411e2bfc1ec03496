/**
 * The breadth-first walks over the nested dictionaries, shared by
 * `__build_links` and `get_all_keywords` of timing.py: both pop a node from
 * the front of a list and append its children in the order the node holds
 * them. `Frontier` is the state of such a walk between two pops.
 */
module Frontiers {
  import opened Options
  import opened TrieModel

  /** The child ids of a node, in the order its dictionary holds them. */
  function Ids(ks: Kids): (r: seq<nat>)
    ensures |r| == |ks| && forall j :: 0 <= j < |ks| ==> r[j] == ks[j].1
  {
    if ks == [] then [] else [ks[0].1] + Ids(ks[1..])
  }

  /** The last character of the path of a node below the root: the key its parent holds it under. */
  function LastChar(paths: seq<string>, v: nat): char
    requires v < |paths| && |paths[v]| > 0
  {
    paths[v][|paths[v]| - 1]
  }

  /**
   * `done` holds the nodes already popped, the queue holds, once each, the
   * other nodes whose parent is done, and before the first pop the queue is
   * the root alone.
   */
  ghost predicate Frontier(kids: seq<Kids>, term: seq<Option<string>>, paths: seq<string>, parent: seq<nat>,
                           queue: seq<nat>, done: set<nat>)
  {
    Shaped(kids, term, paths, parent) &&
    (forall v :: v in done ==> v < |kids|) &&
    (forall j :: 0 <= j < |queue| ==> queue[j] < |kids| && queue[j] !in done) &&
    (forall a, b :: 0 <= a < b < |queue| ==> queue[a] != queue[b]) &&
    (forall v :: 1 <= v < |kids| ==> (v in done || v in queue <==> parent[v] in done)) &&
    (done == {} ==> queue == [0]) && (done != {} ==> 0 in done)
  }

  // ---------------------------------------------------------------------------
  // The tree behind the dictionaries
  // ---------------------------------------------------------------------------

  /** A child listed by a node has that node as its parent. */
  lemma KidParent(kids: seq<Kids>, term: seq<Option<string>>, paths: seq<string>, parent: seq<nat>, u: nat, j: nat)
    requires Shaped(kids, term, paths, parent) && u < |kids| && j < |kids[u]|
    ensures var v := kids[u][j].1;
      1 <= v < |kids| && parent[v] == u && LastChar(paths, v) == kids[u][j].0
  {
    var v := kids[u][j].1;
    assert paths[v] == paths[u] + [kids[u][j].0];
    assert paths[v] == paths[parent[v]] + [LastChar(paths, v)];
    assert paths[parent[v]] == paths[v][..|paths[v]| - 1] == paths[u];
  }

  /** Every node below the root is listed by its parent. */
  lemma ListedByParent(kids: seq<Kids>, term: seq<Option<string>>, paths: seq<string>, parent: seq<nat>, v: nat)
    requires Shaped(kids, term, paths, parent) && 1 <= v < |kids|
    ensures v in Ids(kids[parent[v]])
  {
    var ks := kids[parent[v]];
    assert (LastChar(paths, v), v) in ks;
    var j :| 0 <= j < |ks| && ks[j] == (LastChar(paths, v), v);
    assert Ids(ks)[j] == v;
  }

  /** A node lists only its own children, and never the root. */
  lemma Unlisted(kids: seq<Kids>, term: seq<Option<string>>, paths: seq<string>, parent: seq<nat>, curr: nat, x: nat)
    requires Shaped(kids, term, paths, parent) && curr < |kids| && x < |kids|
    requires x == 0 || parent[x] != curr
    ensures x !in Ids(kids[curr])
  {
    var ids := Ids(kids[curr]);
    if x in ids {
      var j :| 0 <= j < |ids| && ids[j] == x;
      KidParent(kids, term, paths, parent, curr, j);
    }
  }

  /** A node lists each child once. */
  lemma IdsDistinct(kids: seq<Kids>, term: seq<Option<string>>, paths: seq<string>, parent: seq<nat>, u: nat)
    requires Shaped(kids, term, paths, parent) && u < |kids|
    ensures forall a, b :: 0 <= a < b < |kids[u]| ==> Ids(kids[u])[a] != Ids(kids[u])[b]
  {
    forall a, b | 0 <= a < b < |kids[u]| ensures kids[u][a].1 != kids[u][b].1 {
      KidParent(kids, term, paths, parent, u, a);
      KidParent(kids, term, paths, parent, u, b);
      assert kids[u][a].0 != kids[u][b].0;
    }
  }

  // ---------------------------------------------------------------------------
  // The steps
  // ---------------------------------------------------------------------------

  /** The list holds the root alone and nothing is done yet. */
  lemma FrontierInit(kids: seq<Kids>, term: seq<Option<string>>, paths: seq<string>, parent: seq<nat>)
    requires Shaped(kids, term, paths, parent)
    ensures Frontier(kids, term, paths, parent, [0], {})
  {
  }

  /** The node popped is not done yet; it is the root exactly at the first pop, and otherwise its parent is done. */
  lemma FrontierPop(kids: seq<Kids>, term: seq<Option<string>>, paths: seq<string>, parent: seq<nat>,
                    queue: seq<nat>, done: set<nat>)
    requires Frontier(kids, term, paths, parent, queue, done) && queue != []
    ensures queue == [queue[0]] + queue[1..]
    ensures queue[0] < |kids| && queue[0] !in done && (done == {} <==> queue[0] == 0)
    ensures queue[0] != 0 ==> parent[queue[0]] in done
  {
    var curr := queue[0];
    assert queue == [curr] + queue[1..];
    assert curr in queue;
  }

  /** Popping `curr` and appending its children keeps the state, with `curr` done. */
  lemma FrontierNext(kids: seq<Kids>, term: seq<Option<string>>, paths: seq<string>, parent: seq<nat>,
                     rest: seq<nat>, done: set<nat>, curr: nat, queue: seq<nat>)
    requires Frontier(kids, term, paths, parent, [curr] + rest, done)
    requires curr < |kids| && queue == rest + Ids(kids[curr])
    ensures Frontier(kids, term, paths, parent, queue, done + {curr})
  {
    var ids := Ids(kids[curr]);
    assert ([curr] + rest)[0] == curr;
    IdsDistinct(kids, term, paths, parent, curr);
    RestOfQueue(curr, rest, done, |kids|);
    ChildrenFresh(kids, term, paths, parent, rest, done, curr, ids);
    AppendDistinct(rest, ids, done + {curr}, |kids|);
    FrontierReach(kids, term, paths, parent, rest, done, curr, queue);
  }

  /** The children of a node not yet done are neither done nor queued. */
  lemma ChildrenFresh(kids: seq<Kids>, term: seq<Option<string>>, paths: seq<string>, parent: seq<nat>,
                      rest: seq<nat>, done: set<nat>, curr: nat, ids: seq<nat>)
    requires Frontier(kids, term, paths, parent, [curr] + rest, done) && curr < |kids| && curr !in done
    requires ids == Ids(kids[curr])
    ensures forall j :: 0 <= j < |ids| ==> ids[j] < |kids| && ids[j] !in done + {curr} && ids[j] !in rest
  {
    assert forall x :: x in rest ==> x in [curr] + rest;
    forall j | 0 <= j < |ids| ensures ids[j] < |kids| && ids[j] !in done + {curr} && ids[j] !in rest {
      KidParent(kids, term, paths, parent, curr, j);
    }
  }

  /** After the children of `curr` are appended, the nodes done or queued are those whose parent is done or is `curr`. */
  lemma FrontierReach(kids: seq<Kids>, term: seq<Option<string>>, paths: seq<string>, parent: seq<nat>,
                      rest: seq<nat>, done: set<nat>, curr: nat, queue: seq<nat>)
    requires Frontier(kids, term, paths, parent, [curr] + rest, done)
    requires curr < |kids| && queue == rest + Ids(kids[curr])
    ensures forall v :: 1 <= v < |kids| ==> (v in done + {curr} || v in queue <==> parent[v] in done + {curr})
  {
    var ids := Ids(kids[curr]);
    forall v | 1 <= v < |kids| ensures v in done + {curr} || v in queue <==> parent[v] in done + {curr} {
      if parent[v] == curr {
        ListedByParent(kids, term, paths, parent, v);
      }
      if v in ids {
        var j :| 0 <= j < |ids| && ids[j] == v;
        KidParent(kids, term, paths, parent, curr, j);
      }
      assert v in [curr] + rest <==> v == curr || v in rest;
    }
  }

  /** What the old queue says of its rest once `curr` is taken from its front. */
  lemma RestOfQueue(curr: nat, rest: seq<nat>, done: set<nat>, n: nat)
    requires forall j :: 0 <= j < |[curr] + rest| ==> ([curr] + rest)[j] < n && ([curr] + rest)[j] !in done
    requires forall a, b :: 0 <= a < b < |[curr] + rest| ==> ([curr] + rest)[a] != ([curr] + rest)[b]
    ensures forall j :: 0 <= j < |rest| ==> rest[j] < n && rest[j] !in done + {curr}
    ensures forall a, b :: 0 <= a < b < |rest| ==> rest[a] != rest[b]
  {
    var q0 := [curr] + rest;
    forall j | 0 <= j < |rest| ensures rest[j] < n && rest[j] !in done + {curr} {
      assert rest[j] == q0[j + 1] && curr == q0[0];
    }
    forall a, b | 0 <= a < b < |rest| ensures rest[a] != rest[b] {
      assert rest[a] == q0[a + 1] && rest[b] == q0[b + 1];
    }
  }

  /** Two queues without repeats, the second holding none of the first, make one without repeats. */
  lemma AppendDistinct(a: seq<nat>, b: seq<nat>, out: set<nat>, n: nat)
    requires forall j :: 0 <= j < |a| ==> a[j] < n && a[j] !in out
    requires forall j :: 0 <= j < |b| ==> b[j] < n && b[j] !in out && b[j] !in a
    requires forall x, y :: 0 <= x < y < |a| ==> a[x] != a[y]
    requires forall x, y :: 0 <= x < y < |b| ==> b[x] != b[y]
    ensures forall j :: 0 <= j < |a + b| ==> (a + b)[j] < n && (a + b)[j] !in out
    ensures forall x, y :: 0 <= x < y < |a + b| ==> (a + b)[x] != (a + b)[y]
  {
    var q := a + b;
    forall j | 0 <= j < |q| ensures q[j] < n && q[j] !in out {
      if j >= |a| { assert q[j] == b[j - |a|]; }
    }
    forall x, y | 0 <= x < y < |q| ensures q[x] != q[y] {
      if y < |a| {
      } else if x >= |a| {
        assert q[x] == b[x - |a|] && q[y] == b[y - |a|];
      } else {
        assert q[x] in a && q[y] == b[y - |a|];
      }
    }
  }

  /** Appending the next child id to the queue. */
  lemma QueueStep(rest: seq<nat>, ids: seq<nat>, i: nat)
    requires i < |ids|
    ensures rest + ids[..i] + [ids[i]] == rest + ids[..i + 1]
    ensures ids[..i + 1] == ids[..i] + [ids[i]]
  {
    assert ids[..i + 1] == ids[..i] + [ids[i]];
  }

  /** Once the list is empty every node is done. */
  lemma FrontierEnd(kids: seq<Kids>, term: seq<Option<string>>, paths: seq<string>, parent: seq<nat>, done: set<nat>)
    requires Frontier(kids, term, paths, parent, [], done)
    ensures forall v :: 0 <= v < |kids| ==> v in done
  {
    forall v | 0 <= v < |kids| ensures v in done {
      AllDone(kids, term, paths, parent, done, v);
    }
  }

  lemma {:induction false} AllDone(kids: seq<Kids>, term: seq<Option<string>>, paths: seq<string>, parent: seq<nat>,
                                   done: set<nat>, v: nat)
    requires Frontier(kids, term, paths, parent, [], done) && v < |kids|
    ensures v in done
    decreases v
  {
    if v != 0 {
      AllDone(kids, term, paths, parent, done, parent[v]);
    }
  }

  /** A set of node ids below `n` has at most `n` elements. */
  lemma {:induction false} DoneBound(done: set<nat>, n: nat)
    requires forall v :: v in done ==> v < n
    ensures |done| <= n
    decreases n
  {
    if n > 0 {
      var rest := done - {n - 1};
      DoneBound(rest, n - 1);
      assert done <= rest + {n - 1};
    }
  }

}
