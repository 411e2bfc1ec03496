/**
 * The breadth-first walk of `get_all_keywords` in timing.py: the ghost list
 * `order` of the nodes appended so far, and the keywords they hold.
 */
module KeywordLists {
  import opened Options
  import opened TrieModel
  import opened Frontiers

  /** The `"**"` entries of the nodes of `order`, in that order, for the nodes that hold one. */
  function Terms(term: seq<Option<string>>, order: seq<nat>): seq<string>
    requires forall j :: 0 <= j < |order| ==> order[j] < |term|
  {
    if order == [] then [] else Terms(term, order[..|order| - 1]) + MetAt(term, order[|order| - 1])
  }

  /**
   * The state of the `while len(currents) > 0` loop: a breadth-first
   * `Frontier` in which `order` lists, once each, the nodes appended to the
   * list so far, which are those whose parent is done.
   */
  ghost predicate Gathering(kids: seq<Kids>, term: seq<Option<string>>, paths: seq<string>, parent: seq<nat>,
                            queue: seq<nat>, done: set<nat>, order: seq<nat>)
  {
    Frontier(kids, term, paths, parent, queue, done) &&
    (forall j :: 0 <= j < |order| ==> 1 <= order[j] < |kids|) &&
    (forall a, b :: 0 <= a < b < |order| ==> order[a] != order[b]) &&
    (forall v :: 1 <= v < |kids| ==> (v in order <==> parent[v] in done))
  }

  // ---------------------------------------------------------------------------
  // The steps of the walk
  // ---------------------------------------------------------------------------

  /** `currents = [self.root]`, before anything is listed. */
  lemma GatherInit(kids: seq<Kids>, term: seq<Option<string>>, paths: seq<string>, parent: seq<nat>)
    requires Shaped(kids, term, paths, parent)
    ensures Gathering(kids, term, paths, parent, [0], {}, [])
  {
    FrontierInit(kids, term, paths, parent);
  }

  /** `current = currents.pop(0)` takes a node not yet done. */
  lemma GatherPop(kids: seq<Kids>, term: seq<Option<string>>, paths: seq<string>, parent: seq<nat>,
                  queue: seq<nat>, done: set<nat>, order: seq<nat>)
    requires Gathering(kids, term, paths, parent, queue, done, order) && queue != []
    ensures queue == [queue[0]] + queue[1..] && queue[0] < |kids| && queue[0] !in done
  {
    FrontierPop(kids, term, paths, parent, queue, done);
  }

  /** After the children of `curr` are appended to the list and to `order`, `curr` is done. */
  lemma GatherNext(kids: seq<Kids>, term: seq<Option<string>>, paths: seq<string>, parent: seq<nat>,
                   rest: seq<nat>, done: set<nat>, order: seq<nat>, curr: nat, queue: seq<nat>, order': seq<nat>)
    requires Gathering(kids, term, paths, parent, [curr] + rest, done, order) && curr < |kids| && curr !in done
    requires queue == rest + Ids(kids[curr]) && order' == order + Ids(kids[curr])
    ensures Gathering(kids, term, paths, parent, queue, done + {curr}, order')
  {
    FrontierNext(kids, term, paths, parent, rest, done, curr, queue);
    var ids := Ids(kids[curr]);
    IdsDistinct(kids, term, paths, parent, curr);
    forall j | 0 <= j < |ids| ensures 1 <= ids[j] < |kids| && ids[j] !in order {
      KidParent(kids, term, paths, parent, curr, j);
    }
    AppendDistinct(order, ids, {}, |kids|);
    forall v | 1 <= v < |kids| ensures v in order' <==> parent[v] in done + {curr} {
      if parent[v] == curr {
        ListedByParent(kids, term, paths, parent, v);
      }
      if v in ids {
        var j :| 0 <= j < |ids| && ids[j] == v;
        KidParent(kids, term, paths, parent, curr, j);
      }
      assert v in order' <==> v in order || v in ids;
    }
  }

  /** Once the list is empty every node below the root has been appended. */
  lemma GatherEnd(kids: seq<Kids>, term: seq<Option<string>>, paths: seq<string>, parent: seq<nat>,
                  done: set<nat>, order: seq<nat>)
    requires Gathering(kids, term, paths, parent, [], done, order)
    ensures forall v :: 1 <= v < |kids| ==> v in order
  {
    FrontierEnd(kids, term, paths, parent, done);
  }

  /** One turn of the `for key in current` loop: the `i`-th child of `curr` is appended to both lists. */
  lemma ListStep(kids: seq<Kids>, term: seq<Option<string>>, paths: seq<string>, parent: seq<nat>, curr: nat, i: nat,
                 queue0: seq<nat>, order0: seq<nat>, queue: seq<nat>, order: seq<nat>)
    requires InRange(kids) && |term| == |kids| && curr < |kids| && i < |kids[curr]|
    requires queue == queue0 + Ids(kids[curr])[..i] && order == order0 + Ids(kids[curr])[..i]
    requires forall j :: 0 <= j < |order| ==> order[j] < |term|
    ensures var v := kids[curr][i].1;
      v < |term| && queue + [v] == queue0 + Ids(kids[curr])[..i + 1] && order + [v] == order0 + Ids(kids[curr])[..i + 1] &&
      (forall j :: 0 <= j < |order + [v]| ==> (order + [v])[j] < |term|) &&
      Terms(term, order + [v]) == Terms(term, order) + MetAt(term, v)
  {
    var v := kids[curr][i].1;
    var ids := Ids(kids[curr]);
    QueueStep(queue0, ids, i);
    QueueStep(order0, ids, i);
    TermsSnoc(term, order, v);
  }

  // ---------------------------------------------------------------------------
  // The keywords of a list of nodes
  // ---------------------------------------------------------------------------

  /** Appending a node appends its keyword, if it has one. */
  lemma TermsSnoc(term: seq<Option<string>>, order: seq<nat>, v: nat)
    requires forall j :: 0 <= j < |order| ==> order[j] < |term|
    requires v < |term|
    ensures Terms(term, order + [v]) == Terms(term, order) + MetAt(term, v)
  {
    assert (order + [v])[..|order|] == order;
  }

  /** A string is listed exactly when a node of the list holds it. */
  lemma {:induction false} TermsMembers(term: seq<Option<string>>, order: seq<nat>)
    requires forall j :: 0 <= j < |order| ==> order[j] < |term|
    ensures forall w :: w in Terms(term, order) <==> exists j :: 0 <= j < |order| && term[order[j]] == Some(w)
    decreases |order|
  {
    if order != [] {
      var o0, last := order[..|order| - 1], order[|order| - 1];
      TermsMembers(term, o0);
      forall w ensures w in Terms(term, order) <==> exists j :: 0 <= j < |order| && term[order[j]] == Some(w) {
        if w in Terms(term, order) {
          if w in Terms(term, o0) {
            var j :| 0 <= j < |o0| && term[o0[j]] == Some(w);
            assert order[j] == o0[j];
          } else {
            assert term[order[|order| - 1]] == Some(w);
          }
        }
        if exists j :: 0 <= j < |order| && term[order[j]] == Some(w) {
          var j :| 0 <= j < |order| && term[order[j]] == Some(w);
          if j < |o0| {
            assert o0[j] == order[j];
          }
        }
      }
    }
  }

  /** Distinct nodes hold distinct keywords, so a list without repeated nodes lists no keyword twice. */
  lemma {:induction false} TermsDistinct(term: seq<Option<string>>, paths: seq<string>, order: seq<nat>)
    requires |term| == |paths| && TermsArePaths(term, paths) && Injective(paths)
    requires forall j :: 0 <= j < |order| ==> order[j] < |term|
    requires forall a, b :: 0 <= a < b < |order| ==> order[a] != order[b]
    ensures forall a, b :: 0 <= a < b < |Terms(term, order)| ==> Terms(term, order)[a] != Terms(term, order)[b]
    decreases |order|
  {
    if order != [] {
      var o0, last := order[..|order| - 1], order[|order| - 1];
      TermsDistinct(term, paths, o0);
      var ws := Terms(term, o0);
      if term[last].Some? {
        var x := term[last].value;
        TermsMembers(term, o0);
        forall j | 0 <= j < |o0| ensures term[o0[j]] != Some(x) {
          assert o0[j] == order[j] && paths[o0[j]] != paths[last];
        }
        forall a, b | 0 <= a < b < |ws + [x]| ensures (ws + [x])[a] != (ws + [x])[b] {
          if b == |ws| {
            assert (ws + [x])[a] in ws;
          }
        }
      }
    }
  }

  /** A list holding every node below the root once lists every keyword of the trie once. */
  lemma AllTerms(kids: seq<Kids>, term: seq<Option<string>>, paths: seq<string>, parent: seq<nat>, order: seq<nat>)
    requires Shaped(kids, term, paths, parent)
    requires forall j :: 0 <= j < |order| ==> 1 <= order[j] < |kids|
    requires forall a, b :: 0 <= a < b < |order| ==> order[a] != order[b]
    requires forall v :: 1 <= v < |kids| ==> v in order
    ensures forall w :: w in Terms(term, order) <==> w in TermSet(term)
    ensures forall a, b :: 0 <= a < b < |Terms(term, order)| ==> Terms(term, order)[a] != Terms(term, order)[b]
  {
    TermsMembers(term, order);
    TermsDistinct(term, paths, order);
    forall w ensures w in Terms(term, order) <==> w in TermSet(term) {
      if w in TermSet(term) {
        var v :| 1 <= v < |term| && term[v].Some? && term[v].value == w;
        assert |term| == |kids| && v in order;
        var j :| 0 <= j < |order| && order[j] == v;
        assert term[order[j]] == Some(w);
      }
    }
  }

}
