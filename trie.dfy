/**
 * The `Trie` class of timing.py: a keyword automaton of nested
 * dictionaries, held here as the tables of `TrieModel` indexed by node id.
 */
module Tries {
  import opened Options
  import opened Text
  import opened PrefixScan
  import opened TrieModel
  import opened TrieSteps
  import opened Frontiers
  import opened LinkSteps
  import opened KeywordLists

  /** The word `__insert` stores: lower-cased unless the trie is case-sensitive. */
  function Stored(req: Request, caseSensitive: bool): string {
    if req.Plain? && !caseSensitive then Lower(req.word) else req.word
  }

  /** The `"&&"` entry `__insert` stores with the word. */
  function Replacement(req: Request): Option<string> {
    if req.Pair? then Some(req.replacement) else None
  }

  /**
   * How many requests of a list `add_keywords_from_list` inserts: all of
   * them, unless the trie is not case-sensitive and one is a tuple, whose
   * `.lower()` raises and ends the call there.
   */
  function Admitted(reqs: seq<Request>, caseSensitive: bool): (n: nat)
    ensures n <= |reqs|
    ensures forall k :: 0 <= k < n ==> caseSensitive || reqs[k].Plain?
    ensures n < |reqs| ==> !caseSensitive && reqs[n].Pair?
  {
    if reqs == [] || (!caseSensitive && reqs[0].Pair?) then 0 else 1 + Admitted(reqs[1..], caseSensitive)
  }

  /** Inserting one more request adds its stored word, unless that is empty, to the table. */
  lemma StoredWordsStep(t0: Table, reqs: seq<Request>, caseSensitive: bool, k: nat, before: Table, after: Table)
    requires k < |reqs|
    requires before == AddWords(t0, StoredWords(reqs[..k], caseSensitive))
    requires var w := Stored(reqs[k], caseSensitive);
      after == if w == [] then before else AddWord(before, w)
    ensures after == AddWords(t0, StoredWords(reqs[..k + 1], caseSensitive))
  {
    var w := Stored(reqs[k], caseSensitive);
    assert reqs[..k + 1][..k] == reqs[..k];
    if w == [] {
      assert StoredWords(reqs[..k + 1], caseSensitive) == StoredWords(reqs[..k], caseSensitive);
    } else {
      AddWordsSnoc(t0, StoredWords(reqs[..k], caseSensitive), w);
    }
  }

  /** The non-empty words a list of requests stores, in order (the empty word is held by the root, outside the table). */
  function StoredWords(reqs: seq<Request>, caseSensitive: bool): (ws: seq<string>)
    ensures forall k :: 0 <= k < |ws| ==> ws[k] != []
  {
    if reqs == [] then []
    else
      var w := Stored(reqs[|reqs| - 1], caseSensitive);
      StoredWords(reqs[..|reqs| - 1], caseSensitive) + (if w == [] then [] else [w])
  }

  /**
   * The loops of `extract_keywords(sentence, all_mode)` over the children
   * and `"**"` entries of a trie. From each start the inner loop follows
   * the children for the characters of the sentence. With `all_mode` every
   * keyword met is reported and the start moves on by one; otherwise the
   * last one met is reported and the scan resumes where the inner loop
   * stopped, or, when none was met, moves on by one only if `current` is
   * the root. `current` is carried from one start to the next, as written.
   */
  method Scan(kids: seq<Kids>, term: seq<Option<string>>, sentence: string, allMode: bool) returns (keywords: seq<string>)
    requires InRange(kids) && |term| == |kids| >= 1
    ensures keywords == if allMode then TrieAll(kids, term, sentence, 0, 0) else TrieLongest(kids, term, sentence, 0, 0)
    ensures forall w :: w in keywords ==> w in TermSet(term)
    ensures sentence == [] ==> keywords == []
  {
    var n := |sentence|;
    var current: nat := 0;
    keywords := [];
    var i: nat := 0;
    while i < n
      invariant 0 <= i <= n && current < |kids|
      invariant keywords + ScanRest(kids, term, sentence, allMode, i, current) == ScanRest(kids, term, sentence, allMode, 0, 0)
      decreases n - i, |kids| - current
    {
      ghost var kw0, cur0 := keywords, current;
      var j, w;
      keywords, w, j, current := Follow(kids, term, sentence, allMode, i, current, keywords);
      ghost var met := Walk(kids, term, sentence, i, cur0).met;
      ScanRestStep(kids, term, sentence, allMode, i, cur0, met, j, current);
      ghost var total := ScanRest(kids, term, sentence, allMode, 0, 0);
      assert kw0 + ScanRest(kids, term, sentence, allMode, i, cur0) == total;
      if allMode {
        assert keywords + ScanRest(kids, term, sentence, allMode, i + 1, current) == total by {
          Shift(kw0, met, ScanRest(kids, term, sentence, allMode, i + 1, current));
        }
        i := i + 1;
      } else if w.Some? && w.value != "" {
        Shift(kw0, [w.value], ScanRest(kids, term, sentence, allMode, j, current));
        keywords := keywords + [w.value];
        i := j;
      } else if current == 0 {
        i := i + 1;
      }
    }
    if allMode {
      TrieAllKeywords(kids, term, sentence, 0, 0);
    } else {
      TrieLongestKeywords(kids, term, sentence, 0, 0);
    }
  }

  /**
   * The inner loop of `extract_keywords` from start `i` at node `cur`: on
   * the child for `sentence[j]` it moves there and meets its `"**"` entry,
   * appended to the keywords with `all_mode` and kept in `w` otherwise; on
   * a missing child `current` goes back to the root (`current.get("fail",
   * root)` is the root too, no node having a key "fail") and the loop ends.
   */
  method Follow(kids: seq<Kids>, term: seq<Option<string>>, sentence: string, allMode: bool,
                i: nat, cur: nat, keywords0: seq<string>)
    returns (keywords: seq<string>, w: Option<string>, j: nat, current: nat)
    requires InRange(kids) && |term| == |kids| && cur < |kids| && i <= |sentence|
    ensures j == Walk(kids, term, sentence, i, cur).end && current == Walk(kids, term, sentence, i, cur).at
    ensures allMode ==> keywords == keywords0 + Walk(kids, term, sentence, i, cur).met
    ensures !allMode ==> keywords == keywords0 && w == LastOf(Walk(kids, term, sentence, i, cur).met)
  {
    var n := |sentence|;
    keywords, w, j, current := keywords0, None, i, cur;
    ghost var met: seq<string> := [];
    ghost var all := Walk(kids, term, sentence, i, cur);
    while j < n
      invariant i <= j <= n && current < |kids|
      invariant all.met == met + Walk(kids, term, sentence, j, current).met
      invariant all.end == Walk(kids, term, sentence, j, current).end
      invariant all.at == Walk(kids, term, sentence, j, current).at
      invariant allMode ==> keywords == keywords0 + met
      invariant !allMode ==> keywords == keywords0 && w == LastOf(met)
    {
      var c := sentence[j];
      FollowStep(kids, term, sentence, j, current, met, all);
      match Child(kids[current], c)
      case Some(v) =>
        current := v;
        if term[v].Some? {
          if allMode {
            keywords := keywords + [term[v].value];
          } else {
            w := term[v];
          }
        }
        met := met + MetAt(term, v);
        j := j + 1;
      case None =>
        current := 0;
        break;
    }
    assert all.met == met;
  }

  /** What `extract_keywords` reports from start `i` with `current` at node `cur`. */
  function ScanRest(kids: seq<Kids>, term: seq<Option<string>>, s: string, allMode: bool, i: nat, cur: nat): seq<string>
    requires InRange(kids) && |term| == |kids| && cur < |kids| && i <= |s|
  {
    if allMode then TrieAll(kids, term, s, i, cur) else TrieLongest(kids, term, s, i, cur)
  }

  /** One turn of the outer loop of `extract_keywords`, whose inner loop left `met`, `j` and `current == at`. */
  lemma ScanRestStep(kids: seq<Kids>, term: seq<Option<string>>, s: string, allMode: bool,
                     i: nat, cur: nat, met: seq<string>, j: nat, at: nat)
    requires InRange(kids) && |term| == |kids| && cur < |kids| && i < |s|
    requires Walk(kids, term, s, i, cur) == Walked(met, j, at)
    ensures i <= j <= |s| && at < |kids|
    ensures allMode ==> ScanRest(kids, term, s, allMode, i, cur) == met + ScanRest(kids, term, s, allMode, i + 1, at)
    ensures !allMode && LastOf(met).Some? && LastOf(met).value != "" ==>
      i < j && ScanRest(kids, term, s, allMode, i, cur) == [LastOf(met).value] + ScanRest(kids, term, s, allMode, j, at)
    ensures !allMode && !(LastOf(met).Some? && LastOf(met).value != "") && at == 0 ==>
      ScanRest(kids, term, s, allMode, i, cur) == ScanRest(kids, term, s, allMode, i + 1, 0)
    ensures !allMode && !(LastOf(met).Some? && LastOf(met).value != "") && at != 0 ==>
      cur < at && ScanRest(kids, term, s, allMode, i, cur) == ScanRest(kids, term, s, allMode, i, at)
  {
  }

  /** One turn of the inner loop of `extract_keywords`. */
  lemma WalkUnfold(kids: seq<Kids>, term: seq<Option<string>>, s: string, j: nat, cur: nat)
    requires InRange(kids) && |term| == |kids| && cur < |kids| && j < |s|
    ensures Child(kids[cur], s[j]).None? ==> Walk(kids, term, s, j, cur) == Walked([], j, 0)
    ensures Child(kids[cur], s[j]).Some? ==>
      var v := Child(kids[cur], s[j]).value;
      v < |kids| &&
      var r := Walk(kids, term, s, j + 1, v);
      Walk(kids, term, s, j, cur) == Walked(MetAt(term, v) + r.met, r.end, r.at)
  {
    if Child(kids[cur], s[j]).Some? {
      ChildInRange(kids, cur, s[j]);
    }
  }

  /** What one turn of the inner loop of `extract_keywords` keeps of the walk from its start. */
  lemma FollowStep(kids: seq<Kids>, term: seq<Option<string>>, s: string, j: nat, cur: nat,
                   met: seq<string>, all: Walked)
    requires InRange(kids) && |term| == |kids| && cur < |kids| && j < |s|
    requires all.met == met + Walk(kids, term, s, j, cur).met
    requires all.end == Walk(kids, term, s, j, cur).end && all.at == Walk(kids, term, s, j, cur).at
    ensures Child(kids[cur], s[j]).None? ==> all == Walked(met, j, 0)
    ensures Child(kids[cur], s[j]).Some? ==>
      var v := Child(kids[cur], s[j]).value;
      v < |kids| &&
      all.met == (met + MetAt(term, v)) + Walk(kids, term, s, j + 1, v).met &&
      all.end == Walk(kids, term, s, j + 1, v).end && all.at == Walk(kids, term, s, j + 1, v).at &&
      (met + MetAt(term, v) == if term[v].Some? then met + [term[v].value] else met) &&
      LastOf(met + MetAt(term, v)) == if term[v].Some? then term[v] else LastOf(met)
  {
    WalkUnfold(kids, term, s, j, cur);
    if Child(kids[cur], s[j]).Some? {
      var v := Child(kids[cur], s[j]).value;
      Shift(met, MetAt(term, v), Walk(kids, term, s, j + 1, v).met);
      if term[v].None? {
        assert met + MetAt(term, v) == met;
      }
    } else {
      assert met + [] == met;
    }
  }

  /** The child of a node comes after it. */
  lemma ChildInRange(kids: seq<Kids>, u: nat, c: char)
    requires InRange(kids) && u < |kids| && Child(kids[u], c).Some?
    ensures u < Child(kids[u], c).value < |kids|
  {
    var k :| 0 <= k < |kids[u]| && kids[u][k] == (c, Child(kids[u], c).value);
  }

  /**
   * The breadth-first walk of `__build_links`: every node taken from the
   * queue gives each of its children a link, and the children join the
   * queue. Stated on the trie's arrays; `Trie.BuildLinks` stores the result.
   */
  method Link(kids: seq<Kids>, term: seq<Option<string>>, repl: seq<Option<string>>, fail0: seq<Option<nat>>,
              ghost paths: seq<string>, ghost parent: seq<nat>) returns (fail: seq<Option<nat>>)
    requires TrieInv(kids, term, repl, fail0, paths, parent)
    ensures TrieInv(kids, term, repl, fail, paths, parent)
    ensures Linked(kids, fail, paths, parent)
  {
    fail := fail0;
    var queue: seq<nat> := [0];
    var isRoot := true;
    ghost var done: set<nat> := {};
    BfsInit(kids, term, repl, fail, paths, parent);
    while queue != []
      invariant Bfs(kids, term, repl, fail, paths, parent, queue, done, isRoot)
      invariant |done| <= |kids|
      decreases |kids| - |done|
    {
      BfsPop(kids, term, repl, fail, paths, parent, queue, done, isRoot);
      var curr := queue[0];
      queue := queue[1..];
      ghost var rest, failBefore := queue, fail;
      fail, queue := LinkChildren(kids, term, repl, fail, paths, parent, curr, isRoot, queue, done);
      BfsNext(kids, term, repl, failBefore, paths, parent, rest, done, isRoot, curr, fail, queue);
      done := done + {curr};
      DoneBound(done, |kids|);
      isRoot := false;
    }
    BfsEnd(kids, term, repl, fail, paths, parent, done, isRoot);
  }

  /**
   * The inner `for k, v in curr.items()` loop: the child `v` under `k` links
   * to the child under `k` of `curr`'s own link, or to the root when there
   * is none or `curr` is the root, and is appended to the queue.
   */
  method LinkChildren(kids: seq<Kids>, term: seq<Option<string>>, repl: seq<Option<string>>, fail0: seq<Option<nat>>,
                      ghost paths: seq<string>, ghost parent: seq<nat>,
                      curr: nat, isRoot: bool, queue0: seq<nat>, ghost done: set<nat>)
    returns (fail: seq<Option<nat>>, queue: seq<nat>)
    requires Visiting(kids, term, repl, fail0, paths, parent, queue0, done, isRoot, curr, 0, fail0, queue0)
    requires (isRoot <==> curr == 0) && (curr != 0 ==> fail0[curr].Some? && fail0[curr].value < |kids|)
    ensures Visiting(kids, term, repl, fail0, paths, parent, queue0, done, isRoot, curr, |kids[curr]|, fail, queue)
  {
    fail := fail0;
    queue := queue0;
    var i := 0;
    while i < |kids[curr]|
      invariant Visiting(kids, term, repl, fail0, paths, parent, queue0, done, isRoot, curr, i, fail, queue)
      invariant fail[curr] == fail0[curr]
    {
      var k, v := kids[curr][i].0, kids[curr][i].1;
      var x: nat := 0;
      if !isRoot {
        match Child(kids[fail[curr].value], k)
        case Some(y) => x := y;
        case None => x := 0;
      }
      BfsVisit(kids, term, repl, fail0, paths, parent, queue0, done, isRoot, curr, i, fail, queue, x);
      fail := fail[v := Some(x)];
      queue := queue + [v];
      i := i + 1;
    }
  }

  /**
   * The breadth-first walk of `get_all_keywords` over the trie's arrays:
   * every keyword below the root, each once.
   */
  method Gather(kids: seq<Kids>, term: seq<Option<string>>, ghost paths: seq<string>, ghost parent: seq<nat>)
    returns (ws: seq<string>)
    requires Shaped(kids, term, paths, parent)
    ensures forall w :: w in ws <==> w in TermSet(term)
    ensures forall a, b :: 0 <= a < b < |ws| ==> ws[a] != ws[b]
  {
    ws := [];
    var currents: seq<nat> := [0];
    ghost var done: set<nat> := {};
    ghost var order: seq<nat> := [];
    GatherInit(kids, term, paths, parent);
    while |currents| > 0
      invariant Gathering(kids, term, paths, parent, currents, done, order)
      invariant ws == Terms(term, order)
      invariant |done| <= |kids|
      decreases |kids| - |done|
    {
      GatherPop(kids, term, paths, parent, currents, done, order);
      var current := currents[0];
      currents := currents[1..];
      ghost var rest, order0 := currents, order;
      var i := 0;
      while i < |kids[current]|
        invariant i <= |kids[current]|
        invariant currents == rest + Ids(kids[current])[..i] && order == order0 + Ids(kids[current])[..i]
        invariant forall j :: 0 <= j < |order| ==> order[j] < |term|
        invariant ws == Terms(term, order)
      {
        var v := kids[current][i].1;
        ListStep(kids, term, paths, parent, current, i, rest, order0, currents, order);
        if term[v].Some? {
          ws := ws + [term[v].value];
        }
        currents := currents + [v];
        order := order + [v];
        i := i + 1;
      }
      assert Ids(kids[current])[..i] == Ids(kids[current]);
      GatherNext(kids, term, paths, parent, rest, done, order0, current, currents, order);
      done := done + {current};
      DoneBound(done, |kids|);
    }
    GatherEnd(kids, term, paths, parent, done, order);
    AllTerms(kids, term, paths, parent, order);
  }

  class Trie {
    var kids: seq<Kids>
    var term: seq<Option<string>>
    var repl: seq<Option<string>>
    var fail: seq<Option<nat>>
    const caseSensitive: bool
    ghost var paths: seq<string>
    ghost var parent: seq<nat>

    ghost predicate Valid()
      reads this
    {
      TrieInv(kids, term, repl, fail, paths, parent)
    }

    /** The trie read as a prefix table. */
    ghost function Table(): Table
      reads this
      requires Valid()
    {
      TableOf(term, paths)
    }

    constructor (caseSensitive: bool)
      ensures Valid() && this.caseSensitive == caseSensitive
      ensures kids == [[]] && term == [None] && repl == [None] && fail == [None]
    {
      this.caseSensitive := caseSensitive;
      kids := [[]];
      term := [None];
      repl := [None];
      fail := [None];
      paths := [[]];
      parent := [0];
    }

    /**
     * `__insert(word)`. A tuple given to a trie that is not case-sensitive
     * fails on `.lower()` before anything changes (`ok` is false). Otherwise
     * the nodes of the word are created as needed, each has its link
     * cleared, and the last one gets the word and its replacement.
     */
    method Insert(req: Request) returns (ok: bool, ghost at: nat)
      requires Valid()
      modifies this
      ensures Valid()
      ensures ok == (caseSensitive || req.Plain?)
      ensures !ok ==> unchanged(this)
      ensures ok ==> at < |kids| && paths[at] == Stored(req, caseSensitive) &&
                     term[at] == Some(paths[at]) && repl[at] == Replacement(req)
      ensures ok ==> var w := Stored(req, caseSensitive);
        Table() == if w == [] then old(Table()) else AddWord(old(Table()), w)
      ensures ok ==> Extends(old(kids), old(paths), kids, paths)
      ensures ok ==> EntriesKeptBut(old(term), old(repl), term, repl, at)
      ensures ok ==> ClearedAlong(old(fail), fail, paths, Stored(req, caseSensitive))
    {
      if !caseSensitive && req.Pair? {
        return false, 0;
      }
      var w := Stored(req, caseSensitive);
      ghost var kids0, paths0, term0, repl0, fail0, t0 := kids, paths, term, repl, fail, Table();
      var cur := Spell(w);
      var term', repl' := term[cur := Some(w)], repl[cur := Replacement(req)];
      SetTerm(kids, term, repl, fail, paths, parent, cur, w, Replacement(req), term0, repl0, t0, term', repl');
      term, repl := term', repl';
      return true, cur;
    }

    /**
     * The `for char in word` loop of `__insert`: the node reached after
     * creating the missing nodes of `w`, and clearing the links on the way.
     */
    method Spell(w: string) returns (cur: nat)
      requires Valid()
      modifies this
      ensures Valid()
      ensures cur < |kids| && paths[cur] == w
      ensures AddFrom(TableOf(term, paths), w, |w|) == AddWord(old(Table()), w)
      ensures w == [] ==> TableOf(term, paths) == old(Table())
      ensures Extends(old(kids), old(paths), kids, paths) && EntriesKept(old(term), old(repl), term, repl)
      ensures ClearedAlong(old(fail), fail, paths, w)
    {
      ghost var kids0, paths0, term0, repl0, fail0, t0 := kids, paths, term, repl, fail, Table();
      ExtendsRefl(kids, paths);
      EntriesKeptRefl(term, repl);
      ClearedAlongInit(fail, paths, w);
      cur := 0;
      var k: nat := 0;
      while k < |w|
        invariant Valid()
        invariant k <= |w| && cur < |kids| && paths[cur] == w[..k]
        invariant AddFrom(TableOf(term, paths), w, k) == AddWord(t0, w)
        invariant k == 0 ==> term == term0 && paths == paths0
        invariant Extends(kids0, paths0, kids, paths) && EntriesKept(term0, repl0, term, repl)
        invariant ClearedAlong(fail0, fail, paths, w[..k])
      {
        ghost var kids1, paths1, term1, repl1, fail1 := kids, paths, term, repl, fail;
        cur := Descend(cur, w[k], w, k);
        InsertStep(kids0, paths0, term0, repl0, fail0, kids1, paths1, term1, repl1, fail1,
                   kids, paths, term, repl, fail, w, k);
        k := k + 1;
      }
      assert w[..k] == w;
    }

    /**
     * One turn of the `for char in word` loop of `__insert`: `setdefault`
     * gives the child for `w[k]`, created empty when missing, and its link
     * is cleared.
     */
    method Descend(cur: nat, c: char, ghost w: string, ghost k: nat) returns (next: nat)
      requires Valid()
      requires k < |w| && c == w[k] && cur < |kids| && paths[cur] == w[..k]
      modifies this
      ensures Valid()
      ensures next < |kids| && paths[next] == w[..k + 1]
      ensures AddFrom(TableOf(term, paths), w, k + 1) == AddFrom(old(TableOf(term, paths)), w, k)
      ensures Extends(old(kids), old(paths), kids, paths)
      ensures EntriesKept(old(term), old(repl), term, repl)
      ensures ClearedAt(old(fail), fail, paths, w[..k + 1])
    {
      match Child(kids[cur], c)
      case Some(v) =>
        DescendFound(kids, term, repl, fail, paths, parent, cur, c, w, k, v, fail[v := None]);
        fail := fail[v := None];
        next := v;
      case None =>
        var kids', term', repl', fail' := GrowKids(kids, cur, c), term + [None], repl + [None], fail + [None];
        ghost var paths', parent' := paths + [paths[cur] + [c]], parent + [cur];
        DescendGrow(kids, term, repl, fail, paths, parent, cur, c, w, k, kids', term', repl', fail', paths', parent');
        next := |kids|;
        kids, term, repl, fail, paths, parent := kids', term', repl', fail', paths', parent';
    }

    /**
     * `add_keywords_from_list(words)`: inserts the words in order and then
     * builds the links. When an insertion raises, the words before it stay
     * inserted, the rest are not, and the links are not built.
     */
    method AddKeywordsFromList(words: seq<Request>) returns (ok: bool)
      requires Valid()
      modifies this
      ensures Valid()
      ensures ok == (Admitted(words, caseSensitive) == |words|)
      ensures Table() == AddWords(old(Table()), StoredWords(words[..Admitted(words, caseSensitive)], caseSensitive))
      ensures TermSet(term) == old(TermSet(term)) + set w | w in StoredWords(words[..Admitted(words, caseSensitive)], caseSensitive)
      ensures ok ==> Linked(kids, fail, paths, parent)
    {
      ghost var t0 := Table();
      TableKeywords(kids, term, paths, parent);
      ghost var stored := StoredWords(words[..Admitted(words, caseSensitive)], caseSensitive);
      ok := InsertAll(words);
      if ok {
        BuildLinks();
      }
      TableKeywords(kids, term, paths, parent);
      AddWordsKeywords(t0, stored);
    }

    /** The `for word in words` loop of `add_keywords_from_list`, up to the first insertion that raises. */
    method InsertAll(words: seq<Request>) returns (ok: bool)
      requires Valid()
      modifies this
      ensures Valid()
      ensures ok == (Admitted(words, caseSensitive) == |words|)
      ensures Table() == AddWords(old(Table()), StoredWords(words[..Admitted(words, caseSensitive)], caseSensitive))
    {
      ghost var t0 := Table();
      var k := 0;
      while k < |words|
        invariant k <= Admitted(words, caseSensitive) && Valid()
        invariant Table() == AddWords(t0, StoredWords(words[..k], caseSensitive))
      {
        var inserted;
        ghost var at;
        ghost var before := Table();
        inserted, at := Insert(words[k]);
        if !inserted {
          assert Admitted(words, caseSensitive) == k;
          return false;
        }
        StoredWordsStep(t0, words, caseSensitive, k, before, Table());
        k := k + 1;
      }
      assert Admitted(words, caseSensitive) == k;
      return true;
    }

    /**
     * `get_all_keywords`: a breadth-first walk from the root that lists the
     * `"**"` entry of every node below it, each keyword once. The root's own
     * entry, set by inserting the empty word, is never listed.
     */
    method GetAllKeywords() returns (ws: seq<string>)
      requires Valid()
      ensures forall w :: w in ws <==> w in TermSet(term)
      ensures forall a, b :: 0 <= a < b < |ws| ==> ws[a] != ws[b]
    {
      ws := Gather(kids, term, paths, parent);
    }

    /** What `extract_keywords` reports on this trie. */
    ghost function ScanFrom(s: string, allMode: bool, i: nat, cur: nat): seq<string>
      reads this
      requires Valid() && cur < |kids| && i <= |s|
    {
      ScanRest(kids, term, s, allMode, i, cur)
    }

    /** `extract_keywords(sentence, all_mode)` on this trie; see `Scan`. */
    method ExtractKeywords(sentence: string, allMode: bool) returns (keywords: seq<string>)
      requires Valid()
      ensures keywords == ScanFrom(sentence, allMode, 0, 0)
      ensures forall w :: w in keywords ==> w in TermSet(term)
      ensures sentence == [] ==> keywords == []
    {
      keywords := Scan(kids, term, sentence, allMode);
    }

    /**
     * `__build_links`: a breadth-first walk from the root that gives every
     * child of the root the root as its link, and every other node the
     * child for its own key of its parent's link, or the root when that has
     * none.
     */
    method BuildLinks()
      requires Valid()
      modifies this`fail
      ensures Valid()
      ensures kids == old(kids) && term == old(term) && repl == old(repl)
      ensures paths == old(paths) && parent == old(parent)
      ensures Linked(kids, fail, paths, parent)
    {
      fail := Link(kids, term, repl, fail, paths, parent);
    }
  }

}
