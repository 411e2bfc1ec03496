/**
 * The semantics of the prefix-table keyword engine (`PrefixSet` in
 * cmip/text/prefix_set.py, duplicated in timing.py) as functions over the two
 * dictionaries it keeps, and the properties proved about them.
 *
 * The scanning functions follow the nested loops of the source one step per
 * call: `RunEnd` and `RunHits` are the inner `while j < N and flag in ...`
 * loop for one start index `i`, `MatchesFrom` and `ReplaceFrom` the outer
 * `while i < N` loop.
 */
module PrefixScan {
  import opened Options

  /** `_prefix_dic`: every registered prefix with its flag (true for 1, false for 0). */
  type Table = map<string, bool>

  /** `_replace_map`: every registered prefix of a source with its target, None when it has none. */
  type ReplaceTable = map<string, Option<string>>

  /** One reported keyword with its half-open span `[start, end)` in the sentence. */
  datatype Match = Match(word: string, start: nat, end: nat)

  predicate IsPrefixOf(k: string, word: string) {
    |k| <= |word| && k == word[..|k|]
  }

  // ---------------------------------------------------------------------------
  // Building the prefix table
  // ---------------------------------------------------------------------------

  /** The `for ch in word` loop of `add_keyword`, from character `i` on. */
  function AddFrom(dic: Table, word: string, i: nat): Table
    requires i <= |word|
    decreases |word| - i
  {
    if i == |word| then dic[word := true]
    else
      var w := word[..i + 1];
      AddFrom(if w in dic then dic else dic[w := false], word, i + 1)
  }

  /** `add_keyword(word)`. */
  function AddWord(dic: Table, word: string): Table {
    AddFrom(dic, word, 0)
  }

  /** `add_keywords_from_list(words)`. */
  function AddWords(dic: Table, words: seq<string>): Table
    decreases |words|
  {
    if words == [] then dic else AddWords(AddWord(dic, words[0]), words[1..])
  }

  /** `remove_keyword(word)`. */
  function RemoveWord(dic: Table, word: string): Table {
    dic[word := false]
  }

  /** `remove_keywords_from_list(words)`. */
  function RemoveWords(dic: Table, words: seq<string>): Table
    decreases |words|
  {
    if words == [] then dic else RemoveWords(RemoveWord(dic, words[0]), words[1..])
  }

  /** Adding one more word after a list is adding the longer list. */
  lemma {:induction false} AddWordsSnoc(dic: Table, words: seq<string>, w: string)
    ensures AddWords(dic, words + [w]) == AddWord(AddWords(dic, words), w)
    decreases |words|
  {
    if words == [] {
      assert ([] + [w])[1..] == [];
    } else {
      assert (words + [w])[1..] == words[1..] + [w];
      AddWordsSnoc(AddWord(dic, words[0]), words[1..], w);
    }
  }

  lemma {:induction false} RemoveWordsSnoc(dic: Table, words: seq<string>, w: string)
    ensures RemoveWords(dic, words + [w]) == RemoveWord(RemoveWords(dic, words), w)
    decreases |words|
  {
    if words == [] {
      assert ([] + [w])[1..] == [];
    } else {
      assert (words + [w])[1..] == words[1..] + [w];
      RemoveWordsSnoc(RemoveWord(dic, words[0]), words[1..], w);
    }
  }

  /** `get_keywords()`: the keys whose flag is 1. */
  function Keywords(dic: Table): set<string> {
    set w | w in dic && dic[w]
  }

  /** Every complete keyword has all its non-empty prefixes registered. */
  ghost predicate FlagsPrefixClosed(dic: Table) {
    forall k, m :: k in dic && dic[k] && 0 < m <= |k| ==> k[..m] in dic
  }

  lemma {:induction false} AddFromEffect(dic: Table, word: string, i: nat)
    requires i <= |word|
    ensures var r := AddFrom(dic, word, i);
      && (forall k :: k in r <==> k in dic || k == word || (i < |k| && IsPrefixOf(k, word)))
      && r[word]
      && (forall k :: k in dic && k != word ==> r[k] == dic[k])
      && (forall k :: k in r && k !in dic && k != word ==> !r[k])
    decreases |word| - i
  {
    if i < |word| {
      var w := word[..i + 1];
      var d := if w in dic then dic else dic[w := false];
      AddFromEffect(d, word, i + 1);
      forall k | i < |k| && IsPrefixOf(k, word)
        ensures k == w || (i + 1 < |k| && IsPrefixOf(k, word))
      {
      }
    }
  }

  /**
   * `add_keyword(word)` registers every non-empty prefix of `word`; a prefix
   * that was absent gets flag 0, a flag already present is untouched, and
   * `word` itself ends with flag 1.
   */
  lemma AddWordEffect(dic: Table, word: string)
    ensures var r := AddWord(dic, word);
      && (forall k :: k in r <==> k in dic || k == word || (0 < |k| && IsPrefixOf(k, word)))
      && r[word]
      && (forall k :: k in dic && k != word ==> r[k] == dic[k])
      && (forall k :: k in r && k !in dic && k != word ==> !r[k])
  {
    AddFromEffect(dic, word, 0);
  }

  /** After `add_keyword(w)`, `get_keywords()` is the old set plus `w`. */
  lemma AddWordKeywords(dic: Table, word: string)
    ensures Keywords(AddWord(dic, word)) == Keywords(dic) + {word}
  {
    AddWordEffect(dic, word);
  }

  /** Adding the same word twice leaves the same table as adding it once. */
  lemma AddWordIdempotent(dic: Table, word: string)
    ensures AddWord(AddWord(dic, word), word) == AddWord(dic, word)
  {
    var r1 := AddWord(dic, word);
    var r2 := AddWord(r1, word);
    AddWordEffect(dic, word);
    AddWordEffect(r1, word);
    assert r2.Keys == r1.Keys;
    forall k | k in r1 ensures r2[k] == r1[k] {
    }
  }

  /** `add_keyword` keeps the complete keywords closed under prefixes. */
  lemma AddWordKeepsClosed(dic: Table, word: string)
    requires FlagsPrefixClosed(dic)
    ensures FlagsPrefixClosed(AddWord(dic, word))
  {
    var r := AddWord(dic, word);
    AddWordEffect(dic, word);
    forall k, m | k in r && r[k] && 0 < m <= |k| ensures k[..m] in r {
      if k == word {
        assert IsPrefixOf(k[..m], word);
      } else {
        assert k in dic && dic[k];
      }
    }
  }

  /** Every word added by `add_keywords_from_list` is a keyword afterwards, and nothing else is new. */
  lemma {:induction false} AddWordsKeywords(dic: Table, words: seq<string>)
    ensures Keywords(AddWords(dic, words)) == Keywords(dic) + set w | w in words
    decreases |words|
  {
    if words != [] {
      AddWordKeywords(dic, words[0]);
      AddWordsKeywords(AddWord(dic, words[0]), words[1..]);
      assert (set w | w in words) == {words[0]} + set w | w in words[1..];
    }
  }

  lemma {:induction false} AddWordsKeepsClosed(dic: Table, words: seq<string>)
    requires FlagsPrefixClosed(dic)
    ensures FlagsPrefixClosed(AddWords(dic, words))
    decreases |words|
  {
    if words != [] {
      AddWordKeepsClosed(dic, words[0]);
      AddWordsKeepsClosed(AddWord(dic, words[0]), words[1..]);
    }
  }

  /**
   * After `remove_keyword(w)` the keyword `w` is gone, every other key keeps
   * its flag, an absent `w` becomes a key with flag 0, and the complete
   * keywords stay prefix-closed.
   */
  lemma RemoveWordEffect(dic: Table, word: string)
    ensures Keywords(RemoveWord(dic, word)) == Keywords(dic) - {word}
    ensures RemoveWord(dic, word).Keys == dic.Keys + {word} && !RemoveWord(dic, word)[word]
    ensures forall k :: k in dic && k != word ==> RemoveWord(dic, word)[k] == dic[k]
    ensures FlagsPrefixClosed(dic) ==> FlagsPrefixClosed(RemoveWord(dic, word))
  {
  }

  lemma {:induction false} RemoveWordsKeywords(dic: Table, words: seq<string>)
    ensures Keywords(RemoveWords(dic, words)) == Keywords(dic) - set w | w in words
    ensures FlagsPrefixClosed(dic) ==> FlagsPrefixClosed(RemoveWords(dic, words))
    decreases |words|
  {
    if words != [] {
      RemoveWordEffect(dic, words[0]);
      RemoveWordsKeywords(RemoveWord(dic, words[0]), words[1..]);
      assert (set w | w in words) == {words[0]} + set w | w in words[1..];
    }
  }

  // ---------------------------------------------------------------------------
  // Building the replacement table
  // ---------------------------------------------------------------------------

  /**
   * The inner `for ch in a` loop of `add_keywords_replace_map_from_dict`,
   * then `_replace_map[a] = b`; the target `b` is stored as given, `None`
   * included.
   */
  function AddSourceFrom(rm: ReplaceTable, a: string, b: Option<string>, i: nat): ReplaceTable
    requires i <= |a|
    decreases |a| - i
  {
    if i == |a| then rm[a := b]
    else
      var w := a[..i + 1];
      AddSourceFrom(if w in rm then rm else rm[w := None], a, b, i + 1)
  }

  /** `add_keywords_replace_map_from_dict`, the pairs taken in the dictionary's iteration order. */
  function AddReplacements(rm: ReplaceTable, pairs: seq<(string, Option<string>)>): ReplaceTable
    decreases |pairs|
  {
    if pairs == [] then rm
    else AddReplacements(AddSourceFrom(rm, pairs[0].0, pairs[0].1, 0), pairs[1..])
  }

  lemma {:induction false} AddReplacementsSnoc(rm: ReplaceTable, pairs: seq<(string, Option<string>)>, a: string, b: Option<string>)
    ensures AddReplacements(rm, pairs + [(a, b)]) == AddSourceFrom(AddReplacements(rm, pairs), a, b, 0)
    decreases |pairs|
  {
    if pairs == [] {
      assert ([] + [(a, b)])[1..] == [];
    } else {
      assert (pairs + [(a, b)])[1..] == pairs[1..] + [(a, b)];
      AddReplacementsSnoc(AddSourceFrom(rm, pairs[0].0, pairs[0].1, 0), pairs[1..], a, b);
    }
  }

  /** `get_replace_map()`: the entries whose target is not None. */
  function ReplaceMap(rm: ReplaceTable): map<string, string> {
    map k | k in rm && rm[k].Some? :: rm[k].value
  }

  /** The target (`None` included) of the last pair whose source is `a`; `None` when no pair has that source. */
  function LastTarget(pairs: seq<(string, Option<string>)>, a: string): Option<Option<string>>
    decreases |pairs|
  {
    if pairs == [] then None
    else
      match LastTarget(pairs[1..], a)
      case Some(t) => Some(t)
      case None => if pairs[0].0 == a then Some(pairs[0].1) else None
  }

  lemma {:induction false} AddSourceFromEffect(rm: ReplaceTable, a: string, b: Option<string>, i: nat)
    requires i <= |a|
    ensures var r := AddSourceFrom(rm, a, b, i);
      && (forall k :: k in r <==> k in rm || k == a || (i < |k| && IsPrefixOf(k, a)))
      && r[a] == b
      && (forall k :: k in rm && k != a ==> r[k] == rm[k])
      && (forall k :: k in r && k !in rm && k != a ==> r[k] == None)
    decreases |a| - i
  {
    if i < |a| {
      var w := a[..i + 1];
      var d := if w in rm then rm else rm[w := None];
      AddSourceFromEffect(d, a, b, i + 1);
      forall k | i < |k| && IsPrefixOf(k, a)
        ensures k == w || (i + 1 < |k| && IsPrefixOf(k, a))
      {
      }
    }
  }

  /**
   * Adding one pair registers every prefix of the source (None when new)
   * and maps the source to its target; `get_replace_map()` changes only
   * there: it maps the source to a target given, and drops it for `None`.
   */
  lemma AddSourceEffect(rm: ReplaceTable, a: string, b: Option<string>)
    ensures var r := AddSourceFrom(rm, a, b, 0);
      && (forall k :: k in r <==> k in rm || k == a || (0 < |k| && IsPrefixOf(k, a)))
      && (forall k :: k in r && k !in rm && k != a ==> r[k] == None)
      && ReplaceMap(r) == if b.Some? then ReplaceMap(rm)[a := b.value] else ReplaceMap(rm) - {a}
  {
    AddSourceFromEffect(rm, a, b, 0);
    var r := AddSourceFrom(rm, a, b, 0);
    if b.Some? {
      assert ReplaceMap(r).Keys == ReplaceMap(rm).Keys + {a};
    } else {
      assert ReplaceMap(r).Keys == ReplaceMap(rm).Keys - {a};
    }
  }

  /**
   * After `add_keywords_replace_map_from_dict(pairs)`, `get_replace_map()`
   * maps every source to the target of its last pair (a later write wins),
   * leaves out a source whose last target is `None`, and keeps every other
   * entry it had.
   */
  lemma {:induction false} AddReplacementsLastWins(rm: ReplaceTable, pairs: seq<(string, Option<string>)>, k: string)
    ensures var out := ReplaceMap(AddReplacements(rm, pairs));
      match LastTarget(pairs, k)
      case Some(Some(t)) => k in out && out[k] == t
      case Some(None) => k !in out
      case None => (k in out <==> k in ReplaceMap(rm)) && (k in out ==> out[k] == ReplaceMap(rm)[k])
    decreases |pairs|
  {
    if pairs != [] {
      AddSourceEffect(rm, pairs[0].0, pairs[0].1);
      AddReplacementsLastWins(AddSourceFrom(rm, pairs[0].0, pairs[0].1, 0), pairs[1..], k);
    }
  }

  /** Every non-empty prefix of every source is a key of the replacement table afterwards. */
  lemma {:induction false} AddReplacementsRegisters(rm: ReplaceTable, pairs: seq<(string, Option<string>)>, p: nat, m: nat)
    requires p < |pairs| && 0 < m <= |pairs[p].0|
    ensures pairs[p].0[..m] in AddReplacements(rm, pairs)
    decreases |pairs|
  {
    var rm' := AddSourceFrom(rm, pairs[0].0, pairs[0].1, 0);
    AddSourceEffect(rm, pairs[0].0, pairs[0].1);
    if p == 0 {
      assert IsPrefixOf(pairs[0].0[..m], pairs[0].0);
      AddReplacementsKeepsKeys(rm', pairs[1..], pairs[0].0[..m]);
    } else {
      AddReplacementsRegisters(rm', pairs[1..], p - 1, m);
    }
  }

  lemma {:induction false} AddReplacementsKeepsKeys(rm: ReplaceTable, pairs: seq<(string, Option<string>)>, k: string)
    requires k in rm
    ensures k in AddReplacements(rm, pairs)
    decreases |pairs|
  {
    if pairs != [] {
      AddSourceEffect(rm, pairs[0].0, pairs[0].1);
      AddReplacementsKeepsKeys(AddSourceFrom(rm, pairs[0].0, pairs[0].1, 0), pairs[1..], k);
    }
  }

  // ---------------------------------------------------------------------------
  // Scanning
  // ---------------------------------------------------------------------------

  /**
   * Where the inner loop started at `i` stops, having reached `j`: the first
   * index `e >= j` at which the sentence ends or `sentence[i:e+1]` is not a key.
   */
  function RunEnd<V>(m: map<string, V>, s: string, i: nat, j: nat): (e: nat)
    requires i <= j <= |s|
    ensures j <= e <= |s|
    ensures forall k :: j < k <= e ==> s[i..k] in m
    ensures e < |s| ==> s[i..e + 1] !in m
    decreases |s| - j
  {
    if j < |s| && s[i..j + 1] in m then RunEnd(m, s, i, j + 1) else j
  }

  lemma {:induction false} RunEndSameKeys<V, W>(m1: map<string, V>, m2: map<string, W>, s: string, i: nat, j: nat)
    requires m1.Keys == m2.Keys && i <= j <= |s|
    ensures RunEnd(m1, s, i, j) == RunEnd(m2, s, i, j)
    decreases |s| - j
  {
    if j < |s| && s[i..j + 1] in m1 {
      RunEndSameKeys(m1, m2, s, i, j + 1);
    }
  }

  /** The candidates with flag 1 that the inner loop started at `i` meets from `j` on, shortest first. */
  function RunHits(dic: Table, s: string, i: nat, j: nat): (hits: seq<Match>)
    requires i <= j <= |s|
    decreases |s| - j
  {
    if j < |s| && s[i..j + 1] in dic then
      (if dic[s[i..j + 1]] then [Match(s[i..j + 1], i, j + 1)] else []) + RunHits(dic, s, i, j + 1)
    else []
  }

  /** One step of the inner loop: the candidate at `j`, if any, comes before the rest of the run. */
  lemma RunHitsUnfold(dic: Table, s: string, i: nat, j: nat)
    requires i <= j < |s| && s[i..j + 1] in dic
    ensures RunHits(dic, s, i, j) ==
      (if dic[s[i..j + 1]] then [Match(s[i..j + 1], i, j + 1)] else []) + RunHits(dic, s, i, j + 1)
  {
  }

  /** Each candidate is a flag-1 key inside the run, and they come shortest first. */
  lemma {:induction false} RunHitsSound(dic: Table, s: string, i: nat, j: nat)
    requires i <= j <= |s|
    ensures var hits := RunHits(dic, s, i, j);
      forall h :: h in hits ==>
        h.start == i && j < h.end <= RunEnd(dic, s, i, j) &&
        h.word == s[i..h.end] && h.word in dic && dic[h.word]
    ensures var hits := RunHits(dic, s, i, j);
      forall a, b :: 0 <= a < b < |hits| ==> hits[a].end < hits[b].end
    decreases |s| - j
  {
    if j < |s| && s[i..j + 1] in dic {
      RunHitsSound(dic, s, i, j + 1);
    }
  }

  /** Every flag-1 candidate inside the run is met. */
  lemma {:induction false} RunHitsComplete(dic: Table, s: string, i: nat, j: nat, e: nat)
    requires i <= j <= |s| && j < e <= RunEnd(dic, s, i, j)
    requires s[i..e] in dic && dic[s[i..e]]
    ensures Match(s[i..e], i, e) in RunHits(dic, s, i, j)
    decreases |s| - j
  {
    if e > j + 1 {
      RunHitsComplete(dic, s, i, j + 1, e);
    }
  }

  /** When complete keywords are prefix-closed, the run from `i` reaches the end of every keyword occurring at `i`. */
  lemma ClosedRunReaches(dic: Table, s: string, i: nat, e: nat)
    requires FlagsPrefixClosed(dic)
    requires i < e <= |s| && s[i..e] in dic && dic[s[i..e]]
    ensures e <= RunEnd(dic, s, i, i)
  {
    forall k | i < k <= e ensures s[i..k] in dic {
      assert s[i..e][..k - i] == s[i..k];
    }
    RunEndAtLeast(dic, s, i, i, e);
  }

  /** The run extends at least as far as the keys go on. */
  lemma {:induction false} RunEndAtLeast<V>(m: map<string, V>, s: string, i: nat, j: nat, e: nat)
    requires i <= j <= e <= |s|
    requires forall k :: j < k <= e ==> s[i..k] in m
    ensures e <= RunEnd(m, s, i, j)
    decreases e - j
  {
    if j < e {
      RunEndAtLeast(m, s, i, j + 1, e);
    }
  }

  /** The sequence of words of a list of matches. */
  function Words(ms: seq<Match>): (ws: seq<string>)
  {
    seq(|ms|, k requires 0 <= k < |ms| => ms[k].word)
  }

  lemma WordsAppend(a: seq<Match>, b: seq<Match>)
    ensures Words(a + b) == Words(a) + Words(b)
  {
  }

  /** Emitting `piece` moves it from what is left to what was produced. */
  lemma Shift<T>(done: seq<T>, piece: seq<T>, rest: seq<T>)
    ensures (done + piece) + rest == done + (piece + rest)
  {
  }

  /** Reporting the words of `step` moves them from what is left to what was reported. */
  lemma WordsShift(ws: seq<string>, step: seq<Match>, rest: seq<Match>)
    ensures (ws + Words(step)) + Words(rest) == ws + Words(step + rest)
  {
    WordsAppend(step, rest);
  }

  /** `m` is an occurrence of a complete keyword in `s`. */
  predicate Occurs(dic: Table, s: string, m: Match) {
    m.start < m.end <= |s| && m.word == s[m.start..m.end] && m.word in dic && dic[m.word]
  }

  /**
   * The candidate the inner loop started at `i` leaves in `word`: the last,
   * hence longest, one of its run, or `None` when the run met no flag 1.
   */
  function Longest(dic: Table, s: string, i: nat): (r: Option<Match>)
    requires i <= |s|
    ensures r.None? <==> RunHits(dic, s, i, i) == []
    ensures r.Some? ==> r.value in RunHits(dic, s, i, i)
    ensures r.Some? ==> r.value.start == i && i < r.value.end <= RunEnd(dic, s, i, i) && r.value.end == i + |r.value.word|
    ensures r.Some? ==> r.value.word == s[i..r.value.end] && r.value.word in dic && dic[r.value.word]
    ensures r.Some? ==> forall h :: h in RunHits(dic, s, i, i) ==> h.end <= r.value.end
  {
    var hits := RunHits(dic, s, i, i);
    RunHitsSound(dic, s, i, i);
    RunLastIsLast(dic, s, i, i, None);
    assert hits != [] ==> hits[|hits| - 1] in hits;
    assert hits != [] ==> forall p :: 0 <= p < |hits| - 1 ==> hits[p].end < hits[|hits| - 1].end;
    RunLast(dic, s, i, i, None)
  }

  /** `Longest` is what the inner loop leaves in `word`. */
  lemma LongestIsRunLast(dic: Table, s: string, i: nat)
    requires i <= |s|
    ensures Longest(dic, s, i) == RunLast(dic, s, i, i, None)
  {
  }

  /**
   * What the inner loop started at `i` holds in `word` at the end, having
   * reached `j` with `w`: the last candidate with flag 1.
   */
  function RunLast(dic: Table, s: string, i: nat, j: nat, w: Option<Match>): Option<Match>
    requires i <= j <= |s|
    decreases |s| - j
  {
    if j < |s| && s[i..j + 1] in dic then
      RunLast(dic, s, i, j + 1, if dic[s[i..j + 1]] then Some(Match(s[i..j + 1], i, j + 1)) else w)
    else w
  }

  lemma {:induction false} RunLastIsLast(dic: Table, s: string, i: nat, j: nat, w: Option<Match>)
    requires i <= j <= |s|
    ensures var hits := RunHits(dic, s, i, j);
      RunLast(dic, s, i, j, w) == if hits == [] then w else Some(hits[|hits| - 1])
    decreases |s| - j
  {
    if j < |s| && s[i..j + 1] in dic {
      RunLastIsLast(dic, s, i, j + 1, if dic[s[i..j + 1]] then Some(Match(s[i..j + 1], i, j + 1)) else w);
      RunHitsUnfold(dic, s, i, j);
    }
  }

  /**
   * The outer loop of `extract_keywords_with_index` with `skip_match` false,
   * from start index `i`: every candidate of every run.
   */
  function AllFrom(dic: Table, s: string, i: nat): (ms: seq<Match>)
    requires i <= |s|
    ensures forall m :: m in ms ==>
              i <= m.start < m.end <= |s| && m.word == s[m.start..m.end] &&
              m.word in dic && dic[m.word]
    decreases |s| - i
  {
    if i == |s| then []
    else
      RunHitsSound(dic, s, i, i);
      RunHits(dic, s, i, i) + AllFrom(dic, s, i + 1)
  }

  /**
   * The same loop with `skip_match` true: the longest candidate of a run is
   * reported and the scan resumes just past it.
   */
  function LongestFrom(dic: Table, s: string, i: nat): (ms: seq<Match>)
    requires i <= |s|
    decreases |s| - i
  {
    if i == |s| then []
    else
      match Longest(dic, s, i)
      case None => LongestFrom(dic, s, i + 1)
      case Some(w) => [w] + LongestFrom(dic, s, i + |w.word|)
  }

  /** With skipping, every report is an occurrence of a complete keyword at or after `i`. */
  lemma {:induction false} LongestSound(dic: Table, s: string, i: nat)
    requires i <= |s|
    ensures forall m :: m in LongestFrom(dic, s, i) ==> i <= m.start && Occurs(dic, s, m)
    decreases |s| - i
  {
    if i < |s| {
      match Longest(dic, s, i)
      case None =>
        LongestSound(dic, s, i + 1);
      case Some(w) =>
        LongestSound(dic, s, i + |w.word|);
    }
  }

  /** `extract_keywords_with_index(sentence, skip_match)`. */
  function Matches(dic: Table, s: string, skip: bool): seq<Match> {
    if skip then LongestFrom(dic, s, 0) else AllFrom(dic, s, 0)
  }

  /**
   * What `extract_keywords_with_index` promises: every report is an
   * occurrence of a keyword; without skipping the reports are ordered and,
   * when the table is closed under prefixes, are all the occurrences; with
   * skipping they do not overlap.
   */
  lemma MatchesProperties(dic: Table, s: string, skip: bool)
    ensures forall m :: m in Matches(dic, s, skip) ==> Occurs(dic, s, m)
    ensures !skip ==> Ordered(Matches(dic, s, skip))
    ensures !skip && FlagsPrefixClosed(dic) ==> forall m :: m in Matches(dic, s, skip) <==> Occurs(dic, s, m)
    ensures skip ==> Disjoint(Matches(dic, s, skip))
  {
    AllOrdered(dic, s, 0);
    LongestDisjoint(dic, s, 0);
    LongestSound(dic, s, 0);
    if !skip && FlagsPrefixClosed(dic) {
      forall m ensures m in Matches(dic, s, skip) <==> Occurs(dic, s, m) {
        AllExact(dic, s, m);
      }
    }
  }

  /** `extract_keywords(sentence, skip_match)`: the same scan without the spans. */
  function Extract(dic: Table, s: string, skip: bool): seq<string> {
    Words(Matches(dic, s, skip))
  }

  /** `(start, end)` of `a` comes lexicographically before that of `b`. */
  predicate Before(a: Match, b: Match) {
    a.start < b.start || (a.start == b.start && a.end < b.end)
  }

  /** Every match comes before every later one. */
  predicate Ordered(ms: seq<Match>) {
    forall a, b :: 0 <= a < b < |ms| ==> Before(ms[a], ms[b])
  }

  /** Every span ends before the next one starts. */
  predicate Disjoint(ms: seq<Match>) {
    forall a, b :: 0 <= a < b < |ms| ==> ms[a].end <= ms[b].start
  }

  /** Without skipping, results come by start index, then by increasing length. */
  lemma {:induction false} AllOrdered(dic: Table, s: string, i: nat)
    requires i <= |s|
    ensures Ordered(AllFrom(dic, s, i))
    decreases |s| - i
  {
    if i < |s| {
      var hits := RunHits(dic, s, i, i);
      var rest := AllFrom(dic, s, i + 1);
      RunHitsSound(dic, s, i, i);
      AllOrdered(dic, s, i + 1);
      var ms := hits + rest;
      assert AllFrom(dic, s, i) == ms;
      forall a, b | 0 <= a < b < |ms| ensures Before(ms[a], ms[b]) {
        if b < |hits| {
          assert ms[a] == hits[a] && ms[b] == hits[b];
          assert hits[a] in hits && hits[b] in hits;
          assert hits[a].end < hits[b].end;
        } else if a < |hits| {
          assert ms[a] in hits && ms[b] in rest;
          assert ms[a].start == i;
          assert ms[b].start >= i + 1;
        } else {
          assert ms[a] == rest[a - |hits|] && ms[b] == rest[b - |hits|];
          assert Before(rest[a - |hits|], rest[b - |hits|]);
        }
      }
    }
  }

  /** Without skipping, every occurrence of a complete keyword starting at or after `i` is reported. */
  lemma {:induction false} AllComplete(dic: Table, s: string, i: nat, st: nat, e: nat)
    requires FlagsPrefixClosed(dic)
    requires i <= st < e <= |s| && s[st..e] in dic && dic[s[st..e]]
    ensures Match(s[st..e], st, e) in AllFrom(dic, s, i)
    decreases |s| - i
  {
    if st == i {
      ClosedRunReaches(dic, s, i, e);
      RunHitsComplete(dic, s, i, i, e);
    } else {
      AllComplete(dic, s, i + 1, st, e);
    }
  }

  /**
   * Without skipping, the report is exactly the set of occurrences of
   * complete keywords: each result is one, and each one is a result.
   */
  lemma AllExact(dic: Table, s: string, m: Match)
    requires FlagsPrefixClosed(dic)
    ensures m in Matches(dic, s, false) <==> Occurs(dic, s, m)
  {
    if Occurs(dic, s, m) {
      AllComplete(dic, s, 0, m.start, m.end);
    }
  }

  lemma DisjointCons(w: Match, rest: seq<Match>)
    requires Disjoint(rest)
    requires forall m :: m in rest ==> w.end <= m.start
    ensures Disjoint([w] + rest)
  {
    var ms := [w] + rest;
    forall a, b | 0 <= a < b < |ms| ensures ms[a].end <= ms[b].start {
      assert ms[b] == rest[b - 1];
      if a > 0 {
        assert ms[a] == rest[a - 1];
      }
    }
  }

  /** With skipping, reported spans do not overlap and come in sentence order. */
  lemma {:induction false} LongestDisjoint(dic: Table, s: string, i: nat)
    requires i <= |s|
    ensures Disjoint(LongestFrom(dic, s, i))
    decreases |s| - i
  {
    if i < |s| {
      match Longest(dic, s, i)
      case None =>
        LongestNoneStep(dic, s, i);
        LongestDisjoint(dic, s, i + 1);
      case Some(w) =>
        var rest := LongestFrom(dic, s, i + |w.word|);
        LongestStep(dic, s, i, w);
        LongestDisjoint(dic, s, i + |w.word|);
        DisjointCons(w, rest);
    }
  }

  /** One step of the skipping scan where the run met no keyword. */
  lemma LongestNoneStep(dic: Table, s: string, i: nat)
    requires i < |s| && Longest(dic, s, i) == None
    ensures LongestFrom(dic, s, i) == LongestFrom(dic, s, i + 1)
  {
  }

  /** One step of the skipping scan that reports `w`; what comes after starts at or after its end. */
  lemma LongestStep(dic: Table, s: string, i: nat, w: Match)
    requires i < |s| && Longest(dic, s, i) == Some(w)
    ensures LongestFrom(dic, s, i) == [w] + LongestFrom(dic, s, i + |w.word|)
    ensures forall m :: m in LongestFrom(dic, s, i + |w.word|) ==> w.end <= m.start
  {
    LongestSound(dic, s, i + |w.word|);
  }

  /** The longest candidate of a run is the longest complete keyword at its start (given prefix-closed keywords). */
  lemma LongestIsLongest(dic: Table, s: string, i: nat, e: nat)
    requires FlagsPrefixClosed(dic) && i < e <= |s|
    ensures s[i..e] in dic && dic[s[i..e]] ==>
              Longest(dic, s, i).Some? && e <= Longest(dic, s, i).value.end
  {
    if s[i..e] in dic && dic[s[i..e]] {
      ClosedRunReaches(dic, s, i, e);
      RunHitsComplete(dic, s, i, i, e);
    }
  }

  /**
   * With skipping, a reported word is the longest complete keyword starting
   * where it starts (given prefix-closed keywords).
   */
  lemma LongestMaximal(dic: Table, s: string, m: Match)
    requires FlagsPrefixClosed(dic)
    requires m in Matches(dic, s, true)
    ensures m.start < m.end <= |s| &&
            forall e :: m.end < e <= |s| ==> !(s[m.start..e] in dic && dic[s[m.start..e]])
  {
    LongestInRun(dic, s, 0, m);
    forall e | m.end < e <= |s| ensures !(s[m.start..e] in dic && dic[s[m.start..e]]) {
      LongestIsLongest(dic, s, m.start, e);
    }
  }

  /** A candidate of the run at `st` is reported by the overlapping scan from any `i <= st`. */
  lemma {:induction false} RunInAll(dic: Table, s: string, i: nat, st: nat, h: Match)
    requires i <= st < |s| && h in RunHits(dic, s, st, st)
    ensures h in AllFrom(dic, s, i)
    decreases st - i
  {
    if i < st {
      RunInAll(dic, s, i + 1, st, h);
    }
  }

  /** A match reported with skipping is the longest candidate of the run at its start. */
  lemma {:induction false} LongestInRun(dic: Table, s: string, i: nat, m: Match)
    requires i <= |s| && m in LongestFrom(dic, s, i)
    ensures i <= m.start < |s| && Longest(dic, s, m.start) == Some(m)
    decreases |s| - i
  {
    assert i < |s|;
    match Longest(dic, s, i)
    case None =>
      LongestInRun(dic, s, i + 1, m);
    case Some(w) =>
      if m != w {
        LongestInRun(dic, s, i + |w.word|, m);
      }
  }

  /** Every word reported with skipping is also reported, at the same span, without skipping. */
  lemma LongestWithinAll(dic: Table, s: string, m: Match)
    requires m in Matches(dic, s, true)
    ensures m in Matches(dic, s, false)
  {
    LongestInRun(dic, s, 0, m);
    RunInAll(dic, s, 0, m.start, m);
  }

  // ---------------------------------------------------------------------------
  // Replacing
  // ---------------------------------------------------------------------------

  /** `if self._replace_map[flag]`: the key has a target that is not None and not empty. */
  predicate Replaces(rm: ReplaceTable, w: string) {
    w in rm && rm[w].Some? && rm[w].value != ""
  }

  /** The replacement table seen through the truth test of `replace_keywords`, as a flag table. */
  function TruthTable(rm: ReplaceTable): (t: Table)
    ensures t.Keys == rm.Keys
    ensures forall k :: k in t ==> (t[k] <==> Replaces(rm, k))
  {
    map k | k in rm :: Replaces(rm, k)
  }

  /**
   * The source the inner loop of `replace_keywords` started at `i` leaves in
   * `word`, having reached `j` with `w` so far: the last prefix of the run
   * whose target passes the truth test.
   */
  function RunSource(rm: ReplaceTable, s: string, i: nat, j: nat, w: Option<string>): Option<string>
    requires i <= j <= |s|
    decreases |s| - j
  {
    if j < |s| && s[i..j + 1] in rm then
      RunSource(rm, s, i, j + 1, if Replaces(rm, s[i..j + 1]) then Some(s[i..j + 1]) else w)
    else w
  }

  /** What the inner loop keeps is a replaceable source starting at `i` and inside the run. */
  lemma {:induction false} RunSourceSound(rm: ReplaceTable, s: string, i: nat, j: nat, w: Option<string>)
    requires i <= j <= |s|
    requires w.Some? ==> Replaces(rm, w.value) && 0 < |w.value| && i + |w.value| <= j && w.value == s[i..i + |w.value|]
    ensures var r := RunSource(rm, s, i, j, w);
      r.Some? ==> Replaces(rm, r.value) && 0 < |r.value| && i + |r.value| <= RunEnd(rm, s, i, j) &&
                  r.value == s[i..i + |r.value|]
    decreases |s| - j
  {
    if j < |s| && s[i..j + 1] in rm {
      RunSourceSound(rm, s, i, j + 1, if Replaces(rm, s[i..j + 1]) then Some(s[i..j + 1]) else w);
    }
  }

  /** A run in which no prefix passes the truth test keeps nothing. */
  lemma {:induction false} RunSourceNone(rm: ReplaceTable, s: string, i: nat, j: nat)
    requires i <= j <= |s|
    requires forall e :: j < e <= |s| ==> !Replaces(rm, s[i..e])
    ensures RunSource(rm, s, i, j, None) == None
    decreases |s| - j
  {
    if j < |s| && s[i..j + 1] in rm {
      RunSourceNone(rm, s, i, j + 1);
    }
  }

  /**
   * The source kept is the longest candidate of the run under the truth
   * test, the same choice `extract_keywords` makes with skipping.
   */
  lemma {:induction false} RunSourceIsLast(rm: ReplaceTable, s: string, i: nat, j: nat, w: Option<string>)
    requires i <= j <= |s|
    ensures var hits := RunHits(TruthTable(rm), s, i, j);
      RunSource(rm, s, i, j, w) == if hits == [] then w else Some(hits[|hits| - 1].word)
    decreases |s| - j
  {
    var t := TruthTable(rm);
    if j < |s| && s[i..j + 1] in rm {
      var w' := if Replaces(rm, s[i..j + 1]) then Some(s[i..j + 1]) else w;
      RunSourceIsLast(rm, s, i, j + 1, w');
      RunHitsUnfold(t, s, i, j);
    }
  }

  lemma RunSourceIsLongest(rm: ReplaceTable, s: string, i: nat)
    requires i <= |s|
    ensures RunSource(rm, s, i, i, None) ==
      match Longest(TruthTable(rm), s, i) case None => None case Some(m) => Some(m.word)
  {
    RunSourceIsLast(rm, s, i, i, None);
    RunLastIsLast(TruthTable(rm), s, i, i, None);
  }

  /**
   * The outer loop of `replace_keywords` from index `i`: on a match the
   * target of the source kept is emitted and the scan resumes at `j`,
   * where the run of registered prefixes ended.
   */
  function ReplaceFrom(rm: ReplaceTable, s: string, i: nat): string
    requires i <= |s|
    decreases |s| - i
  {
    if i == |s| then ""
    else
      RunSourceSound(rm, s, i, i, None);
      match RunSource(rm, s, i, i, None)
      case None => [s[i]] + ReplaceFrom(rm, s, i + 1)
      case Some(w) => rm[w].value + ReplaceFrom(rm, s, RunEnd(rm, s, i, i))
  }

  /** `replace_keywords(sentence)`. */
  function Replace(rm: ReplaceTable, s: string): string {
    ReplaceFrom(rm, s, 0)
  }

  /** No substring of `s` is a source that `replace_keywords` would replace. */
  ghost predicate NoSourceOccurs(rm: ReplaceTable, s: string) {
    forall st, e :: 0 <= st < e <= |s| ==> !Replaces(rm, s[st..e])
  }

  /** A sentence in which no source occurs is returned unchanged (an empty one included). */
  lemma {:induction false} ReplaceIdentity(rm: ReplaceTable, s: string, i: nat)
    requires i <= |s| && NoSourceOccurs(rm, s)
    ensures ReplaceFrom(rm, s, i) == s[i..]
    decreases |s| - i
  {
    if i < |s| {
      RunSourceNone(rm, s, i, i);
      ReplaceIdentity(rm, s, i + 1);
      assert s[i..] == [s[i]] + s[i + 1..];
    }
  }

  /** With every target `None` or empty, `replace_keywords` hands back every sentence unchanged. */
  lemma ReplaceWithoutTargets(rm: ReplaceTable, s: string)
    requires forall k :: k in rm ==> rm[k] == None || rm[k] == Some("")
    ensures Replace(rm, s) == s
  {
    ReplaceIdentity(rm, s, 0);
  }

  /** One piece of a sentence cut for replacement: a character kept, or a source with its target. */
  datatype Piece = Kept(c: char) | Swapped(source: string, target: string)

  /** The text the pieces were cut from. */
  function Sources(ps: seq<Piece>): string {
    if ps == [] then ""
    else (match ps[0] case Kept(c) => [c] case Swapped(a, _) => a) + Sources(ps[1..])
  }

  /** The text the pieces are replaced by. */
  function Targets(ps: seq<Piece>): string {
    if ps == [] then ""
    else (match ps[0] case Kept(c) => [c] case Swapped(_, b) => b) + Targets(ps[1..])
  }

  /**
   * The cut made by the intended replacement from `i`: the pieces tile the
   * rest of the sentence exactly, and every swapped source is a registered
   * source whose target is that piece's target.
   */
  function Pieces(rm: ReplaceTable, s: string, i: nat): (ps: seq<Piece>)
    requires i <= |s|
    ensures Sources(ps) == s[i..]
    ensures forall p :: p in ps && p.Swapped? ==> Replaces(rm, p.source) && p.target == rm[p.source].value
    decreases |s| - i
  {
    if i == |s| then []
    else
      match Longest(TruthTable(rm), s, i)
      case None =>
        assert s[i..] == [s[i]] + s[i + 1..];
        [Kept(s[i])] + Pieces(rm, s, i + 1)
      case Some(w) =>
        assert s[i..] == w.word + s[i + |w.word|..];
        [Swapped(w.word, rm[w.word].value)] + Pieces(rm, s, i + |w.word|)
  }

  /**
   * `replace_keywords` as evidently intended: the targets of the cut, so that
   * after the target of the longest source at `i` the scan resumes just
   * past that source.
   */
  function ReplaceFixed(rm: ReplaceTable, s: string): string {
    Targets(Pieces(rm, s, 0))
  }

  lemma TargetsCons(p: Piece, ps: seq<Piece>)
    ensures Targets([p] + ps) == (match p case Kept(c) => [c] case Swapped(_, b) => b) + Targets(ps)
  {
    assert ([p] + ps)[1..] == ps;
  }

  /** Pieces whose targets equal their sources are written back as they were cut. */
  lemma {:induction false} TargetsOfFixedPoints(ps: seq<Piece>)
    requires forall p :: p in ps && p.Swapped? ==> p.target == p.source
    ensures Targets(ps) == Sources(ps)
  {
    if ps != [] {
      assert ps[0] in ps;
      TargetsOfFixedPoints(ps[1..]);
    }
  }

  /** With every source mapped to itself, the intended replacement returns the sentence unchanged. */
  lemma ReplaceFixedSelfMap(rm: ReplaceTable, s: string)
    requires forall k :: Replaces(rm, k) ==> rm[k].value == k
    ensures ReplaceFixed(rm, s) == s
  {
    TargetsOfFixedPoints(Pieces(rm, s, 0));
  }

  /** Sources a and abc, each mapped to itself. */
  function SelfTable(): ReplaceTable {
    AddReplacements(map[], [("a", Some("a")), ("abc", Some("abc"))])
  }

  lemma SelfTableContents()
    ensures SelfTable() == map["a" := Some("a"), "ab" := None, "abc" := Some("abc")]
  {
    var a, abc := "a", "abc";
    assert a[..1] == "a" && abc[..1] == "a" && abc[..2] == "ab" && abc[..3] == "abc";
    var r1 := AddSourceFrom(map[], a, Some(a), 0);
    assert r1 == map["a" := Some("a")];
    var r2 := map["a" := Some("a"), "ab" := None];
    assert AddSourceFrom(r1, abc, Some(abc), 0) == AddSourceFrom(r2, abc, Some(abc), 2);
    assert AddSourceFrom(r2, abc, Some(abc), 2) == AddSourceFrom(r2["abc" := None], abc, Some(abc), 3);
    var pairs := [(a, Some(a)), (abc, Some(abc))];
    assert pairs[1..] == [(abc, Some(abc))] && pairs[1..][1..] == [];
    assert AddReplacements(map[], pairs) == AddReplacements(r1, [(abc, Some(abc))]);
  }

  /**
   * The resume index `i = j` loses text: with the sources a and abc mapped to
   * themselves, "abd" becomes "ad", the b after the match a being dropped.
   */
  lemma ReplaceDropsText()
    ensures Replace(SelfTable(), "abd") == "ad"
  {
    var rm, s := SelfTable(), "abd";
    SelfTableContents();
    SelfTableRun();
    assert ReplaceFrom(rm, s, 0) == "a" + ReplaceFrom(rm, s, 2);
  }

  /** In "abd" the run at 0 covers a and ab and keeps a; at 2 nothing is registered. */
  lemma SelfTableRun()
    ensures RunSource(SelfTable(), "abd", 0, 0, None) == Some("a")
    ensures RunEnd(SelfTable(), "abd", 0, 0) == 2
    ensures ReplaceFrom(SelfTable(), "abd", 2) == "d"
  {
    SelfTableContents();
    LiteralRun(SelfTable());
  }

  lemma LiteralRun(rm: ReplaceTable)
    requires rm == map["a" := Some("a"), "ab" := None, "abc" := Some("abc")]
    ensures RunSource(rm, "abd", 0, 0, None) == Some("a")
    ensures RunEnd(rm, "abd", 0, 0) == 2
    ensures ReplaceFrom(rm, "abd", 2) == "d"
  {
    var s := "abd";
    assert s[0..1] == "a" && s[0..2] == "ab" && s[0..3] == "abd" && s[2..3] == "d";
    assert RunSource(rm, s, 0, 0, None) == RunSource(rm, s, 0, 2, Some("a"));
  }

  /** The intended replacement returns "abd" unchanged under the same table. */
  lemma ReplaceFixedKeepsText()
    ensures ReplaceFixed(SelfTable(), "abd") == "abd"
  {
    SelfTableContents();
    ReplaceFixedSelfMap(SelfTable(), "abd");
  }

  // ---------------------------------------------------------------------------
  // Concrete behaviour
  // ---------------------------------------------------------------------------

  /** Strictly ordered matches drawn from `{a, b}` that contain both are exactly `[a, b]`. */
  lemma OrderedPair(ms: seq<Match>, a: Match, b: Match)
    requires Ordered(ms) && Before(a, b) && a in ms && b in ms
    requires forall m :: m in ms ==> m == a || m == b
    ensures ms == [a, b]
  {
    assert a != b;
    assert |ms| >= 2;
    assert ms[0] in ms && ms[1] in ms && ms[|ms| - 1] in ms;
    assert Before(ms[0], ms[1]);
  }

  /** Where no complete keyword starts at or after `i`, the skipping scan reports nothing more. */
  lemma {:induction false} LongestNone(dic: Table, s: string, i: nat)
    requires i <= |s|
    requires forall m: Match :: Occurs(dic, s, m) ==> m.start < i
    ensures LongestFrom(dic, s, i) == []
    decreases |s| - i
  {
    if i < |s| {
      assert Longest(dic, s, i).None?;
      LongestNone(dic, s, i + 1);
    }
  }

  /** With skipping, starts before the first occurrence report nothing. */
  lemma {:induction false} LongestSkipsTo(dic: Table, s: string, i: nat, j: nat)
    requires i <= j <= |s|
    requires forall m: Match :: Occurs(dic, s, m) ==> j <= m.start
    ensures LongestFrom(dic, s, i) == LongestFrom(dic, s, j)
    decreases j - i
  {
    if i < j {
      assert Longest(dic, s, i).None?;
      LongestSkipsTo(dic, s, i + 1, j);
    }
  }

  /** The table of the docstring example of `extract_keywords`, with the keywords cat and attention. */
  function CattentionTable(): Table {
    AddWords(map[], ["cat", "attention"])
  }

  /** The complete keywords of the example table are cat and attention. */
  lemma CattentionKeywords(w: string)
    ensures w in CattentionTable() && CattentionTable()[w] <==> w == "cat" || w == "attention"
  {
    var ws := ["cat", "attention"];
    AddWordsKeywords(map[], ws);
    assert w in Keywords(CattentionTable()) <==> w in ws;
  }

  /** In "cattention" the keywords cat and attention occur once each, overlapping at the a. */
  lemma CattentionOccurrences(m: Match)
    ensures Occurs(CattentionTable(), "cattention", m) <==>
              m == Match("cat", 0, 3) || m == Match("attention", 1, 10)
  {
    var s := "cattention";
    CattentionKeywords(m.word);
    CattentionKeywords("cat");
    CattentionKeywords("attention");
    assert s[0..3] == "cat" && s[1..10] == "attention";
    if Occurs(CattentionTable(), s, m) {
      OnlyOccurrence(s, m);
    }
  }

  /** Each of the two keywords starts at one place only in "cattention". */
  lemma OnlyOccurrence(s: string, m: Match)
    requires s == "cattention" && m.start < m.end <= |s| && m.word == s[m.start..m.end]
    requires m.word == "cat" || m.word == "attention"
    ensures m.word == "cat" ==> m.start == 0 && m.end == 3
    ensures m.word == "attention" ==> m.start == 1 && m.end == 10
  {
    assert s[m.start] == m.word[0];
    if m.word == "attention" {
      assert s[m.start + 1] == 't';
    }
  }

  /** Without skipping the example reports both keywords, in order. */
  lemma CattentionAll()
    ensures Extract(CattentionTable(), "cattention", false) == ["cat", "attention"]
  {
    CattentionAllMatches();
  }

  lemma CattentionAllMatches()
    ensures Matches(CattentionTable(), "cattention", false) == [Match("cat", 0, 3), Match("attention", 1, 10)]
  {
    var dic, s := CattentionTable(), "cattention";
    var cat, attention := Match("cat", 0, 3), Match("attention", 1, 10);
    AddWordsKeepsClosed(map[], ["cat", "attention"]);
    CattentionOccurrences(cat);
    CattentionOccurrences(attention);
    AllExact(dic, s, cat);
    AllExact(dic, s, attention);
    AllOrdered(dic, s, 0);
    var all := Matches(dic, s, false);
    forall m | m in all ensures m == cat || m == attention {
      CattentionAllMember(m);
    }
    OrderedPair(all, cat, attention);
  }

  lemma CattentionAllMember(m: Match)
    requires m in Matches(CattentionTable(), "cattention", false)
    ensures m == Match("cat", 0, 3) || m == Match("attention", 1, 10)
  {
    AddWordsKeepsClosed(map[], ["cat", "attention"]);
    AllExact(CattentionTable(), "cattention", m);
    CattentionOccurrences(m);
  }

  /** With skipping the example reports only cat, the first match. */
  lemma CattentionSkip()
    ensures Extract(CattentionTable(), "cattention", true) == ["cat"]
  {
    var dic, s := CattentionTable(), "cattention";
    var cat := Match("cat", 0, 3);
    AddWordsKeepsClosed(map[], ["cat", "attention"]);
    CattentionOccurrences(cat);
    LongestIsLongest(dic, s, 0, 3);
    CattentionOccurrences(Longest(dic, s, 0).value);
    forall m: Match | Occurs(dic, s, m) ensures m.start < 3 {
      CattentionOccurrences(m);
    }
    LongestNone(dic, s, 3);
    assert LongestFrom(dic, s, 0) == [cat] + LongestFrom(dic, s, 3);
  }


  /** The keywords of the example run at the foot of `prefix_set.py`. */
  function CjkTable(): Table {
    AddWords(map[], ["中华人民共和国", "国人", "共和国"])
  }

  lemma CjkKeywords(dic: Table, w: string)
    requires dic == CjkTable()
    ensures w in dic && dic[w] <==> w == "中华人民共和国" || w == "国人" || w == "共和国"
  {
    var ws := ["中华人民共和国", "国人", "共和国"];
    AddWordsKeywords(map[], ws);
    assert w in Keywords(dic) <==> w in ws;
  }

  /** In "我是中华人民共和国人" the three keywords occur once each, the last two inside or across the end of the first. */
  lemma CjkOccurrences(dic: Table, s: string, m: Match)
    requires dic == CjkTable() && s == "我是中华人民共和国人"
    ensures Occurs(dic, s, m) <==>
              m == Match("中华人民共和国", 2, 9) || m == Match("共和国", 6, 9) || m == Match("国人", 8, 10)
  {
    CjkKeywords(dic, m.word);
    CjkKeywords(dic, "中华人民共和国");
    CjkKeywords(dic, "国人");
    CjkKeywords(dic, "共和国");
    assert s[2..9] == "中华人民共和国" && s[6..9] == "共和国" && s[8..10] == "国人";
    if Occurs(dic, s, m) {
      CjkOnlyOccurrence(s, m);
    }
  }

  /** Each keyword of the example starts at one place only, told by its first character. */
  lemma CjkOnlyOccurrence(s: string, m: Match)
    requires s == "我是中华人民共和国人" && m.start < m.end <= |s| && m.word == s[m.start..m.end]
    requires m.word == "中华人民共和国" || m.word == "国人" || m.word == "共和国"
    ensures m == Match("中华人民共和国", 2, 9) || m == Match("共和国", 6, 9) || m == Match("国人", 8, 10)
  {
    assert s[m.start] == m.word[0];
  }

  /** Every keyword of the example starts at or after index 2 and before index 9. */
  lemma CjkStarts(dic: Table, s: string)
    requires dic == CjkTable() && s == "我是中华人民共和国人"
    ensures forall m: Match :: Occurs(dic, s, m) ==> 2 <= m.start < 9
  {
    forall m: Match | Occurs(dic, s, m) ensures 2 <= m.start < 9 {
      CjkOccurrences(dic, s, m);
    }
  }

  /** The longest keyword at index 2 is 中华人民共和国. */
  lemma CjkFirst(dic: Table, s: string)
    requires dic == CjkTable() && s == "我是中华人民共和国人"
    ensures Longest(dic, s, 2) == Some(Match("中华人民共和国", 2, 9))
  {
    AddWordsKeepsClosed(map[], ["中华人民共和国", "国人", "共和国"]);
    CjkOccurrences(dic, s, Match("中华人民共和国", 2, 9));
    LongestIsLongest(dic, s, 2, 9);
    CjkOccurrences(dic, s, Longest(dic, s, 2).value);
  }

  /**
   * With skipping the example reports only the longest keyword: the scan
   * resumes past its end and never returns to 共和国 or 国人.
   */
  lemma CjkSkip(dic: Table, s: string)
    requires dic == CjkTable() && s == "我是中华人民共和国人"
    ensures Extract(dic, s, true) == ["中华人民共和国"]
  {
    var k := Match("中华人民共和国", 2, 9);
    CjkStarts(dic, s);
    LongestSkipsTo(dic, s, 0, 2);
    CjkFirst(dic, s);
    LongestNone(dic, s, 9);
    assert LongestFrom(dic, s, 2) == [k] + LongestFrom(dic, s, 9);
    assert Words([k]) == ["中华人民共和国"];
  }

}
