/**
 * The `PrefixSet` class of cmip/text/prefix_set.py (and its copy in
 * timing.py) as an object whose two dictionaries are fields that its
 * methods update in place. Every method is proved against the functions of
 * `PrefixScan`, where the properties of extraction and replacement live.
 */
module PrefixSets {
  import opened Options
  import opened PrefixScan

  /**
   * The inner `while j < n and flag in self.prefix_dic` loop of the scans,
   * started at `i`: the candidates with flag 1 met on the way, shortest
   * first, and the last, hence longest, of them.
   */
  method Candidates(dic: Table, sentence: string, i: nat) returns (found: seq<Match>, word: Option<Match>)
    requires i < |sentence|
    ensures found == RunHits(dic, sentence, i, i)
    ensures word == Longest(dic, sentence, i)
  {
    var n := |sentence|;
    var flag := sentence[i..i + 1];
    var j := i;
    found := [];
    word := None;
    while j < n && flag in dic
      invariant i <= j <= n
      invariant flag == sentence[i..if j + 1 <= n then j + 1 else n]
      invariant found + RunHits(dic, sentence, i, j) == RunHits(dic, sentence, i, i)
      invariant RunLast(dic, sentence, i, j, word) == RunLast(dic, sentence, i, i, None)
      decreases n - j
    {
      RunHitsUnfold(dic, sentence, i, j);
      if dic[flag] {
        Shift(found, [Match(flag, i, j + 1)], RunHits(dic, sentence, i, j + 1));
        found := found + [Match(flag, i, j + 1)];
        word := Some(Match(flag, i, j + 1));
      }
      j := j + 1;
      flag := sentence[i..if j + 1 <= n then j + 1 else n];
    }
    assert found == RunHits(dic, sentence, i, i);
    LongestIsRunLast(dic, sentence, i);
  }

  class PrefixSet {
    /** `_prefix_dic`: every registered prefix with its flag (true for 1). */
    var prefixDic: Table
    /** `_replace_map`: every registered prefix of a source with its target, `None` for a bare prefix. */
    var replaceMap: ReplaceTable

    /** The complete keywords are closed under prefixes, as every operation keeps them. */
    ghost predicate Valid()
      reads this
    {
      FlagsPrefixClosed(prefixDic)
    }

    constructor ()
      ensures Valid()
      ensures prefixDic == map[] && replaceMap == map[]
    {
      prefixDic := map[];
      replaceMap := map[];
    }

    /** `get_keywords()`. */
    function GetKeywords(): (r: set<string>)
      reads this
      ensures forall w :: w in r <==> w in prefixDic && prefixDic[w]
    {
      Keywords(prefixDic)
    }

    /** `get_replace_map()`: every source with the target it was given last. */
    function GetReplaceMap(): (r: map<string, string>)
      reads this
      ensures forall a :: a in r <==> a in replaceMap && replaceMap[a].Some?
      ensures forall a :: a in r ==> replaceMap[a] == Some(r[a])
    {
      ReplaceMap(replaceMap)
    }

    /** `add_keywords_from_list(words)`. */
    method AddKeywordsFromList(words: seq<string>)
      requires Valid()
      modifies this
      ensures Valid()
      ensures prefixDic == AddWords(old(prefixDic), words) && replaceMap == old(replaceMap)
      ensures GetKeywords() == old(GetKeywords()) + set w | w in words
    {
      for k := 0 to |words|
        invariant prefixDic == AddWords(old(prefixDic), words[..k])
        invariant replaceMap == old(replaceMap)
      {
        AddWordsSnoc(old(prefixDic), words[..k], words[k]);
        assert words[..k + 1] == words[..k] + [words[k]];
        AddKeyword(words[k]);
      }
      assert words[..|words|] == words;
      AddWordsKeywords(old(prefixDic), words);
      AddWordsKeepsClosed(old(prefixDic), words);
    }

    /**
     * `add_keyword(word)`: every non-empty prefix gets flag 0 unless it is
     * registered already, then the word itself gets flag 1.
     */
    method AddKeyword(word: string)
      modifies this
      ensures prefixDic == AddWord(old(prefixDic), word) && replaceMap == old(replaceMap)
      ensures GetKeywords() == old(GetKeywords()) + {word}
      ensures old(Valid()) ==> Valid()
    {
      var w := "";
      for i := 0 to |word|
        invariant w == word[..i]
        invariant AddFrom(prefixDic, word, i) == AddWord(old(prefixDic), word)
        invariant replaceMap == old(replaceMap)
      {
        w := w + [word[i]];
        assert w == word[..i + 1];
        if w !in prefixDic {
          prefixDic := prefixDic[w := false];
        }
      }
      assert w == word;
      prefixDic := prefixDic[w := true];
      AddWordKeywords(old(prefixDic), word);
      if old(Valid()) {
        AddWordKeepsClosed(old(prefixDic), word);
      }
    }

    /**
     * `add_keywords_replace_map_from_dict(source_target_map)`, the dictionary
     * given as its items in iteration order.
     */
    method AddKeywordsReplaceMapFromDict(pairs: seq<(string, Option<string>)>)
      modifies this
      ensures replaceMap == AddReplacements(old(replaceMap), pairs) && prefixDic == old(prefixDic)
    {
      for p := 0 to |pairs|
        invariant replaceMap == AddReplacements(old(replaceMap), pairs[..p])
        invariant prefixDic == old(prefixDic)
      {
        var (a, b) := pairs[p];
        AddReplacementsSnoc(old(replaceMap), pairs[..p], a, b);
        assert pairs[..p + 1] == pairs[..p] + [(a, b)];
        ghost var before := replaceMap;
        var w := "";
        for i := 0 to |a|
          invariant w == a[..i]
          invariant AddSourceFrom(replaceMap, a, b, i) == AddSourceFrom(before, a, b, 0)
          invariant prefixDic == old(prefixDic)
        {
          w := w + [a[i]];
          assert w == a[..i + 1];
          if w !in replaceMap {
            replaceMap := replaceMap[w := None];
          }
        }
        replaceMap := replaceMap[a := b];
      }
      assert pairs[..|pairs|] == pairs;
    }

    /** `remove_keywords_from_list(words)`. */
    method RemoveKeywordsFromList(words: seq<string>)
      requires Valid()
      modifies this
      ensures Valid()
      ensures prefixDic == RemoveWords(old(prefixDic), words) && replaceMap == old(replaceMap)
      ensures GetKeywords() == old(GetKeywords()) - set w | w in words
    {
      for k := 0 to |words|
        invariant prefixDic == RemoveWords(old(prefixDic), words[..k])
        invariant replaceMap == old(replaceMap)
      {
        RemoveWordsSnoc(old(prefixDic), words[..k], words[k]);
        assert words[..k + 1] == words[..k] + [words[k]];
        RemoveKeyword(words[k]);
      }
      assert words[..|words|] == words;
      RemoveWordsKeywords(old(prefixDic), words);
    }

    /** `remove_keyword(word)`: the flag of `word` becomes 0, registered or not. */
    method RemoveKeyword(word: string)
      modifies this
      ensures prefixDic == RemoveWord(old(prefixDic), word) && replaceMap == old(replaceMap)
      ensures GetKeywords() == old(GetKeywords()) - {word}
      ensures old(Valid()) ==> Valid()
    {
      prefixDic := prefixDic[word := false];
      RemoveWordEffect(old(prefixDic), word);
    }

    /**
     * `extract_keywords_with_index(sentence, skip_match)`: the matches with
     * their spans. Without skipping these are exactly the occurrences of the
     * keywords, by start and then length; with skipping they do not overlap.
     */
    method ExtractKeywordsWithIndex(sentence: string, skipMatch: bool) returns (keywords: seq<Match>)
      ensures keywords == Matches(prefixDic, sentence, skipMatch)
      ensures forall m :: m in keywords ==> Occurs(prefixDic, sentence, m)
      ensures !skipMatch ==> Ordered(keywords)
      ensures !skipMatch && Valid() ==> forall m :: m in keywords <==> Occurs(prefixDic, sentence, m)
      ensures skipMatch ==> Disjoint(keywords)
    {
      var n := |sentence|;
      keywords := [];
      var i := 0;
      while i < n
        invariant 0 <= i <= n
        invariant keywords + ScanFrom(sentence, skipMatch, i) == ScanFrom(sentence, skipMatch, 0)
        decreases n - i
      {
        var found, word := Candidates(prefixDic, sentence, i);
        if !skipMatch {
          keywords := keywords + found;
        }
        ScanStep(sentence, skipMatch, i);
        if word.Some? && skipMatch {
          keywords := keywords + [word.value];
          i := i + |word.value.word| - 1;
        }
        i := i + 1;
      }
      assert ScanFrom(sentence, skipMatch, n) == [];
      MatchesProperties(prefixDic, sentence, skipMatch);
    }

    /** What is still to be reported from start index `i`. */
    function ScanFrom(sentence: string, skipMatch: bool, i: nat): seq<Match>
      reads this
      requires i <= |sentence|
    {
      if skipMatch then LongestFrom(prefixDic, sentence, i) else AllFrom(prefixDic, sentence, i)
    }

    /** One turn of the outer loop of the extraction methods. */
    lemma ScanStep(sentence: string, skipMatch: bool, i: nat)
      requires i < |sentence|
      ensures !skipMatch ==> ScanFrom(sentence, false, i) == RunHits(prefixDic, sentence, i, i) + ScanFrom(sentence, false, i + 1)
      ensures skipMatch && Longest(prefixDic, sentence, i).None? ==> ScanFrom(sentence, true, i) == ScanFrom(sentence, true, i + 1)
      ensures skipMatch && Longest(prefixDic, sentence, i).Some? ==>
        var w := Longest(prefixDic, sentence, i).value;
        0 < |w.word| && i + |w.word| <= |sentence| && ScanFrom(sentence, true, i) == [w] + ScanFrom(sentence, true, i + |w.word|)
    {
      match Longest(prefixDic, sentence, i)
      case None =>
        LongestNoneStep(prefixDic, sentence, i);
      case Some(w) =>
        LongestStep(prefixDic, sentence, i, w);
    }

    /** `extract_keywords(sentence, skip_match)`: the words of the same scan. */
    method ExtractKeywords(sentence: string, skipMatch: bool) returns (keywords: seq<string>)
      ensures keywords == Extract(prefixDic, sentence, skipMatch)
    {
      var n := |sentence|;
      keywords := [];
      var i := 0;
      while i < n
        invariant 0 <= i <= n
        invariant keywords + Words(ScanFrom(sentence, skipMatch, i)) == Extract(prefixDic, sentence, skipMatch)
        decreases n - i
      {
        var found, word := Candidates(prefixDic, sentence, i);
        if skipMatch {
          SkipWordsStep(keywords, sentence, i);
        } else {
          AllWordsStep(keywords, sentence, i);
          keywords := keywords + Words(found);
        }
        if word.Some? && skipMatch {
          keywords := keywords + [word.value.word];
          i := i + |word.value.word| - 1;
        }
        i := i + 1;
      }
      assert ScanFrom(sentence, skipMatch, n) == [];
    }

    /** A turn of the outer loop of `extract_keywords` without skipping reports the words of the run. */
    lemma AllWordsStep(keywords: seq<string>, sentence: string, i: nat)
      requires i < |sentence|
      ensures keywords + Words(ScanFrom(sentence, false, i)) ==
              (keywords + Words(RunHits(prefixDic, sentence, i, i))) + Words(ScanFrom(sentence, false, i + 1))
    {
      WordsShift(keywords, RunHits(prefixDic, sentence, i, i), AllFrom(prefixDic, sentence, i + 1));
    }

    /** A turn of the outer loop of `extract_keywords` with skipping reports the longest candidate, if any. */
    lemma SkipWordsStep(keywords: seq<string>, sentence: string, i: nat)
      requires i < |sentence|
      ensures match Longest(prefixDic, sentence, i)
        case None =>
          keywords + Words(ScanFrom(sentence, true, i)) == keywords + Words(ScanFrom(sentence, true, i + 1))
        case Some(w) =>
          0 < |w.word| && i + |w.word| <= |sentence| &&
          keywords + Words(ScanFrom(sentence, true, i)) == (keywords + [w.word]) + Words(ScanFrom(sentence, true, i + |w.word|))
    {
      match Longest(prefixDic, sentence, i)
      case None =>
        LongestNoneStep(prefixDic, sentence, i);
      case Some(w) =>
        LongestStep(prefixDic, sentence, i, w);
        WordsShift(keywords, [w], LongestFrom(prefixDic, sentence, i + |w.word|));
        assert Words([w]) == [w.word];
    }

    /**
     * `replace_keywords(sentence)` as it is written: after a replacement the
     * scan resumes where the run of registered prefixes ended.
     */
    method ReplaceKeywords(sentence: string) returns (newSentence: string)
      ensures newSentence == Replace(replaceMap, sentence)
      ensures NoSourceOccurs(replaceMap, sentence) ==> newSentence == sentence
    {
      var n := |sentence|;
      newSentence := "";
      var i := 0;
      while i < n
        invariant 0 <= i <= n
        invariant newSentence + ReplaceFrom(replaceMap, sentence, i) == Replace(replaceMap, sentence)
        decreases n - i
      {
        var word, j := SourceRun(sentence, i);
        RunSourceSound(replaceMap, sentence, i, i, None);
        if word.Some? {
          Shift(newSentence, replaceMap[word.value].value, ReplaceFrom(replaceMap, sentence, j));
          newSentence := newSentence + replaceMap[word.value].value;
          i := j;
        } else {
          Shift(newSentence, [sentence[i]], ReplaceFrom(replaceMap, sentence, i + 1));
          newSentence := newSentence + [sentence[i]];
          i := i + 1;
        }
      }
      assert ReplaceFrom(replaceMap, sentence, n) == "";
      if NoSourceOccurs(replaceMap, sentence) {
        ReplaceIdentity(replaceMap, sentence, 0);
        assert sentence[0..] == sentence;
      }
    }

    /**
     * The inner loop of `replace_keywords`, started at `i`: it extends the
     * candidate while it is a registered prefix of a source, keeps the last
     * candidate with a non-empty target in `word`, and stops at `j`.
     */
    method SourceRun(sentence: string, i: nat) returns (word: Option<string>, j: nat)
      requires i < |sentence|
      ensures word == RunSource(replaceMap, sentence, i, i, None)
      ensures j == RunEnd(replaceMap, sentence, i, i)
    {
      var n := |sentence|;
      var flag := sentence[i..i + 1];
      j := i;
      word := None;
      while j < n && flag in replaceMap
        invariant i <= j <= n
        invariant flag == sentence[i..if j + 1 <= n then j + 1 else n]
        invariant RunSource(replaceMap, sentence, i, j, word) == RunSource(replaceMap, sentence, i, i, None)
        invariant RunEnd(replaceMap, sentence, i, j) == RunEnd(replaceMap, sentence, i, i)
        decreases n - j
      {
        if replaceMap[flag].Some? && replaceMap[flag].value != "" {
          word := Some(flag);
        }
        j := j + 1;
        flag := sentence[i..if j + 1 <= n then j + 1 else n];
      }
    }
  }
}
