# Keyword engine of cmip, modelled in Dafny

cmip finds keywords in text and rewrites text with a replacement table. It
has two keyword engines and one domain helper, and this project models all
three:

- **`PrefixSet`** (`cmip/text/prefix_set.py`, with a second copy in
  `timing.py:105-221`). It keeps a dictionary from every non-empty prefix of
  every keyword to a flag: 1 for a complete keyword, 0 for a bare prefix. It
  also keeps a replacement map from every prefix of every source to its
  target or `None`. A scan from each start index extends the candidate while
  it is still a registered prefix. With `skip_match` it reports only the
  longest keyword and jumps past it. `replace_keywords` swaps the longest
  source found for its target.
- **`Trie`** (`timing.py:12-103`). A trie of nested dictionaries. The special
  keys `"**"` (keyword), `"&&"` (replacement) and `"##"` (link) mark its
  nodes. Insertion can lower-case the word. A breadth-first pass gives every
  node a link. `extract_keywords` walks the trie along the sentence in
  `all_mode` (every keyword met) or longest-first.
- **`top_domain`** (`cmip/web/utils.py:21-26`). It lower-cases a host name,
  splits it at dots and keeps the last two labels. It keeps three when the
  second-to-last label is `com`, `edu`, `net`, `org` or `co`.

Layout:

| file | module | contents |
|---|---|---|
| `options.dfy` | `Options` | `Option` |
| `text.dfy` | `Text` | ASCII `lower()`, suffixes |
| `domain.dfy` | `TopDomains` | `split`, `join`, `top_domain` |
| `prefix_scan.dfy` | `PrefixScan` | the prefix tables as values, the scans as recursive functions, their properties |
| `prefix_set.dfy` | `PrefixSets` | class `PrefixSet`, its fields and loops proved against `PrefixScan` |
| `trie_model.dfy` | `TrieModel` | the trie as sequences of children, its shape, links and scans as functions |
| `trie_steps.dfy`, `frontier.dfy`, `keyword_lists.dfy`, `link_steps.dfy` | | one step of each trie loop, as lemmas |
| `trie.dfy` | `Tries` | class `Trie` and the loops of its methods |

The trie's nested dictionaries are modelled as an arena. Node `v` has its
children `kids[v]`, a list of `(character, node)` pairs in insertion order.
It also has `term[v]` (the `"**"` entry), `repl[v]` (the `"&&"` entry) and
`fail[v]` (the `"##"` entry). The root is node 0. Ghost fields `paths` (the
string spelled from the root) and `parent` give the shape the proofs rely
on. Prefix flags are `bool`: `prefix_set.py` stores 0/1 and `timing.py`
stores `False`/`True`, and both copies test them the same way. A Python
dict argument of `add_keywords_replace_map_from_dict` is modelled as its
items in iteration order: a sequence of pairs of a source and a target that
may be `None`.

Two behaviours are kept as the code has them:

- `add_keyword("")` stores `""` with flag 1 and `Trie.__insert("")` marks the
  root. Neither rejects the empty word. The empty keyword is never reported,
  because scans look at non-empty candidates only.
- Textbook Aho–Corasick follows links until a child is found and links each
  node to its longest proper suffix. This code builds one-hop links, and
  `extract_keywords` never reads them: it reads `current.get("fail", root)`,
  and no node has a `"fail"` key. So on a missing child the scan returns to
  the root.

## Model

| member | source | states |
|---|---|---|
| PrefixSets.PrefixSet.constructor | cmip/text/prefix_set.py:3-5 | both dictionaries start empty |
| PrefixSets.PrefixSet.GetKeywords | cmip/text/prefix_set.py:7-8 | a word is returned exactly when its flag is 1 |
| PrefixSets.PrefixSet.GetReplaceMap | cmip/text/prefix_set.py:10-11 | exactly the entries whose target is not `None`, with that target |
| PrefixSets.PrefixSet.AddKeyword | cmip/text/prefix_set.py:17-23 | the table becomes `AddWord` of the old one; the keyword set gains exactly the word; prefix-closure is kept |
| PrefixSets.PrefixSet.AddKeywordsFromList | cmip/text/prefix_set.py:13-15 | words are added in order; the keyword set gains exactly the listed words |
| PrefixSets.PrefixSet.RemoveKeyword | cmip/text/prefix_set.py:38-39 | the word's flag becomes 0 (entry created if missing); the keyword set loses exactly the word; prefix-closure is kept |
| PrefixSets.PrefixSet.RemoveKeywordsFromList | cmip/text/prefix_set.py:34-36 | the keyword set loses exactly the listed words |
| PrefixSets.PrefixSet.AddKeywordsReplaceMapFromDict | cmip/text/prefix_set.py:25-32 | the map becomes `AddReplacements` of the old one over the pairs in order, a `None` target stored as given; the prefix table is untouched |
| PrefixSets.Candidates | cmip/text/prefix_set.py:55-64 | the inner loop collects the run of flag-1 candidates shortest first, and `word` is the longest keyword starting at `i` |
| PrefixSets.PrefixSet.ExtractKeywords | cmip/text/prefix_set.py:41-69 | the result is the words of `Matches` for the same table, sentence and mode |
| PrefixSets.PrefixSet.ExtractKeywordsWithIndex | cmip/text/prefix_set.py:71-90 | every report is an occurrence of a keyword at its `[start, end)`; without skipping the reports are ordered by `(start, end)` and, for a valid table, are exactly the occurrences; with skipping they do not overlap |
| PrefixSets.PrefixSet.SourceRun | cmip/text/prefix_set.py:103-110 | the inner loop of `replace_keywords` yields the last source with a truthy target in the run, and `j` is where the run of registered prefixes ends |
| PrefixSets.PrefixSet.ReplaceKeywords | cmip/text/prefix_set.py:92-117 | the result is `Replace` of the map and sentence; with no source occurring the sentence comes back unchanged |
| PrefixScan.AddWordEffect | cmip/text/prefix_set.py:17-23 | after adding, the keys are the old ones plus the word and its non-empty prefixes; the word has flag 1, old flags are kept and new prefixes get 0 |
| PrefixScan.AddWordIdempotent | cmip/text/prefix_set.py:17-23 | adding a word twice is the same as adding it once |
| PrefixScan.AddWordKeepsClosed | cmip/text/prefix_set.py:17-23 | every complete keyword keeps all its non-empty prefixes registered |
| PrefixScan.AddWordsKeywords | timing.py:117-127 | the keywords after adding a list are the old ones plus the list's words (the copy with boolean flags; `prefix_set.py:13-23` is the same loop) |
| PrefixScan.RemoveWordEffect | cmip/text/prefix_set.py:38-39 | removal drops exactly the word from the keywords, keeps every other flag and key, and keeps prefix-closure |
| PrefixScan.RemoveWordsKeywords | timing.py:138-143 | the keywords after removing a list are the old ones minus the list's words |
| PrefixScan.AddSourceEffect | cmip/text/prefix_set.py:26-32 | one pair registers the source and its prefixes (new prefixes get `None`) and maps the source to its target; `get_replace_map` then shows that target, or drops the source when the target is `None` |
| PrefixScan.AddReplacementsLastWins | cmip/text/prefix_set.py:25-32 | a source's replacement is the target of its last pair, and a last `None` drops it from `get_replace_map`; sources not in the pairs keep their replacement |
| PrefixScan.AddReplacementsRegisters | cmip/text/prefix_set.py:28-31 | every non-empty prefix of every source becomes a key |
| PrefixScan.AddReplacementsKeepsKeys | cmip/text/prefix_set.py:25-32 | no key is ever dropped |
| PrefixScan.RunEnd | cmip/text/prefix_set.py:58-64 | the inner loop stops at the first extension that is not a registered prefix, or at the end of the sentence |
| PrefixScan.RunHitsSound | cmip/text/prefix_set.py:58-64 | every candidate of the run is a flag-1 key starting at `i` inside the run, and they come shortest first |
| PrefixScan.RunHitsComplete | cmip/text/prefix_set.py:58-64 | every flag-1 key inside the run is a candidate |
| PrefixScan.Longest | cmip/text/prefix_set.py:58-67 | `word` is `None` exactly when the run has no candidate, and otherwise the longest candidate of the run |
| PrefixScan.LongestIsLongest | cmip/text/prefix_set.py:58-67 | for a valid table, no keyword starting at `i` is longer than the one reported there |
| PrefixScan.MatchesProperties | cmip/text/prefix_set.py:71-90 | reports are occurrences; without skipping they are ordered and, for a valid table, complete; with skipping they do not overlap |
| PrefixScan.AllOrdered | cmip/text/prefix_set.py:75-89 | without skipping, reports come by start and then by end |
| PrefixScan.AllExact | cmip/text/prefix_set.py:71-90 | for a valid table, a match is reported without skipping if and only if it is an occurrence of a keyword |
| PrefixScan.LongestDisjoint | cmip/text/prefix_set.py:86-89 | with skipping, each report ends at or before the next one starts |
| PrefixScan.LongestMaximal | cmip/text/prefix_set.py:86-89 | with skipping, no keyword starting where a report starts extends past its end |
| PrefixScan.LongestWithinAll | timing.py:145-173 | every report made with skipping is also made without |
| PrefixScan.LongestSkipsTo | cmip/text/prefix_set.py:65-68 | with skipping, starts before the first occurrence report nothing |
| PrefixScan.LongestNone | cmip/text/prefix_set.py:65-68 | with skipping, no report comes after the last occurrence starts |
| PrefixScan.CattentionOccurrences | cmip/text/prefix_set.py:47-49 | in "cattention" the keywords cat and attention occur once each, overlapping |
| PrefixScan.CattentionAll | cmip/text/prefix_set.py:47-48 | without skipping the example reports `["cat", "attention"]` |
| PrefixScan.CattentionSkip | cmip/text/prefix_set.py:47-49 | with skipping the example reports `["cat"]` |
| PrefixScan.CjkOccurrences | cmip/text/prefix_set.py:122-123 | the three keywords each occur once in "我是中华人民共和国人" |
| PrefixScan.CjkSkip | cmip/text/prefix_set.py:122-123 | with skipping the example reports only "中华人民共和国" |
| PrefixScan.ReplaceWithoutTargets | cmip/text/prefix_set.py:106-108 | a table whose every target is `None` or `""` passes no source through the truth test, so every sentence comes back unchanged |
| PrefixScan.RunSourceIsLongest | cmip/text/prefix_set.py:103-110 | the source the inner loop keeps is the longest one with a truthy target starting at `i` |
| PrefixScan.ReplaceIdentity | cmip/text/prefix_set.py:92-117 | when no source with a truthy target occurs, replacement returns the sentence unchanged |
| PrefixScan.ReplaceDropsText | cmip/text/prefix_set.py:111-113 | as written: with `a→a` and `abc→abc`, "abd" becomes "ad" |
| PrefixScan.Pieces | cmip/text/prefix_set.py:92-117 | the intended cut: the pieces tile the sentence exactly, and each swapped piece is a source with a truthy target |
| PrefixScan.ReplaceFixedSelfMap | cmip/text/prefix_set.py:92-117 | as intended: a map that sends every source to itself leaves every sentence unchanged |
| PrefixScan.ReplaceFixedKeepsText | cmip/text/prefix_set.py:111-113 | as intended: with `a→a` and `abc→abc`, "abd" stays "abd" |
| Text.Lower | timing.py:22-23 | lower-casing keeps the length and maps each character |
| Text.LowerIdempotent | timing.py:22-23 | lower-casing twice is lower-casing once |
| Tries.Trie.constructor | timing.py:14-19 | the trie is the root alone, with no entries; the case flag is the argument |
| Tries.Admitted | timing.py:21-27 | the words inserted before a call raises: all of them, unless the trie ignores case and a `(word, replacement)` pair comes, whose `.lower()` raises |
| Tries.Trie.Insert | timing.py:21-34 | a pair raises when case is ignored, changing nothing; otherwise the stored word's node holds it in `"**"` and the replacement in `"&&"`, the table gains exactly that word, and the links along it are cleared |
| Tries.Trie.Spell | timing.py:29-31 | the loop ends at the node spelling the word, creating the missing nodes |
| Tries.Trie.Descend | timing.py:30-31 | `setdefault` gives the child for the next character, existing or new, and clears its link |
| Tries.Trie.InsertAll | timing.py:55-56 | the table gains the stored words inserted before the first raise |
| Tries.Trie.AddKeywordsFromList | timing.py:54-57 | the keywords gain exactly the stored words inserted before a raise; links are built only if none raised |
| Tries.Link | timing.py:36-52 | after the breadth-first pass every node below the root has its link |
| Tries.LinkChildren | timing.py:41-51 | each child links to the same child of its parent's link, or to the root |
| Tries.Trie.BuildLinks | timing.py:36-52 | only the links change, and every node below the root gets one |
| TrieModel.ChainReachesRoot | timing.py:36-52 | following links from any node passes through shorter and shorter suffixes of its path and reaches the root within its length |
| TrieModel.OneHopSuffix | timing.py:44-50 | each link points to a node whose path is a proper suffix of the node's own |
| TrieModel.OneHopMissesSuffix | timing.py:44-50 | a one-hop link need not be the longest suffix: with xac, ab and c inserted, "xa" links to "a" but "xac" links to the root, although "c" is a node |
| Tries.Gather | timing.py:59-69 | the list holds exactly the keywords below the root, each once |
| Tries.Trie.GetAllKeywords | timing.py:59-69 | the list holds exactly the trie's keywords, each once |
| TrieModel.TableKeywords | timing.py:21-34 | the keywords stored in the trie are the complete keywords of its prefix table |
| TrieModel.Walk | timing.py:77-94 | the inner loop ends at the end of the sentence (staying at its node) or on a missing child (back at the root) |
| Tries.Follow | timing.py:77-94 | the inner loop reports or remembers the keywords the walk meets, and stops where the walk stops |
| Tries.Scan | timing.py:71-103 | the loops compute the as-written scan of either mode; every reported word is a stored keyword; an empty sentence gives `[]` |
| Tries.Trie.ExtractKeywords | timing.py:71-103 | the result is the as-written scan of the trie; every reported word is a stored keyword |
| TrieModel.WalkMeetsKeywords | timing.py:83-87 | the walk meets only stored keywords |
| TrieModel.TrieAllKeywords | timing.py:84-96 | `all_mode` reports only stored keywords |
| TrieModel.TrieLongestKeywords | timing.py:97-102 | longest-first mode reports only stored keywords |
| TrieModel.WalkIsRun | timing.py:77-94 | a walk from the root meets exactly the candidates of the same run in the prefix table |
| TrieModel.AllModeCarriesNode | timing.py:90-96 | as written: in the well-formed trie of "abb", `all_mode` keeps `current` after running off the end, so "abb" is reported in "ab" |
| TrieModel.AllModeLosesMatch | timing.py:90-96 | as written: in the well-formed trie of ab and b, `all_mode` walks index 1 on from node "ab", so "ab" gives `["ab"]` and loses the b that walking from the root reports |
| TrieModel.FixedAllIsAll | timing.py:95-96 | as intended: `all_mode` walking from the root at every start reports exactly the skipless prefix scan |
| TrieModel.LongestModeCarriesNode | timing.py:97-102 | as written: in the well-formed trie of "abab", longest-first mode restarts at the same index from the node it stopped at, so "abab" is reported in "ab" |
| TrieModel.LongestModeSkipsWalked | timing.py:98-100 | as written: in the well-formed trie of a, abc and b, "abd" gives `["a"]`, because the scan resumes at `j` and skips the b |
| TrieModel.FixedLongestIsLongest | timing.py:97-102 | as intended: resuming just past the reported keyword gives exactly the skipping prefix scan |
| TopDomains.Split | cmip/web/utils.py:22 | `split(".")` gives at least one label, none containing a dot |
| TopDomains.JoinSplit | cmip/web/utils.py:22-26 | joining the labels with dots gives back the string |
| TopDomains.SplitJoin | cmip/web/utils.py:22-26 | splitting dot-free labels joined with dots gives back the labels |
| TopDomains.TopDomainNone | cmip/web/utils.py:21-26 | the result is `None` exactly when the name has no dot |
| TopDomains.TopDomainSuffix | cmip/web/utils.py:21-26 | the result is a suffix of the lower-cased name |
| TopDomains.TopDomainLowerCase | cmip/web/utils.py:22 | the result is lower-case |
| TopDomains.TopDomainLabels | cmip/web/utils.py:23-26 | the last three labels are kept when the second-to-last is generic, otherwise the last two; the result has two or three labels |
| TopDomains.TopDomainOfJoin | cmip/web/utils.py:21-26 | for lower-case labels, the result is the join of the last two or three of them |
| TopDomains.ExampleCountryCode | cmip/web/utils.py:24-25 | "w.b.co.uk" gives "b.co.uk" |
| TopDomains.ExamplePlain | cmip/web/utils.py:26 | "news.bbc.com" gives "bbc.com" |
| TopDomains.ExampleCase | cmip/web/utils.py:22 | "Ab.CO" gives "ab.co" |
| TopDomains.ExampleHost | cmip/web/utils.py:23 | "localhost" gives `None` |

## Left out

- Text.Lower: lowers ASCII letters only. Python's `str.lower()` applies full Unicode case mapping, which is not modelled.
- Tries.Trie.ExtractKeywords: the `index_info` parameter is accepted and ignored by the source, so it is not modelled.
- Tries.Trie.GetAllKeywords: states which keywords are listed and that each appears once, not the breadth-first order of the list.
- The textbook Aho–Corasick property (every link points to the longest proper suffix that is a node) is not proved, because the code does not build such links. `TrieModel.OneHopMissesSuffix` shows a trie where it fails.
- Failure links are built but never read by `extract_keywords`, so the scans do not use them.
- The `"&&"` replacement entries of the trie are stored and kept. No operation of the trie reads them.
- Python's dictionary identity and aliasing are not modelled. The trie is an arena of nodes and the prefix tables are values. The comparison `current == self.root` is modelled as "node is 0", which matches the source because every node but the root carries a `"##"` key.
- A non-string, non-tuple argument to `__insert` is not modelled. Requests are either a word or a `(word, replacement)` pair.
- The benchmark at the foot of `timing.py` (random words, FlashText, timing, plotting) is not part of this model.
- The other helpers of `cmip/web/utils.py` (`hamming_distance_array`, `is_valid_url`, `url2domain`, `decode_image`) and `cmip/web/web_scraping.py` are not part of this model.

## Findings

| source | as written | input that shows it | evidently intended | confidence | as-written member | corrected member |
|---|---|---|---|---|---|---|
| cmip/text/prefix_set.py:111-113 | after a replacement the scan resumes at `j`, the end of the run of registered prefixes | map `{"a": "a", "abc": "abc"}`, sentence "abd" gives "ad" (the b is lost) | resume just past the replaced source: "abd" | not executed | PrefixScan.ReplaceDropsText | PrefixScan.ReplaceFixedKeepsText |
| timing.py:90-96 | `all_mode` keeps `current` when the inner loop runs off the end of the sentence, so the next start walks on from there | keyword "abb", sentence "ab" gives `["abb"]` | walk from the root at every start: `[]` | not executed | TrieModel.AllModeCarriesNode | TrieModel.FixedAllIsAll |
| timing.py:90-96 | the same carried `current` makes the next start miss a keyword that begins there | keywords ab and b, sentence "ab" gives `["ab"]` (the b is lost) | walk from the root at every start: `["ab", "b"]` | not executed | TrieModel.AllModeLosesMatch | TrieModel.FixedAllIsAll |
| timing.py:97-102 | in longest-first mode, with no keyword met and `current` not the root, the same start is tried again from that node | keyword "abab", sentence "ab" gives `["abab"]` | go on from the root at the next start: `[]` | not executed | TrieModel.LongestModeCarriesNode | TrieModel.FixedLongestIsLongest |
| timing.py:98-100 | after reporting `w` the scan resumes at `j`, where the walk stopped, not at the end of `w` | keywords a, abc and b, sentence "abd" gives `["a"]` | resume after the reported keyword: `["a", "b"]` | not executed | TrieModel.LongestModeSkipsWalked | TrieModel.FixedLongestIsLongest |
