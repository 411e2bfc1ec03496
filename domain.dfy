/**
 * `top_domain(domain)` of cmip/web/utils.py: the registrable part of a host
 * name, its last two labels, or its last three when the second-last label
 * is one of the generic second-level labels com, edu, net, org and co.
 */
module TopDomains {
  import opened Options
  import opened Text

  /** `s.split(".")`: the labels between the dots, empty ones included. */
  function Split(s: string): (parts: seq<string>)
    ensures |parts| >= 1
    ensures forall k :: 0 <= k < |parts| ==> '.' !in parts[k]
  {
    if s == [] then [""]
    else if s[0] == '.' then [""] + Split(s[1..])
    else
      var rest := Split(s[1..]);
      [[s[0]] + rest[0]] + rest[1..]
  }

  /** `".".join(parts)`. */
  function Join(parts: seq<string>): string
  {
    if |parts| == 0 then ""
    else if |parts| == 1 then parts[0]
    else parts[0] + "." + Join(parts[1..])
  }

  /** The labels of a domain name after lower-casing it. */
  function Labels(domain: string): (parts: seq<string>)
    ensures |parts| >= 1
  {
    Split(Lower(domain))
  }

  /** The generic second-level labels under which three labels are kept. */
  predicate IsGeneric(name: string) {
    name in {"com", "edu", "net", "org", "co"}
  }

  /** `parts[-n:]`: the last `n` elements, or all of them when there are fewer. */
  function Last<T>(parts: seq<T>, n: nat): (r: seq<T>)
    ensures |r| == if |parts| < n then |parts| else n
    ensures r == parts[|parts| - |r|..]
  {
    if |parts| < n then parts else parts[|parts| - n..]
  }

  /** `top_domain(domain)`: `None` when the name has no dot. */
  function TopDomain(domain: string): Option<string> {
    var parts := Labels(domain);
    if |parts| > 1 then
      if IsGeneric(parts[|parts| - 2]) then Some(Join(Last(parts, 3)))
      else Some(Join(Last(parts, 2)))
    else None
  }

  // ---------------------------------------------------------------------------
  // Splitting and joining
  // ---------------------------------------------------------------------------

  /** Joining the labels gives back the string that was split. */
  lemma {:induction false} JoinSplit(s: string)
    ensures Join(Split(s)) == s
    decreases |s|
  {
    if s != [] {
      JoinSplit(s[1..]);
      var rest := Split(s[1..]);
      if s[0] == '.' {
        assert s == [s[0]] + s[1..];
      } else if |rest| == 1 {
        assert s == [s[0]] + s[1..];
      } else {
        assert Split(s)[1..] == rest[1..];
        assert Join(rest) == rest[0] + "." + Join(rest[1..]);
        assert s == [s[0]] + s[1..];
      }
    }
  }

  /** Splitting a join of dot-free labels gives back the labels. */
  lemma {:induction false} SplitJoin(parts: seq<string>)
    requires |parts| >= 1
    requires forall k :: 0 <= k < |parts| ==> '.' !in parts[k]
    ensures Split(Join(parts)) == parts
    decreases |parts|, |parts[0]|
  {
    if |parts| == 1 {
      SplitLabel(parts[0]);
    } else if parts[0] == [] {
      assert Join(parts) == "." + Join(parts[1..]);
      SplitJoin(parts[1..]);
      assert ("." + Join(parts[1..]))[1..] == Join(parts[1..]);
      assert parts == [""] + parts[1..];
    } else {
      var tail := [parts[0][1..]] + parts[1..];
      assert '.' !in parts[0][1..] by {
        forall c | c in parts[0][1..] ensures c in parts[0] { }
      }
      assert forall k :: 0 <= k < |tail| ==> '.' !in tail[k] by {
        forall k | 0 <= k < |tail| ensures '.' !in tail[k] {
          if k > 0 { assert tail[k] == parts[k]; }
        }
      }
      SplitJoin(tail);
      assert tail[1..] == parts[1..];
      assert Join(tail) == parts[0][1..] + "." + Join(parts[1..]);
      assert Join(parts) == [parts[0][0]] + Join(tail);
      assert parts[0][0] != '.' by { assert parts[0][0] in parts[0]; }
      assert Join(parts)[1..] == Join(tail);
      assert [parts[0][0]] + parts[0][1..] == parts[0];
      assert parts == [parts[0]] + tail[1..];
    }
  }

  /** A dot-free string is one label. */
  lemma {:induction false} SplitLabel(s: string)
    requires '.' !in s
    ensures Split(s) == [s]
    decreases |s|
  {
    if s != [] {
      assert s[0] in s;
      assert '.' !in s[1..] by {
        forall c | c in s[1..] ensures c in s { }
      }
      SplitLabel(s[1..]);
      assert s == [s[0]] + s[1..];
    }
  }

  /** A string splits into more than one label exactly when it holds a dot. */
  lemma {:induction false} SplitMany(s: string)
    ensures |Split(s)| > 1 <==> '.' in s
    decreases |s|
  {
    if s != [] {
      SplitMany(s[1..]);
      assert s == [s[0]] + s[1..];
    }
  }

  /** The join of the last labels is a suffix of the join of all of them. */
  lemma {:induction false} JoinSuffix(parts: seq<string>, k: nat)
    requires k < |parts|
    ensures IsSuffix(Join(parts[k..]), Join(parts))
    decreases k
  {
    if k > 0 {
      JoinSuffix(parts[1..], k - 1);
      assert parts[1..][k - 1..] == parts[k..];
      assert Join(parts) == parts[0] + "." + Join(parts[1..]);
    }
  }

  /** Lower-casing keeps the dots where they are. */
  lemma LowerKeepsDots(s: string)
    ensures '.' in Lower(s) <==> '.' in s
  {
    if '.' in s {
      var k :| 0 <= k < |s| && s[k] == '.';
      assert Lower(s)[k] == '.';
    }
    if '.' in Lower(s) {
      var k :| 0 <= k < |Lower(s)| && Lower(s)[k] == '.';
      assert LowerChar(s[k]) == '.';
    }
  }

  // ---------------------------------------------------------------------------
  // What top_domain promises
  // ---------------------------------------------------------------------------

  /** A name without a dot has no top domain, and one with a dot has one. */
  lemma TopDomainNone(domain: string)
    ensures TopDomain(domain).None? <==> '.' !in domain
  {
    SplitMany(Lower(domain));
    LowerKeepsDots(domain);
  }

  /** The result is a suffix of the lower-cased name. */
  lemma TopDomainSuffix(domain: string)
    ensures TopDomain(domain).Some? ==> IsSuffix(TopDomain(domain).value, Lower(domain))
  {
    var parts := Labels(domain);
    if |parts| > 1 {
      var last := Last(parts, if IsGeneric(parts[|parts| - 2]) then 3 else 2);
      JoinSuffix(parts, |parts| - |last|);
      JoinSplit(Lower(domain));
    }
  }

  /** The result is lower-case. */
  lemma TopDomainLowerCase(domain: string)
    ensures TopDomain(domain).Some? ==> IsLowerCase(TopDomain(domain).value)
  {
    TopDomainSuffix(domain);
    LowerIsLowerCase(domain);
    if TopDomain(domain).Some? {
      SuffixOfLowerCase(TopDomain(domain).value, Lower(domain));
    }
  }

  /**
   * The labels of the result: the last three labels of the name when its
   * second-last label is generic (all of them when there are only two), the
   * last two otherwise, so that there are always two or three.
   */
  lemma TopDomainLabels(domain: string)
    requires '.' in domain
    ensures TopDomain(domain).Some?
    ensures var parts := Labels(domain);
      IsGeneric(parts[|parts| - 2]) ==> Split(TopDomain(domain).value) == Last(parts, 3)
    ensures var parts := Labels(domain);
      !IsGeneric(parts[|parts| - 2]) ==> Split(TopDomain(domain).value) == parts[|parts| - 2..]
    ensures 2 <= |Split(TopDomain(domain).value)| <= 3
  {
    TopDomainNone(domain);
    var parts := Labels(domain);
    var last := Last(parts, if IsGeneric(parts[|parts| - 2]) then 3 else 2);
    assert forall k :: 0 <= k < |last| ==> last[k] == parts[|parts| - |last| + k];
    SplitJoin(last);
  }

  // ---------------------------------------------------------------------------
  // Examples
  // ---------------------------------------------------------------------------

  /** A name without upper-case letters is its own lower-casing. */
  lemma LowerFixed(s: string)
    requires IsLowerCase(s)
    ensures Lower(s) == s
  {
  }

  /** The top domain of dot-free lower-case labels joined by dots. */
  lemma TopDomainOfJoin(parts: seq<string>)
    requires |parts| >= 2
    requires forall k :: 0 <= k < |parts| ==> '.' !in parts[k]
    requires IsLowerCase(Join(parts))
    ensures TopDomain(Join(parts)) == Some(Join(Last(parts, if IsGeneric(parts[|parts| - 2]) then 3 else 2)))
  {
    LowerFixed(Join(parts));
    SplitJoin(parts);
  }

  lemma ExampleCountryCode(d: string)
    requires d == "w.b.co.uk"
    ensures TopDomain(d) == Some("b.co.uk")
  {
    var parts := ["w", "b", "co", "uk"];
    assert Join(parts) == d;
    TopDomainOfJoin(parts);
    assert IsGeneric(parts[2]);
    var last := ["b", "co", "uk"];
    assert Last(parts, 3) == last;
    assert Join(last) == "b.co.uk";
  }

  lemma ExamplePlain(d: string)
    requires d == "news.bbc.com"
    ensures TopDomain(d) == Some("bbc.com")
  {
    var parts := ["news", "bbc", "com"];
    assert Join(parts) == d;
    TopDomainOfJoin(parts);
    assert !IsGeneric(parts[1]);
    var last := ["bbc", "com"];
    assert Last(parts, 2) == last;
    assert Join(last[1..]) == "com";
    assert Join(last) == "bbc.com";
  }

  lemma ExampleCase()
    ensures TopDomain("Ab.CO") == Some("ab.co")
  {
    assert Lower("Ab.CO") == "ab.co";
    var parts := ["ab", "co"];
    assert Join(parts[1..]) == "co";
    assert Join(parts) == "ab.co";
    SplitJoin(parts);
  }

  lemma ExampleHost()
    ensures TopDomain("localhost") == None
  {
    TopDomainNone("localhost");
  }

}
