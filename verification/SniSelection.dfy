/** Choosing a certificate by server name: wildcard matching, and selection over an unordered map. */
module SniSelection {
  import opened Wrappers
  import opened Strings

  /**
   The left-most-label wildcard of section 6.4.3 of RFC 6125, compared case-sensitively: as many
   labels as the pattern, the same ones after the first, and a first label that is not empty.
   */
  predicate WildcardMatches(pattern: string, name: string) {
    var p, n := Split(pattern, '.'), Split(name, '.');
    |pattern| > 2 && "*." <= pattern && |n| == |p| && n[1..] == p[1..] && n[0] != ""
  }

  predicate Matches(pattern: string, name: string) {
    pattern == name || WildcardMatches(pattern, name)
  }

  /** The test on strings: the name ends in the pattern's suffix, after one label. */
  predicate SuffixMatches(pattern: string, name: string) {
    |pattern| > 2 && "*." <= pattern
    && var suffix := pattern[1..];
      |name| > |suffix| && name[|name| - |suffix|..] == suffix && '.' !in name[..|name| - |suffix|]
  }

  lemma SuffixIffLabels(pattern: string, name: string)
    ensures SuffixMatches(pattern, name) <==> WildcardMatches(pattern, name)
  {
    if |pattern| > 2 && "*." <= pattern {
      var rest := pattern[2..];
      assert pattern == "*" + ['.'] + rest;
      SplitFirst("*", rest, '.');
      assert Split(pattern, '.')[1..] == Split(rest, '.');
      if SuffixMatches(pattern, name) {
        SuffixGivesLabels(rest, name);
      }
      if WildcardMatches(pattern, name) {
        LabelsGiveSuffix(rest, name);
      }
    }
  }

  lemma SuffixGivesLabels(rest: string, name: string)
    requires |name| > |rest| + 1 && name[|name| - |rest| - 1..] == ['.'] + rest && '.' !in name[..|name| - |rest| - 1]
    ensures Split(name, '.')[1..] == Split(rest, '.') && Split(name, '.')[0] != ""
  {
    var prefix := name[..|name| - |rest| - 1];
    assert name == prefix + ['.'] + rest;
    SplitFirst(prefix, rest, '.');
  }

  lemma LabelsGiveSuffix(rest: string, name: string)
    requires Split(name, '.')[1..] == Split(rest, '.') && Split(name, '.')[0] != ""
    ensures |name| > |rest| + 1 && name[|name| - |rest| - 1..] == ['.'] + rest && '.' !in name[..|name| - |rest| - 1]
  {
    SplitHead(name, '.');
    var first := Split(name, '.')[0];
    SplitInjective(name[|first| + 1..], rest, '.');
    assert name[..|first|] == first;
  }

  method MatchDomain(pattern: string, serverName: string) returns (ok: bool)
    ensures ok <==> Matches(pattern, serverName)
  {
    SuffixIffLabels(pattern, serverName);
    if pattern == serverName {
      return true;
    }
    if |pattern| > 2 && pattern[0] == '*' && pattern[1] == '.' {
      var suffix := pattern[1..];
      if |serverName| > |suffix| {
        if serverName[|serverName| - |suffix|..] == suffix {
          var prefix := serverName[..|serverName| - |suffix|];
          for i := 0 to |prefix|
            invariant '.' !in prefix[..i]
          {
            if prefix[i] == '.' {
              return false;
            }
          }
          assert prefix[..|prefix|] == prefix;
          return true;
        }
      }
    }
    return false;
  }

  // ---------------------------------------------------------------- selection

  /** What selection reads of an entry: its domains, and the certificate if one is loaded. */
  datatype Entry<C> = Entry(domains: seq<string>, cert: Option<C>)

  ghost predicate Covers<C>(e: Entry<C>, serverName: string) {
    e.cert.Some? && exists i :: 0 <= i < |e.domains| && Matches(e.domains[i], serverName)
  }

  /** An iteration over the map: every key once. */
  ghost predicate Visits<C>(entries: map<string, Entry<C>>, order: seq<string>) {
    forall n :: n in order <==> n in entries
  }

  /** This entry covers the name, unless no entry does. */
  ghost predicate BestChoice<C>(entries: map<string, Entry<C>>, n: string, serverName: string)
    requires n in entries
  {
    (exists k :: k in entries && Covers(entries[k], serverName)) ==> Covers(entries[n], serverName)
  }

  method EntryCovers<C>(e: Entry<C>, serverName: string) returns (covers: bool)
    ensures covers <==> Covers(e, serverName)
  {
    for i := 0 to |e.domains|
      invariant e.cert.Some? ==> forall j :: 0 <= j < i ==> !Matches(e.domains[j], serverName)
    {
      var ok := MatchDomain(e.domains[i], serverName);
      if ok {
        if e.cert.Some? {
          return true;
        }
      }
    }
    return false;
  }

  /**
   For every order in which the two loops visit the map: a certificate that covers the name is
   chosen if there is one, else any loaded one, and selection fails exactly when none is loaded.
   */
  method SelectCertificate<C>(entries: map<string, Entry<C>>, first: seq<string>, second: seq<string>, serverName: string)
    returns (cert: Option<C>)
    requires Visits(entries, first) && Visits(entries, second)
    ensures cert.Some? ==> exists n :: n in entries && entries[n].cert == cert && BestChoice(entries, n, serverName)
    ensures cert.None? <==> forall n :: n in entries ==> entries[n].cert.None?
  {
    for i := 0 to |first|
      invariant forall j :: 0 <= j < i ==> !Covers(entries[first[j]], serverName)
    {
      var n := first[i];
      assert n in entries;
      var covers := EntryCovers(entries[n], serverName);
      if covers {
        return entries[n].cert;
      }
    }
    assert forall n :: n in entries ==> !Covers(entries[n], serverName) by {
      forall n | n in entries
        ensures !Covers(entries[n], serverName)
      {
        assert n in first;
      }
    }
    for i := 0 to |second|
      invariant forall j :: 0 <= j < i ==> entries[second[j]].cert.None?
    {
      var n := second[i];
      assert n in entries;
      if entries[n].cert.Some? {
        return entries[n].cert;
      }
    }
    assert forall n :: n in entries ==> n in second;
    return None;
  }
}
