/**
 The directory names of the ACME file store.

 A domain is stored under a name in which every `.` became `_` and every `*` became the word
 `wildcard`; a listing turns directory names back into domains. Both directions lose
 information. The lemmas below say exactly how much.
 */
module DomainCodec {
  import opened Strings

  const WILDCARD := "wildcard"

  function Under(s: string): string { ReplaceAll(s, ".", "_") }

  function Dots(s: string): string { ReplaceAll(s, "_", ".") }

  function Expand(s: string): string { ReplaceAll(s, "*", WILDCARD) }

  function Collapse(s: string): string { ReplaceAll(s, WILDCARD, "*") }

  /** The last path element that the store computes for a domain. */
  function Encode(domain: string): string { Expand(Under(domain)) }

  /** The domain that a listing computes from a directory name. */
  function Decode(name: string): string { Collapse(Dots(name)) }

  predicate ValidDomain(domain: string) {
    && '/' !in domain
    && '\\' !in domain
    && !Contains(domain, "..")
    && '\0' !in domain
  }

  /** Refused are a slash, a backslash or a NUL anywhere, and two neighbouring dots; nothing else is. */
  lemma ValidDomainIff(domain: string)
    ensures ValidDomain(domain) <==> forall i :: 0 <= i < |domain| ==>
      && domain[i] != '/' && domain[i] != '\\' && domain[i] != '\0'
      && !(domain[i] == '.' && i + 1 < |domain| && domain[i + 1] == '.')
  {
    ContainsIff(domain, "..");
    if i :| 0 <= i <= |domain| && ".." <= domain[i..] {
      assert domain[i] == domain[i..][0] == '.' && domain[i + 1] == domain[i..][1] == '.';
    }
    if i :| 0 <= i < |domain| && domain[i] == '.' && i + 1 < |domain| && domain[i + 1] == '.' {
      assert domain[i..][0] == '.' && domain[i..][1] == '.';
      assert ".." <= domain[i..];
    }
  }

  // ---------------------------------------------------------------- no occurrence straddles

  lemma ExpandAtStar(s: string, k: nat)
    requires k < |s| && '*' !in s[..k] && s[k] == '*'
    ensures k < |Expand(s)| && Expand(s)[k] == 'w'
  {
    assert s == s[..k] + s[k..];
    ReplaceCharSkip(s[..k], s[k..], '*', WILDCARD);
    ReplaceCharStep(s[k..], '*', WILDCARD);
  }

  /**
   An occurrence of `wildcard` in an expanded string that does not come from a `*` was there
   before: `w` starts the word and occurs nowhere else in it, so it cannot overlap itself.
   */
  lemma NoStraddle(s: string)
    requires s != "" && s[0] != '*' && WILDCARD <= Expand(s)
    ensures WILDCARD <= s
  {
    var k := 0;
    while k < |s| && k < 8 && s[k] != '*'
      invariant 0 <= k <= |s| && k <= 8
      invariant '*' !in s[..k]
    {
      k := k + 1;
    }
    assert s == s[..k] + s[k..];
    ReplaceCharSkip(s[..k], s[k..], '*', WILDCARD);
    assert Expand(s) == s[..k] + Expand(s[k..]);
    if k < |s| && k < 8 {
      ExpandAtStar(s, k);
    }
    assert k == 8 by {
      assert forall i :: 0 <= i < 8 ==> Expand(s)[i] == WILDCARD[i];
      assert forall i :: 0 < i < 8 ==> WILDCARD[i] != 'w';
    }
    assert s[..8] == Expand(s)[..8];
  }

  lemma {:induction false} CollapseExpand(s: string)
    ensures Collapse(Expand(s)) == Collapse(s)
    decreases |s|
  {
    if s != "" {
      ReplaceCharStep(s, '*', WILDCARD);
      if s[0] == '*' {
        CollapseExpand(s[1..]);
        assert Expand(s)[8..] == Expand(s[1..]);
      } else if WILDCARD <= s {
        assert s == WILDCARD + s[8..];
        ReplaceCharSkip(WILDCARD, s[8..], '*', WILDCARD);
        assert Expand(s)[8..] == Expand(s[8..]);
        CollapseExpand(s[8..]);
      } else {
        if WILDCARD <= Expand(s) {
          NoStraddle(s);
        }
        CollapseExpand(s[1..]);
        assert Expand(s)[1..] == Expand(s[1..]);
      }
    }
  }

  lemma {:induction false} DotsExpandUnder(s: string)
    ensures Dots(Expand(Under(s))) == Expand(Dots(s))
  {
    if s != "" {
      DotsExpandUnder(s[1..]);
      ReplaceCharStep(s, '.', "_");
      ReplaceCharStep(Under(s), '*', WILDCARD);
      assert Under(s)[1..] == Under(s[1..]);
      ReplaceCharStep(s, '_', ".");
      ReplaceCharStep(Dots(s), '*', WILDCARD);
      assert Dots(s)[1..] == Dots(s[1..]);
      if s[0] == '*' {
        ReplaceCharSkip(WILDCARD, Expand(Under(s[1..])), '_', ".");
      } else {
        ReplaceCharStep(Expand(Under(s)), '_', ".");
        assert Expand(Under(s))[1..] == Expand(Under(s[1..]));
      }
    }
  }

  // ---------------------------------------------------------------- main results

  /** Listing an encoded domain gives what listing the domain's own text would give. */
  lemma DecodeEncode(domain: string)
    ensures Decode(Encode(domain)) == Decode(domain)
  {
    DotsExpandUnder(domain);
    CollapseExpand(Dots(domain));
  }

  lemma {:induction false} UnderCollapse(s: string)
    requires '*' !in s
    ensures Expand(Under(Collapse(s))) == Under(s)
    decreases |s|
  {
    if s != "" {
      if WILDCARD <= s {
        UnderCollapse(s[8..]);
        assert s == WILDCARD + s[8..];
        ReplaceCharSkip(WILDCARD, s[8..], '.', "_");
        ReplaceCharStep(Collapse(s), '.', "_");
        assert Collapse(s)[1..] == Collapse(s[8..]);
        ReplaceCharStep(Under(Collapse(s)), '*', WILDCARD);
        assert Under(Collapse(s))[1..] == Under(Collapse(s[8..]));
      } else {
        UnderCollapse(s[1..]);
        ReplaceCharStep(s, '.', "_");
        ReplaceCharStep(Collapse(s), '.', "_");
        assert Collapse(s)[1..] == Collapse(s[1..]);
        ReplaceCharStep(Under(Collapse(s)), '*', WILDCARD);
        assert Under(Collapse(s))[1..] == Under(Collapse(s[1..]));
      }
    }
  }

  /** Loading a listed domain goes back to the directory it was listed from. */
  lemma Reencode(name: string)
    requires '.' !in name && '*' !in name
    ensures Encode(Decode(name)) == name
  {
    ReplaceCharPointwise(name, '_', '.');
    UnderCollapse(Dots(name));
    ReplaceCharPointwise(Dots(name), '.', '_');
    assert Under(Dots(name)) == name;
  }

  lemma {:induction false} ExpandMembers(s: string)
    ensures '*' !in Expand(s)
    ensures forall c :: c !in WILDCARD && c != '*' ==> (c in Expand(s) <==> c in s)
  {
    if s != "" {
      ExpandMembers(s[1..]);
      ReplaceCharStep(s, '*', WILDCARD);
      assert s == [s[0]] + s[1..];
    }
  }

  lemma EncodeClean(domain: string)
    ensures '.' !in Encode(domain) && '*' !in Encode(domain)
  {
    ReplaceCharPointwise(domain, '.', '_');
    ExpandMembers(Under(domain));
  }

  /** A single path element: it names a directory below its parent and nothing else. */
  predicate PathElement(name: string) {
    '/' !in name && '\\' !in name && '\0' !in name && '.' !in name
  }

  /** The directory of an accepted domain stays below the store. */
  lemma EncodesPathElement(domain: string)
    requires ValidDomain(domain)
    ensures PathElement(Encode(domain))
  {
    ReplaceCharPointwise(domain, '.', '_');
    ExpandMembers(Under(domain));
    assert forall c :: c in Under(domain) ==> c in domain || c == '_';
    EncodeClean(domain);
  }

  /** Two domains share a directory exactly when they decode to the same text. */
  lemma ShareDirectoryIff(a: string, b: string)
    ensures Encode(a) == Encode(b) <==> Decode(a) == Decode(b)
  {
    DecodeEncode(a);
    DecodeEncode(b);
    EncodeClean(a);
    EncodeClean(b);
    Reencode(Encode(a));
    Reencode(Encode(b));
  }

  lemma {:induction false} CollapsePrefix(p: string, s: string)
    requires '*' !in p && p <= Collapse(s)
    ensures p <= s
  {
    if p != "" {
      assert s != "" && !(WILDCARD <= s);
      assert Collapse(s)[1..] == Collapse(s[1..]);
      CollapsePrefix(p[1..], s[1..]);
      assert p == [p[0]] + p[1..] && s == [s[0]] + s[1..];
    }
  }

  lemma {:induction false} CollapseClean(s: string)
    ensures !Contains(Collapse(s), WILDCARD)
    decreases |s|
  {
    if s != "" {
      if WILDCARD <= s {
        CollapseClean(s[8..]);
        assert Collapse(s)[0] == '*' && Collapse(s)[1..] == Collapse(s[8..]);
        assert WILDCARD[0] != '*';
      } else {
        CollapseClean(s[1..]);
        assert Collapse(s)[1..] == Collapse(s[1..]);
        if WILDCARD <= Collapse(s) {
          CollapsePrefix(WILDCARD, s);
        }
      }
    }
  }

  lemma {:induction false} CollapseAbsent(s: string)
    requires !Contains(s, WILDCARD)
    ensures Collapse(s) == s
  {
    if s != "" {
      CollapseAbsent(s[1..]);
    }
  }

  lemma {:induction false} CollapseMembers(s: string)
    ensures forall c :: c !in WILDCARD && c != '*' ==> (c in Collapse(s) <==> c in s)
    decreases |s|
  {
    if s != "" {
      if WILDCARD <= s {
        CollapseMembers(s[8..]);
        assert s == WILDCARD + s[8..];
      } else {
        CollapseMembers(s[1..]);
        assert s == [s[0]] + s[1..];
      }
    }
  }

  /** The round trip returns the domain exactly when it holds neither `_` nor `wildcard`. */
  lemma RoundTripIff(domain: string)
    ensures Decode(Encode(domain)) == domain <==> '_' !in domain && !Contains(domain, WILDCARD)
  {
    DecodeEncode(domain);
    ReplaceCharPointwise(domain, '_', '.');
    CollapseMembers(Dots(domain));
    CollapseClean(Dots(domain));
    if '_' !in domain && !Contains(domain, WILDCARD) {
      assert Dots(domain) == domain;
      CollapseAbsent(domain);
    }
  }

  /** On such domains the encoding is injective. */
  lemma EncodeInjective(a: string, b: string)
    requires '_' !in a && !Contains(a, WILDCARD)
    requires '_' !in b && !Contains(b, WILDCARD)
    requires Encode(a) == Encode(b)
    ensures a == b
  {
    RoundTripIff(a);
    RoundTripIff(b);
  }

  // ---------------------------------------------------------------- which names list

  /** Two neighbouring characters that both read back as a dot. */
  predicate AdjacentSeparators(domain: string) {
    exists i :: 0 <= i < |domain| - 1 && domain[i] in "._" && domain[i + 1] in "._"
  }

  lemma {:induction false} CollapseDots(s: string)
    ensures Contains(Collapse(s), "..") <==> Contains(s, "..")
    decreases |s|
  {
    if s != "" {
      if WILDCARD <= s {
        CollapseDots(s[8..]);
        assert Collapse(s)[0] == '*' && Collapse(s)[1..] == Collapse(s[8..]);
        assert s == WILDCARD + s[8..];
        SkipDotless(WILDCARD, s[8..]);
      } else {
        CollapseDots(s[1..]);
        assert Collapse(s)[1..] == Collapse(s[1..]);
        assert ".." <= s <==> "." <= s && "." <= s[1..];
        var t := Collapse(s);
        assert ".." <= t <==> "." <= t && "." <= t[1..];
      }
    }
  }

  lemma {:induction false} SkipDotless(p: string, s: string)
    requires '.' !in p
    ensures Contains(p + s, "..") <==> Contains(s, "..")
  {
    if p == "" {
      assert p + s == s;
    } else {
      SkipDotless(p[1..], s);
      assert (p + s)[1..] == p[1..] + s;
      assert (p + s)[0] != '.';
    }
  }

  lemma DotsAdjacent(domain: string)
    ensures Contains(Dots(domain), "..") <==> AdjacentSeparators(domain)
  {
    var t := Dots(domain);
    ReplaceCharPointwise(domain, '_', '.');
    ContainsIff(t, "..");
    if i :| 0 <= i <= |t| && ".." <= t[i..] {
      assert t[i] == t[i..][0] == '.' && t[i + 1] == t[i..][1] == '.';
      assert domain[i] in "._" && domain[i + 1] in "._";
    }
    if i :| 0 <= i < |domain| - 1 && domain[i] in "._" && domain[i + 1] in "._" {
      assert t[i] == '.' && t[i + 1] == '.';
      assert ".." <= t[i..];
    }
  }

  /**
   A listing accepts the name of a stored domain exactly when the domain holds no two
   neighbouring separators; the store itself only refuses two neighbouring dots.
   */
  lemma ListedIff(domain: string)
    requires ValidDomain(domain)
    ensures ValidDomain(Decode(Encode(domain))) <==> !AdjacentSeparators(domain)
  {
    DecodeEncode(domain);
    DecodeMembers(domain);
    CollapseDots(Dots(domain));
    DotsAdjacent(domain);
  }

  lemma DecodeMembers(domain: string)
    ensures forall c :: c !in WILDCARD && c !in "*._" ==> (c in Decode(domain) <==> c in domain)
  {
    ReplaceCharPointwise(domain, '_', '.');
    CollapseMembers(Dots(domain));
  }

  /** Two domains in one directory, neither of which survives the round trip as the other. */
  lemma SharedDirectory()
    ensures "a.b" != "a_b" && Encode("a.b") == Encode("a_b") && Decode(Encode("a_b")) != "a_b"
  {
    ReplaceCharPointwise("a.b", '_', '.');
    ReplaceCharPointwise("a_b", '_', '.');
    assert Dots("a.b") == Dots("a_b");
    ShareDirectoryIff("a.b", "a_b");
    assert "a_b"[1] == '_';
    RoundTripIff("a_b");
  }

  /** A domain that is stored under a name which no listing accepts. */
  lemma StoredButNotListed()
    ensures ValidDomain("a._b") && !ValidDomain(Decode(Encode("a._b")))
  {
    assert "a._b"[1] in "._" && "a._b"[2] in "._";
    assert "a._b"[1..] == "._b" && "._b"[1..] == "_b" && "_b"[1..] == "b" && "b"[1..] == "";
    assert !Contains("_b", "..");
    assert "._b"[1] != '.' && !(".." <= "._b");
    assert !Contains("._b", "..");
    assert "a._b"[0] != '.' && !(".." <= "a._b");
    assert !Contains("a._b", "..");
    ListedIff("a._b");
  }

  /** What a stored name looks like. */
  lemma EncodedExample()
    ensures Encode("*.b") == "wildcard_b"
  {
    ReplaceCharPointwise("*.b", '.', '_');
    assert Under("*.b") == "*_b";
    ReplaceCharStep("*_b", '*', WILDCARD);
    assert "*_b"[1..] == "_b" && "_b"[1..] == "b" && "b"[1..] == "";
    ReplaceCharStep("_b", '*', WILDCARD);
    ReplaceCharStep("b", '*', WILDCARD);
  }
}
