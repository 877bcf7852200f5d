/** Skin-domain rules: host matching, rule validation, and the effective rule list. */
module SkinDomains {
  import opened Text

  const DEFAULT_SKIN_DOMAINS: seq<string> := [".minecraft.net", ".mojang.com"]

  // ---- matching -----------------------------------------------------------------

  predicate EndsWith(s: string, suffix: string) { |suffix| <= |s| && s[|s| - |suffix|..] == suffix }

  function Canonical(s: string): string { Lower(Trim(s)) }

  predicate SkinDomainMatchesHost(domain: string, host: string) {
    var d, h := Canonical(domain), Canonical(host);
    if d != [] && d[0] == '.' then EndsWith(h, d) && |h| > |d[1..]| else h == d
  }

  function Labels(host: string): seq<string> { Split(host, '.') }

  predicate ProperSuffix(a: seq<string>, b: seq<string>) { |a| < |b| && b[|b| - |a|..] == a }

  lemma SuffixAddsLabels(x: string, suffix: string)
    ensures ProperSuffix(Labels(suffix), Labels(x + "." + suffix))
  {
    SplitAt(x, '.', suffix);
    assert (Labels(x) + Labels(suffix))[|Labels(x)|..] == Labels(suffix);
  }

  lemma LabelsGiveSuffix(h: string, suffix: string)
    requires ProperSuffix(Labels(suffix), Labels(h))
    ensures EndsWith(h, "." + suffix)
  {
    var left := Labels(h)[..|Labels(h)| - |Labels(suffix)|];
    assert Labels(h) == left + Labels(suffix);
    JoinSplit(h, '.');
    JoinSplit(suffix, '.');
    JoinAppend(left, Labels(suffix), '.');
    assert h == Join(left, '.') + ("." + suffix);
  }

  lemma DotSuffixIsLabelSuffix(h: string, suffix: string)
    ensures EndsWith(h, "." + suffix) <==> ProperSuffix(Labels(suffix), Labels(h))
  {
    if EndsWith(h, "." + suffix) {
      var x := h[..|h| - |suffix| - 1];
      assert h == x + ("." + suffix) && h == x + "." + suffix;
      SuffixAddsLabels(x, suffix);
    }
    if ProperSuffix(Labels(suffix), Labels(h)) {
      LabelsGiveSuffix(h, suffix);
    }
  }

  /** A rule with a leading dot matches exactly the hosts whose labels properly extend its
      labels; any other rule matches exactly the equal host. Both up to ASCII case and
      surrounding whitespace. */
  lemma RuleMeaning(domain: string, host: string)
    ensures var d, h := Canonical(domain), Canonical(host);
            SkinDomainMatchesHost(domain, host) <==>
              if d != [] && d[0] == '.' then ProperSuffix(Labels(d[1..]), Labels(h)) else h == d
  {
    var d, h := Canonical(domain), Canonical(host);
    if d != [] && d[0] == '.' {
      assert d == "." + d[1..];
      DotSuffixIsLabelSuffix(h, d[1..]);
    }
  }

  /** The second matcher, which the session service uses on policy rules and lower-case
      hosts; it drops the leading dot and takes its arguments as they are. */
  predicate SessionMatchesHost(domain: string, host: string) {
    (domain != [] && domain[0] == '.' && EndsWith(host, domain[1..])) || domain == host
  }

  /** `suffix` ends the host without a dot in front of it. */
  predicate EndsWithoutDot(host: string, suffix: string) {
    && EndsWith(host, suffix)
    && (|host| == |suffix| || host[|host| - |suffix| - 1] != '.')
  }

  lemma DottedSuffix(host: string, domain: string)
    requires domain != [] && domain[0] == '.' && EndsWith(host, domain[1..])
    ensures EndsWith(host, domain) <==> !EndsWithoutDot(host, domain[1..])
  {
    var suffix := domain[1..];
    assert domain == "." + suffix;
    if |host| > |suffix| {
      var i := |host| - |suffix| - 1;
      assert host[i..] == [host[i]] + host[i + 1..];
    }
  }

  /** On rules and hosts in normal form the two matchers agree if and only if the rule has no
      leading dot, or the host does not end in the rest of the rule, or a dot stands in front
      of that ending. Where they differ, the session service is the one that says yes. */
  lemma MatchersAgreeExactly(domain: string, host: string)
    requires Canonical(domain) == domain && Canonical(host) == host
    ensures (SessionMatchesHost(domain, host) <==> SkinDomainMatchesHost(domain, host))
            <==> !(domain != [] && domain[0] == '.' && EndsWithoutDot(host, domain[1..]))
    ensures SkinDomainMatchesHost(domain, host) ==> SessionMatchesHost(domain, host)
  {
    if domain != [] && domain[0] == '.' {
      if EndsWith(host, domain[1..]) { DottedSuffix(host, domain); }
      if EndsWith(host, domain) {
        assert host[|host| - |domain|..][1..] == host[|host| - |domain[1..]|..];
      }
    }
  }

  /** For every dotted rule in normal form they differ on its own domain, and on every host
      that lengthens the first label of that domain. */
  lemma MatchersDiffer(suffix: string, more: string)
    requires var d, h := "." + suffix, more + suffix; Canonical(d) == d && Canonical(h) == h
    requires more == [] || more[|more| - 1] != '.'
    ensures SessionMatchesHost("." + suffix, more + suffix) && !SkinDomainMatchesHost("." + suffix, more + suffix)
  {
    var d, h := "." + suffix, more + suffix;
    assert d[1..] == suffix && h[|more|..] == suffix;
    assert more != [] ==> h[|more| - 1] == more[|more| - 1];
    MatchersAgreeExactly(d, h);
  }

  predicate PlainName(s: string) { forall i :: 0 <= i < |s| ==> 'a' <= s[i] <= 'z' || s[i] == '.' }

  lemma PlainIsCanonical(s: string)
    requires PlainName(s)
    ensures Canonical(s) == s
  {
    TrimOfTrimmed(s);
  }

  lemma PlainNamesDiffer(apex: string, more: string)
    requires PlainName(apex) && PlainName(more) && (more == [] || more[|more| - 1] != '.')
    ensures SessionMatchesHost("." + apex, more + apex) && !SkinDomainMatchesHost("." + apex, more + apex)
  {
    PlainIsCanonical("." + apex);
    PlainIsCanonical(more + apex);
    MatchersDiffer(apex, more);
  }

  /** A default rule, a host that only looks related, and the rule's own domain. */
  lemma NotMinecraft()
    ensures var apex := "minecraft.net";
            && SessionMatchesHost("." + apex, "not" + apex) && !SkinDomainMatchesHost("." + apex, "not" + apex)
            && SessionMatchesHost("." + apex, "" + apex) && !SkinDomainMatchesHost("." + apex, "" + apex)
  {
    assert PlainName("minecraft.net") && PlainName("not");
    PlainNamesDiffer("minecraft.net", "not");
    PlainNamesDiffer("minecraft.net", "");
  }

  /** A host always satisfies itself as a rule. */
  lemma HostMatchesItself(host: string)
    ensures SkinDomainMatchesHost(host, host)
  {
  }

  // ---- validation ---------------------------------------------------------------

  predicate LabelChar(c: char) { 'a' <= c <= 'z' || 'A' <= c <= 'Z' || '0' <= c <= '9' || c == '-' }

  predicate ValidLabel(part: string) {
    && part != [] && part[0] != '-' && part[|part| - 1] != '-'
    && forall c :: c in part ==> LabelChar(c)
  }

  function RuleHost(domain: string): string {
    if domain != [] && domain[0] == '.' then domain[1..] else domain
  }

  predicate LooksLikeUrl(domain: string) {
    '/' in domain || ':' in domain || '*' in domain || exists c :: c in domain && IsSpace(c)
  }

  /** Acceptance comes down to the labels alone; the earlier tests for URLs, wildcards,
      spaces and stray dots reject nothing more. */
  method ValidateSkinDomainRule(domain: string) returns (ok: bool)
    ensures var host := if domain != [] && domain[0] == '.' then domain[1..] else domain;
            ok <==> forall part :: part in Labels(host) ==> ValidLabel(part)
  {
    LabelsCoverHost(domain);
    OuterLabels(RuleHost(domain));
    if LooksLikeUrl(domain) {
      return false;
    }
    var host := RuleHost(domain);
    if host == [] || host[0] == '.' || host[|host| - 1] == '.' {
      return false;
    }
    var parts := Labels(host);
    for i := 0 to |parts|
      invariant forall k :: 0 <= k < i ==> ValidLabel(parts[k])
    {
      var part := parts[i];
      if part == [] || part[0] == '-' || part[|part| - 1] == '-' {
        assert part in parts && !ValidLabel(part);
        return false;
      }
      for k := 0 to |part|
        invariant forall m :: 0 <= m < k ==> LabelChar(part[m])
      {
        var c := part[k];
        if !('a' <= c <= 'z') && !('A' <= c <= 'Z') && !('0' <= c <= '9') && c != '-' {
          assert part in parts && part[k] in part && !ValidLabel(part);
          return false;
        }
      }
    }
    ok := true;
  }

  lemma {:induction false} CharacterInLabel(host: string, i: nat)
    requires i < |host| && host[i] != '.'
    ensures exists part :: part in Labels(host) && host[i] in part
  {
    var rest := Split(host[1..], '.');
    var parts := Labels(host);
    if i == 0 {
      assert host[0] in parts[0];
    } else {
      CharacterInLabel(host[1..], i - 1);
      var part :| part in rest && host[i] in part;
      var k :| 0 <= k < |rest| && rest[k] == part;
      if host[0] == '.' {
        assert parts[k + 1] == part;
      } else if k == 0 {
        assert host[i] in parts[0];
      } else {
        assert parts[k] == part;
      }
    }
  }

  lemma UrlCharIsNotLabelChar(c: char)
    requires c == '/' || c == ':' || c == '*' || IsSpace(c)
    ensures !LabelChar(c)
  {
  }

  lemma LabelsCoverHost(domain: string)
    ensures LooksLikeUrl(domain) ==> exists part :: part in Labels(RuleHost(domain)) && !ValidLabel(part)
  {
    var host := RuleHost(domain);
    if LooksLikeUrl(domain) {
      var c :| c in domain && (c == '/' || c == ':' || c == '*' || IsSpace(c));
      assert !IsSpace('.') && c != '.';
      assert domain == host || domain == ['.'] + host;
      var i :| 0 <= i < |host| && host[i] == c;
      CharacterInLabel(host, i);
      var part :| part in Labels(host) && host[i] in part;
      UrlCharIsNotLabelChar(c);
    }
  }

  lemma LastLabel(host: string)
    requires host != [] && host[|host| - 1] == '.'
    ensures [] in Labels(host)
  {
    var x := host[..|host| - 1];
    assert host == x + ['.'] + [];
    SplitAt(x, '.', []);
    assert (Labels(x) + [[]])[|Labels(x)|] == [];
  }

  lemma OuterLabels(host: string)
    ensures host == [] || host[0] == '.' || host[|host| - 1] == '.' ==>
              exists part :: part in Labels(host) && !ValidLabel(part)
  {
    if host == [] || host[0] == '.' {
      assert Labels(host)[0] == [] && Labels(host)[0] in Labels(host);
    } else if host[|host| - 1] == '.' {
      LastLabel(host);
    }
    assert !ValidLabel([]);
  }

  // ---- order-preserving dedupe -----------------------------------------------------

  function Dedupe(xs: seq<string>): seq<string> {
    if xs == [] then []
    else
      var n := |xs| - 1;
      var kept := Dedupe(xs[..n]);
      if xs[n] in kept then kept else kept + [xs[n]]
  }

  /** The fold that pushes what it has not seen. */
  method DedupeFold(xs: seq<string>) returns (kept: seq<string>)
    ensures kept == Dedupe(xs)
  {
    kept := [];
    for i := 0 to |xs|
      invariant kept == Dedupe(xs[..i])
    {
      assert xs[..i + 1][..i] == xs[..i];
      if xs[i] !in kept {
        kept := kept + [xs[i]];
      }
    }
    assert xs[..|xs|] == xs;
  }

  /** `k` is where `x` first occurs. */
  predicate FirstAt(xs: seq<string>, x: string, k: nat) { k < |xs| && xs[k] == x && x !in xs[..k] }

  /** Each element once, in the order of first occurrences. */
  lemma {:induction false} DedupeMeaning(xs: seq<string>)
    ensures NoDuplicates(Dedupe(xs))
    ensures forall x :: x in Dedupe(xs) <==> x in xs
    ensures forall i, j, k, m ::
              (0 <= i < j < |Dedupe(xs)| && FirstAt(xs, Dedupe(xs)[i], k) && FirstAt(xs, Dedupe(xs)[j], m)) ==> k < m
  {
    if xs != [] {
      var n := |xs| - 1;
      var kept, all := Dedupe(xs[..n]), Dedupe(xs);
      DedupeMeaning(xs[..n]);
      assert xs == xs[..n] + [xs[n]];
      forall i, j, k, m | 0 <= i < j < |all| && FirstAt(xs, all[i], k) && FirstAt(xs, all[j], m) ensures k < m {
        assert kept[i] in kept && all[i] == kept[i] && all[i] in xs[..n];
        FirstStays(xs, all[i], k);
        if j < |kept| {
          assert kept[j] in kept;
          FirstStays(xs, all[j], m);
        } else {
          assert all[j] == xs[n] && xs[n] !in xs[..n];
          assert m == n;
        }
      }
    }
  }

  lemma FirstStays(xs: seq<string>, x: string, k: nat)
    requires xs != [] && x in xs[..|xs| - 1] && FirstAt(xs, x, k)
    ensures FirstAt(xs[..|xs| - 1], x, k)
  {
    var n := |xs| - 1;
    var i :| 0 <= i < n && xs[..n][i] == x;
    assert k < n ==> xs[..n][..k] == xs[..k];
  }

  lemma {:induction false} DedupeKeepsPrefix(xs: seq<string>, ys: seq<string>)
    ensures Dedupe(xs) <= Dedupe(xs + ys)
  {
    if ys == [] {
      assert xs + ys == xs;
    } else {
      var n := |ys| - 1;
      assert (xs + ys)[..|xs + ys| - 1] == xs + ys[..n];
      DedupeKeepsPrefix(xs, ys[..n]);
    }
  }

  // ---- the effective rule list -------------------------------------------------------

  /** The URL library: the host of a base URL, if it parses and has one. */
  type HostOf = string -> Option<string>

  function Hosts(hostOf: HostOf, urls: seq<string>): seq<string> {
    if urls == [] then []
    else (if hostOf(urls[0]).Some? then [Lower(hostOf(urls[0]).value)] else []) + Hosts(hostOf, urls[1..])
  }

  function NormalizedDomains(domains: seq<string>): seq<string> {
    if domains == [] then []
    else (if Canonical(domains[0]) == [] then [] else [Canonical(domains[0])]) + NormalizedDomains(domains[1..])
  }

  function TextureUrls(url: Option<string>): seq<string> { if url.Some? then [url.value] else [] }

  function RuleSources(hostOf: HostOf, configured: seq<string>, publicUrls: seq<string>, textureUrl: Option<string>)
    : seq<string>
  {
    NormalizedDomains(DEFAULT_SKIN_DOMAINS + configured)
    + Hosts(hostOf, publicUrls) + Hosts(hostOf, TextureUrls(textureUrl))
  }

  method ReadEffectiveSkinDomains(
    hostOf: HostOf, configured: seq<string>, publicUrls: seq<string>, textureUrl: Option<string>)
    returns (domains: seq<string>)
    ensures domains == Dedupe(RuleSources(hostOf, configured, publicUrls, textureUrl))
    ensures NoDuplicates(domains) && DEFAULT_SKIN_DOMAINS <= domains
    ensures forall d :: d in domains <==> Effective(hostOf, configured, publicUrls, textureUrl, d)
  {
    var sources := RuleSources(hostOf, configured, publicUrls, textureUrl);
    domains := DedupeFold(sources);
    DedupeMeaning(sources);
    StartsWithDefaults(hostOf, configured, publicUrls, textureUrl);
    forall d ensures d in sources <==> Effective(hostOf, configured, publicUrls, textureUrl, d) {
      SourcesMeaning(hostOf, configured, publicUrls, textureUrl, d);
    }
  }

  ghost predicate HostOfSome(hostOf: HostOf, urls: seq<string>, d: string) {
    exists u :: u in urls && hostOf(u).Some? && d == Lower(hostOf(u).value)
  }

  /** A rule is in force exactly when it is a default, a configured rule that is not blank, in
      normal form, or the host of one of the server's own URLs. */
  ghost predicate Effective(
    hostOf: HostOf, configured: seq<string>, publicUrls: seq<string>, textureUrl: Option<string>, d: string)
  {
    || d in DEFAULT_SKIN_DOMAINS
    || (exists c :: c in configured && Trim(c) != [] && d == Lower(Trim(c)))
    || HostOfSome(hostOf, publicUrls, d)
    || (textureUrl.Some? && hostOf(textureUrl.value).Some? && d == Lower(hostOf(textureUrl.value).value))
  }

  lemma {:induction false} HostsMeaning(hostOf: HostOf, urls: seq<string>, d: string)
    ensures d in Hosts(hostOf, urls) <==> HostOfSome(hostOf, urls, d)
  {
    if urls != [] {
      HostsMeaning(hostOf, urls[1..], d);
      assert urls == [urls[0]] + urls[1..];
    }
  }

  lemma {:induction false} NormalizedDomainsMeaning(domains: seq<string>, d: string)
    ensures d in NormalizedDomains(domains) <==> exists c :: c in domains && Trim(c) != [] && d == Lower(Trim(c))
  {
    if domains != [] {
      NormalizedDomainsMeaning(domains[1..], d);
      assert domains == [domains[0]] + domains[1..];
      assert Canonical(domains[0]) == [] <==> Trim(domains[0]) == [];
    }
  }

  lemma SourcesMeaning(
    hostOf: HostOf, configured: seq<string>, publicUrls: seq<string>, textureUrl: Option<string>, d: string)
    ensures d in RuleSources(hostOf, configured, publicUrls, textureUrl)
            <==> Effective(hostOf, configured, publicUrls, textureUrl, d)
  {
    DefaultsAreCanonical();
    NormalizedDomainsAppend(DEFAULT_SKIN_DOMAINS, configured);
    NormalizedDomainsMeaning(configured, d);
    HostsMeaning(hostOf, publicUrls, d);
    HostsMeaning(hostOf, TextureUrls(textureUrl), d);
  }

  lemma {:induction false} NormalizedDomainsAppend(a: seq<string>, b: seq<string>)
    ensures NormalizedDomains(a + b) == NormalizedDomains(a) + NormalizedDomains(b)
  {
    if a == [] {
      assert a + b == b;
    } else {
      assert (a + b)[1..] == a[1..] + b;
      NormalizedDomainsAppend(a[1..], b);
    }
  }

  lemma DefaultsAreCanonical()
    ensures NormalizedDomains(DEFAULT_SKIN_DOMAINS) == DEFAULT_SKIN_DOMAINS
    ensures Dedupe(DEFAULT_SKIN_DOMAINS) == DEFAULT_SKIN_DOMAINS
  {
    var a, b := DEFAULT_SKIN_DOMAINS[0], DEFAULT_SKIN_DOMAINS[1];
    var first: seq<string>, second: seq<string> := [a], [b];
    TrimOfTrimmed(a);
    TrimOfTrimmed(b);
    assert Lower(a) == a && Lower(b) == b;
    assert DEFAULT_SKIN_DOMAINS[1..] == second && second[1..] == [];
    assert NormalizedDomains(second) == second;
    assert DEFAULT_SKIN_DOMAINS[..1] == first && first[..0] == [] && a[2] != b[2];
    assert Dedupe(first) == first;
  }

  lemma Reassociate(d: seq<string>, a: seq<string>, b: seq<string>, c: seq<string>)
    ensures (d + a) + b + c == d + (a + b + c)
  {
  }

  lemma StartsWithDefaults(hostOf: HostOf, configured: seq<string>, publicUrls: seq<string>, textureUrl: Option<string>)
    ensures DEFAULT_SKIN_DOMAINS <= Dedupe(RuleSources(hostOf, configured, publicUrls, textureUrl))
  {
    DefaultsAreCanonical();
    NormalizedDomainsAppend(DEFAULT_SKIN_DOMAINS, configured);
    var a, b, c := NormalizedDomains(configured), Hosts(hostOf, publicUrls), Hosts(hostOf, TextureUrls(textureUrl));
    Reassociate(DEFAULT_SKIN_DOMAINS, a, b, c);
    DedupeKeepsPrefix(DEFAULT_SKIN_DOMAINS, a + b + c);
  }

  predicate Covered(domains: seq<string>, host: string) {
    exists k :: 0 <= k < |domains| && SkinDomainMatchesHost(domains[k], host)
  }

  function Uncovered(domains: seq<string>, hosts: seq<string>): seq<string> {
    if hosts == [] then []
    else (if Covered(domains, hosts[0]) then [] else [hosts[0]]) + Uncovered(domains, hosts[1..])
  }

  /** The admin diagnostic: the hosts of the base URLs that no rule matches, each once. */
  method HostsMissingFromSkinDomains(hostOf: HostOf, publicUrls: seq<string>, domains: seq<string>)
    returns (missing: seq<string>)
    ensures NoDuplicates(missing)
    ensures forall host :: host in missing <==> host in Hosts(hostOf, publicUrls) && !Covered(domains, host)
  {
    var hosts := Uncovered(domains, Hosts(hostOf, publicUrls));
    missing := DedupeFold(hosts);
    DedupeMeaning(hosts);
    UncoveredMeaning(domains, Hosts(hostOf, publicUrls));
  }

  lemma {:induction false} UncoveredMeaning(domains: seq<string>, hosts: seq<string>)
    ensures forall host :: host in Uncovered(domains, hosts) <==> host in hosts && !Covered(domains, host)
  {
    if hosts != [] {
      UncoveredMeaning(domains, hosts[1..]);
      assert hosts == [hosts[0]] + hosts[1..];
    }
  }

  /** The effective rules cover every host of the policy's own base URLs, so on them the
      diagnostic finds nothing, whatever is configured. */
  lemma OwnHostsAreCovered(hostOf: HostOf, configured: seq<string>, publicUrls: seq<string>, textureUrl: Option<string>)
    ensures var domains := Dedupe(RuleSources(hostOf, configured, publicUrls, textureUrl));
            && (forall host :: host in Hosts(hostOf, publicUrls) ==> Covered(domains, host))
            && (forall host :: host in Hosts(hostOf, TextureUrls(textureUrl)) ==> Covered(domains, host))
            && Uncovered(domains, Hosts(hostOf, publicUrls)) == []
  {
    var sources := RuleSources(hostOf, configured, publicUrls, textureUrl);
    var domains := Dedupe(sources);
    DedupeMeaning(sources);
    forall host | host in Hosts(hostOf, publicUrls) || host in Hosts(hostOf, TextureUrls(textureUrl))
      ensures Covered(domains, host)
    {
      assert host in sources;
      assert host in domains;
      var k :| 0 <= k < |domains| && domains[k] == host;
      HostMatchesItself(host);
      assert SkinDomainMatchesHost(domains[k], host);
    }
    NothingUncovered(domains, Hosts(hostOf, publicUrls));
  }

  lemma {:induction false} NothingUncovered(domains: seq<string>, hosts: seq<string>)
    requires forall host :: host in hosts ==> Covered(domains, host)
    ensures Uncovered(domains, hosts) == []
  {
    if hosts != [] {
      assert hosts[0] in hosts;
      NothingUncovered(domains, hosts[1..]);
    }
  }
}
