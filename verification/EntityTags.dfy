/** If-None-Match: the comma-splitting matcher against the weak comparison of entity
    tags in sections 8.8.3.2 and 13.1.2 of RFC 9110. */
module EntityTags {
  import opened Text

  // ---- the matcher -----------------------------------------------------------

  function WeakEtagForHash(hash: string): string { "W/\"sha256-" + hash + "\"" }

  function NormalizedEtag(value: string): string {
    var v := Trim(value);
    if |v| >= 2 && UpperChar(v[0]) == 'W' && v[1] == '/' then Trim(v[2..]) else v
  }

  predicate Hits(candidate: string, etag: string) {
    Trim(candidate) == "*" || NormalizedEtag(Trim(candidate)) == NormalizedEtag(etag)
  }

  predicate AnyHits(candidates: seq<string>, etag: string) {
    exists k :: 0 <= k < |candidates| && Hits(candidates[k], etag)
  }

  predicate IfNoneMatchContains(value: string, etag: string) { AnyHits(Split(value, ','), etag) }

  predicate Blank(s: string) { forall c :: c in s ==> IsSpace(c) }

  /** A weakness mark in either case goes, with the whitespace around it; text without a mark
      only loses its outer whitespace. */
  lemma NormalizedMeaning(pre: string, mark: string, pad: string, core: string, post: string)
    requires Blank(pre) && Blank(pad) && Blank(post) && core != [] && Trimmed(core)
    requires mark == "W/" || mark == "w/"
    ensures NormalizedEtag(pre + (mark + (pad + core)) + post) == core
    ensures |core| < 2 || core[1] != '/' || (core[0] != 'W' && core[0] != 'w') ==>
              NormalizedEtag(pre + core + post) == core
  {
    var marked := mark + (pad + core);
    assert marked[0] == mark[0] && marked[1] == '/' && marked[|marked| - 1] == core[|core| - 1];
    TrimPadded(pre, marked, post);
    assert marked[2..] == pad + core;
    TrimPadded(pad, core, []);
    assert pad + core + [] == pad + core;
    TrimPadded(pre, core, post);
  }

  // ---- the grammar -------------------------------------------------------------

  /** Visible ASCII but the double quote; commas are allowed. */
  predicate EtagChar(c: char) { c == '!' || '#' <= c <= '~' }

  datatype EntityTag = EntityTag(weak: bool, opaqueTag: string) {
    predicate Valid() { forall c :: c in opaqueTag ==> EtagChar(c) }
    function Prefix(): string { if weak then "W/" else "" }
    function Text(): string { Prefix() + "\"" + opaqueTag + "\"" }
  }

  /** A list element with optional whitespace; recipients accept empty elements. */
  datatype Element = Empty(space: string) | Tagged(before: string, tag: EntityTag, after: string) {
    predicate Valid() {
      match this
      case Empty(space) => Ows(space)
      case Tagged(before, tag, after) => Ows(before) && tag.Valid() && Ows(after)
    }
    function Text(): string {
      match this
      case Empty(space) => space
      case Tagged(before, tag, after) => before + tag.Text() + after
    }
  }

  predicate Ows(s: string) { forall c :: c in s ==> c == ' ' || c == '\t' }

  datatype FieldValue = Any(before: string, after: string) | List(elements: seq<Element>) {
    predicate Valid() {
      match this
      case Any(before, after) => Ows(before) && Ows(after)
      case List(elements) => elements != [] && forall e :: e in elements ==> e.Valid()
    }
    function Text(): string {
      match this
      case Any(before, after) => before + "*" + after
      case List(elements) => Join(Texts(elements), ',')
    }
  }

  function Texts(es: seq<Element>): seq<string> {
    seq(|es|, i requires 0 <= i < |es| => es[i].Text())
  }

  /** Weak comparison: opaque parts equal, weakness ignored. */
  ghost predicate RfcMatches(field: FieldValue, server: EntityTag) {
    match field
    case Any(_, _) => true
    case List(es) => exists e :: e in es && e.Tagged? && e.tag.opaqueTag == server.opaqueTag
  }

  /** The one text inside a tag that the matcher mistakes for the wildcard. */
  ghost predicate StarInside(opaqueTag: string) { exists a, b :: opaqueTag == a + ",*," + b }

  ghost predicate HasStarInside(field: FieldValue) {
    field.List? && exists e :: e in field.elements && e.Tagged? && StarInside(e.tag.opaqueTag)
  }

  // ---- counting quotes -----------------------------------------------------------

  function Quotes(s: string): nat { if s == [] then 0 else (if s[0] == '"' then 1 else 0) + Quotes(s[1..]) }

  lemma {:induction false} QuotesAppend(a: string, b: string)
    ensures Quotes(a + b) == Quotes(a) + Quotes(b)
  {
    if a == [] {
      assert a + b == b;
    } else {
      assert (a + b)[1..] == a[1..] + b;
      QuotesAppend(a[1..], b);
    }
  }

  lemma {:induction false} NoQuotes(s: string)
    requires '"' !in s
    ensures Quotes(s) == 0
  {
    if s != [] { NoQuotes(s[1..]); }
  }

  lemma {:induction false} QuotesTrimStart(s: string)
    ensures Quotes(TrimStart(s)) == Quotes(s)
  {
    if s != [] && IsSpace(s[0]) { QuotesTrimStart(s[1..]); }
  }

  lemma {:induction false} QuotesTrimEnd(s: string)
    ensures Quotes(TrimEnd(s)) == Quotes(s)
  {
    var n := |s| - 1;
    if s != [] && IsSpace(s[n]) {
      QuotesTrimEnd(s[..n]);
      assert s == s[..n] + [s[n]];
      QuotesAppend(s[..n], [s[n]]);
    }
  }

  lemma QuotesTrim(s: string)
    ensures Quotes(Trim(s)) == Quotes(s)
  {
    QuotesTrimStart(s);
    QuotesTrimEnd(TrimStart(s));
  }

  /** Neither trimming nor dropping a weakness mark touches a quote. */
  lemma QuotesNormalized(s: string)
    ensures Quotes(NormalizedEtag(s)) == Quotes(s)
  {
    QuotesTrim(s);
    var v := Trim(s);
    if |v| >= 2 && UpperChar(v[0]) == 'W' && v[1] == '/' {
      assert v == v[..2] + v[2..];
      QuotesAppend(v[..2], v[2..]);
      NoQuotes(v[..2]);
      QuotesTrim(v[2..]);
    }
  }

  function Quoted(s: string): string { "\"" + s + "\"" }

  lemma QuotesOfQuoted(s: string)
    requires '"' !in s
    ensures Quotes(Quoted(s)) == 2
  {
    QuotesAppend("\"" + s, "\"");
    QuotesAppend("\"", s);
    NoQuotes(s);
  }

  lemma NormalizedTag(t: EntityTag)
    ensures NormalizedEtag(t.Text()) == Quoted(t.opaqueTag) && Trim(t.Text()) == t.Text()
    ensures NormalizedEtag(Trim(t.Text())) == Quoted(t.opaqueTag)
  {
    var q := Quoted(t.opaqueTag);
    TrimOfTrimmed(q);
    TrimOfTrimmed(t.Text());
    assert t.Text() == t.Prefix() + q;
    if t.weak { assert t.Text()[2..] == q; }
  }

  /** A fragment without exactly two quotes hits only as the bare wildcard. */
  lemma HitNeedsTwoQuotes(fragment: string, server: EntityTag)
    requires server.Valid() && Quotes(fragment) != 2
    ensures Hits(fragment, server.Text()) <==> Trim(fragment) == "*"
  {
    NormalizedTag(server);
    QuotesOfQuoted(server.opaqueTag);
    QuotesTrim(fragment);
    QuotesNormalized(Trim(fragment));
  }

  // ---- fragments of one element ----------------------------------------------------

  lemma {:induction false} SplitPrefixed(a: string, s: string)
    requires ',' !in a
    ensures Split(a + s, ',') == [a + Split(s, ',')[0]] + Split(s, ',')[1..]
  {
    if a == [] {
      assert a + s == s && a + Split(s, ',')[0] == Split(s, ',')[0];
    } else {
      assert (a + s)[1..] == a[1..] + s;
      SplitPrefixed(a[1..], s);
      var ps := Split(s, ',');
      assert [a[0]] + (a[1..] + ps[0]) == a + ps[0];
      assert ([a[1..] + ps[0]] + ps[1..])[1..] == ps[1..];
    }
  }

  lemma {:induction false} SplitSuffixed(s: string, b: string)
    requires ',' !in b
    ensures var ps := Split(s, ','); var n := |ps| - 1; Split(s + b, ',') == ps[..n] + [ps[n] + b]
  {
    if s == [] {
      assert s + b == b;
      SplitClean(b, ',');
    } else {
      assert (s + b)[1..] == s[1..] + b;
      SplitSuffixed(s[1..], b);
      var qs, c := Split(s[1..], ','), s[0];
      var m := |qs| - 1;
      if m == 0 {
        assert qs[..m] + [qs[m] + b] == [qs[0] + b];
        assert [c] + (qs[0] + b) == [c] + qs[0] + b;
      } else {
        GlueAppend(c, ',', qs[..m], [qs[m] + b]);
        GlueAppend(c, ',', qs[..m], [qs[m]]);
        assert qs == qs[..m] + [qs[m]];
      }
    }
  }

  /** Splitting text wrapped in comma-free text wraps the first and the last piece. */
  lemma SplitWrapped(a: string, s: string, b: string)
    requires ',' !in a && ',' !in b
    ensures var ps, ws := Split(s, ','), Split(a + s + b, ',');
            && |ws| == |ps|
            && (|ps| == 1 ==> ws[0] == a + s + b)
            && (|ps| > 1 ==> ws[0] == a + ps[0] && ws[|ws| - 1] == ps[|ps| - 1] + b)
            && (forall k :: 0 < k < |ps| - 1 ==> ws[k] == ps[k])
  {
    JoinSplit(s, ',');
    SplitSuffixed(s, b);
    SplitPrefixed(a, s + b);
    assert a + s + b == a + (s + b);
  }

  lemma StarMakesPiece(a: string, b: string)
    ensures var ps := Split(a + ",*," + b, ','); exists k :: 0 < k < |ps| - 1 && ps[k] == "*"
  {
    var s := a + ",*," + b;
    assert s == a + [','] + ("*" + [','] + b);
    SplitAt(a, ',', "*" + [','] + b);
    SplitAt("*", ',', b);
    SplitClean("*", ',');
    var k := |Split(a, ',')|;
    assert Split(s, ',') == Split(a, ',') + (["*"] + Split(b, ','));
    assert Split(s, ',')[k] == "*";
  }

  lemma PieceMakesStar(s: string, k: nat)
    requires 0 < k < |Split(s, ',')| - 1 && Split(s, ',')[k] == "*"
    ensures StarInside(s)
  {
    var ps := Split(s, ',');
    JoinSplit(s, ',');
    var left, right := ps[..k], ps[k + 1..];
    assert ps == left + (["*"] + right);
    JoinAppend(left, ["*"] + right, ',');
    JoinAppend(["*"], right, ',');
    assert s == Join(left, ',') + ",*," + Join(right, ',');
  }

  lemma StarPieces(s: string)
    ensures StarInside(s) <==> exists k :: 0 < k < |Split(s, ',')| - 1 && Split(s, ',')[k] == "*"
  {
    if a, b :| s == a + ",*," + b { StarMakesPiece(a, b); }
    if k :| 0 < k < |Split(s, ',')| - 1 && Split(s, ',')[k] == "*" { PieceMakesStar(s, k); }
  }

  lemma TaggedElementHits(e: Element, server: EntityTag)
    requires e.Tagged? && e.Valid() && server.Valid() && ',' !in server.opaqueTag
    ensures IfNoneMatchContains(e.Text(), server.Text()) <==>
              e.tag.opaqueTag == server.opaqueTag || StarInside(e.tag.opaqueTag)
  {
    var ps, ws := Split(e.tag.opaqueTag, ','), Split(e.Text(), ',');
    ElementPieces(e);
    StarPieces(e.tag.opaqueTag);
    SplitOfClean(e.tag.opaqueTag);
    if |ps| == 1 {
      PlainTagHits(e, server);
    } else {
      CommaTagHits(e, server, ps, ws);
    }
  }

  /** The pieces of an element are those of its opaque tag, the outer ones with what stands
      around the tag. */
  lemma ElementPieces(e: Element)
    requires e.Tagged? && e.Valid()
    ensures var ps, ws := Split(e.tag.opaqueTag, ','), Split(e.Text(), ',');
            && |ws| == |ps|
            && (|ps| == 1 ==> ws == [e.Text()])
            && (|ps| > 1 ==> ws[0] == e.before + e.tag.Prefix() + "\"" + ps[0]
                             && ws[|ws| - 1] == ps[|ps| - 1] + ("\"" + e.after))
            && (forall k :: 0 < k < |ps| - 1 ==> ws[k] == ps[k])
  {
    var a, s, b := e.before + e.tag.Prefix() + "\"", e.tag.opaqueTag, "\"" + e.after;
    assert e.Text() == a + s + b;
    SplitWrapped(a, s, b);
  }

  lemma CommaTagHits(e: Element, server: EntityTag, ps: seq<string>, ws: seq<string>)
    requires e.Tagged? && e.Valid() && server.Valid() && |ps| > 1 && |ws| == |ps|
    requires ps == Split(e.tag.opaqueTag, ',')
    requires ws[0] == e.before + e.tag.Prefix() + "\"" + ps[0] && ws[|ws| - 1] == ps[|ps| - 1] + ("\"" + e.after)
    requires forall k :: 0 < k < |ps| - 1 ==> ws[k] == ps[k]
    ensures AnyHits(ws, server.Text()) <==> exists k :: 0 < k < |ps| - 1 && ps[k] == "*"
  {
    CommaTagFragments(e, server, ps, ws);
    if k :| 0 < k < |ps| - 1 && ps[k] == "*" { assert Hits(ws[k], server.Text()); }
  }

  lemma SplitOfClean(s: string)
    ensures ',' !in s ==> |Split(s, ',')| == 1
  {
    if ',' !in s { SplitClean(s, ','); }
  }

  lemma QuotedInjective(a: string, b: string)
    ensures Quoted(a) == Quoted(b) <==> a == b
  {
    assert |Quoted(a)| == |a| + 2 && Quoted(a)[1..|a| + 1] == a;
    assert |Quoted(b)| == |b| + 2 && Quoted(b)[1..|b| + 1] == b;
  }

  lemma PlainTagHits(e: Element, server: EntityTag)
    requires e.Tagged? && e.Valid() && Split(e.Text(), ',') == [e.Text()]
    ensures IfNoneMatchContains(e.Text(), server.Text()) <==> e.tag.opaqueTag == server.opaqueTag
  {
    NormalizedTag(server);
    NormalizedTag(e.tag);
    TrimPadded(e.before, e.tag.Text(), e.after);
    QuotedInjective(e.tag.opaqueTag, server.opaqueTag);
    assert Trim(e.Text()) != "*" by { assert |e.tag.Text()| >= 2; }
    assert Hits([e.Text()][0], server.Text()) <==> e.tag.opaqueTag == server.opaqueTag;
  }

  /** A tag with commas falls apart: one quote in the first and in the last fragment,
      none between, and so no fragment equals a tag. */
  lemma CommaTagFragments(e: Element, server: EntityTag, ps: seq<string>, ws: seq<string>)
    requires e.Tagged? && e.Valid() && server.Valid() && |ps| > 1 && |ws| == |ps|
    requires ps == Split(e.tag.opaqueTag, ',')
    requires ws[0] == e.before + e.tag.Prefix() + "\"" + ps[0] && ws[|ws| - 1] == ps[|ps| - 1] + ("\"" + e.after)
    requires forall k :: 0 < k < |ps| - 1 ==> ws[k] == ps[k]
    ensures forall k :: 0 <= k < |ws| ==> (Hits(ws[k], server.Text()) <==> 0 < k < |ps| - 1 && ps[k] == "*")
  {
    var n := |ps| - 1;
    forall k | 0 <= k < |ws| ensures Hits(ws[k], server.Text()) <==> 0 < k < n && ps[k] == "*" {
      PieceIsPlain(e.tag.opaqueTag, k);
      NoQuotes(ps[k]);
      if k == 0 {
        QuotesAppend(e.before + e.tag.Prefix() + "\"", ps[0]);
        QuotesAppend(e.before + e.tag.Prefix(), "\"");
        NoQuotes(e.before + e.tag.Prefix());
      } else if k == n {
        QuotesAppend(ps[n], "\"" + e.after);
        QuotesAppend("\"", e.after);
        NoQuotes(e.after);
      }
      HitNeedsTwoQuotes(ws[k], server);
      QuotesTrim(ws[k]);
      TrimOfTrimmed(ps[k]);
    }
  }

  lemma PieceIsPlain(s: string, k: nat)
    requires (forall c :: c in s ==> EtagChar(c)) && k < |Split(s, ',')|
    ensures '"' !in Split(s, ',')[k] && Trimmed(Split(s, ',')[k])
  {
    SplitCharacters(s, k);
    assert forall c :: EtagChar(c) ==> !IsSpace(c) && c != '"';
  }

  lemma {:induction false} SplitCharacters(s: string, k: nat)
    requires k < |Split(s, ',')|
    ensures forall c :: c in Split(s, ',')[k] ==> c in s
  {
    if s != [] {
      var rest := Split(s[1..], ',');
      if s[0] == ',' {
        if k > 0 { SplitCharacters(s[1..], k - 1); }
      } else {
        SplitCharacters(s[1..], k);
      }
    }
  }

  lemma EmptyElementMisses(space: string, server: EntityTag)
    requires Ows(space) && server.Valid()
    ensures !IfNoneMatchContains(space, server.Text())
  {
    SplitClean(space, ',');
    TrimBlank(space);
    NoQuotes(space);
    HitNeedsTwoQuotes(space, server);
  }

  // ---- whole fields --------------------------------------------------------------

  lemma ContainsConcat(a: string, b: string, etag: string)
    ensures IfNoneMatchContains(a + [','] + b, etag) <==> IfNoneMatchContains(a, etag) || IfNoneMatchContains(b, etag)
  {
    SplitAt(a, ',', b);
    AnyHitsAppend(Split(a, ','), Split(b, ','), etag);
  }

  lemma AnyHitsAppend(l: seq<string>, r: seq<string>, etag: string)
    ensures AnyHits(l + r, etag) <==> AnyHits(l, etag) || AnyHits(r, etag)
  {
    var all := l + r;
    if k :| 0 <= k < |l| && Hits(l[k], etag) { assert Hits(all[k], etag); }
    if k :| 0 <= k < |r| && Hits(r[k], etag) { assert Hits(all[|l| + k], etag); }
    if k :| 0 <= k < |all| && Hits(all[k], etag) {
      if k < |l| { assert Hits(l[k], etag); } else { assert Hits(r[k - |l|], etag); }
    }
  }

  /** What a single element contributes to the matcher's answer. */
  ghost predicate ElementHits(e: Element, server: EntityTag) {
    e.Tagged? && (e.tag.opaqueTag == server.opaqueTag || StarInside(e.tag.opaqueTag))
  }

  lemma ElementDecides(e: Element, server: EntityTag)
    requires e.Valid() && server.Valid() && ',' !in server.opaqueTag
    ensures IfNoneMatchContains(e.Text(), server.Text()) <==> ElementHits(e, server)
  {
    match e
    case Empty(space) => EmptyElementMisses(space, server);
    case Tagged(_, _, _) => TaggedElementHits(e, server);
  }

  lemma {:induction false} ListDecides(es: seq<Element>, server: EntityTag)
    requires es != [] && (forall e :: e in es ==> e.Valid()) && server.Valid() && ',' !in server.opaqueTag
    ensures IfNoneMatchContains(Join(Texts(es), ','), server.Text()) <==> exists e :: e in es && ElementHits(e, server)
  {
    assert es[0] in es;
    ElementDecides(es[0], server);
    JoinTexts(es);
    if |es| > 1 {
      ListDecides(es[1..], server);
      ContainsConcat(es[0].Text(), Join(Texts(es[1..]), ','), server.Text());
    }
    FirstOrRest(es, server);
  }

  lemma JoinTexts(es: seq<Element>)
    requires es != []
    ensures Join(Texts(es), ',') ==
              if |es| == 1 then es[0].Text() else es[0].Text() + [','] + Join(Texts(es[1..]), ',')
  {
    assert Texts(es)[1..] == Texts(es[1..]);
  }

  lemma FirstOrRest(es: seq<Element>, server: EntityTag)
    requires es != []
    ensures (exists e :: e in es && ElementHits(e, server)) <==>
              ElementHits(es[0], server) || exists e :: e in es[1..] && ElementHits(e, server)
  {
    assert es == [es[0]] + es[1..];
  }

  /** For every well-formed field value and every comma-free server tag the matcher says
      yes exactly when RFC 9110 does or some tag contains a comma-enclosed star. */
  lemma MatcherMeaning(field: FieldValue, server: EntityTag)
    requires field.Valid() && server.Valid() && ',' !in server.opaqueTag
    ensures IfNoneMatchContains(field.Text(), server.Text()) <==> RfcMatches(field, server) || HasStarInside(field)
  {
    match field
    case Any(before, after) =>
      SplitClean(before + "*" + after, ',');
      TrimPadded(before, "*", after);
      assert Hits(Split(field.Text(), ',')[0], server.Text());
    case List(es) =>
      ListDecides(es, server);
  }

  /** The matcher agrees with RFC 9110 exactly when the field matches anyway or no tag
      contains a comma-enclosed star. */
  lemma AgreesExactly(field: FieldValue, server: EntityTag)
    requires field.Valid() && server.Valid() && ',' !in server.opaqueTag
    ensures (IfNoneMatchContains(field.Text(), server.Text()) <==> RfcMatches(field, server))
            <==> (RfcMatches(field, server) || !HasStarInside(field))
  {
    MatcherMeaning(field, server);
  }

  /** The disagreement is real: one tag matches every server tag. */
  lemma StarInsideTagMatchesAnything(server: EntityTag)
    requires server.Valid() && ',' !in server.opaqueTag
    ensures var field := List([Tagged("", EntityTag(false, ",*,"), "")]);
            field.Valid() && IfNoneMatchContains(field.Text(), server.Text()) && !RfcMatches(field, server)
  {
    var e := Tagged("", EntityTag(false, ",*,"), "");
    var field := List([e]);
    assert ",*," == "" + ",*," + "" && StarInside(",*,");
    assert e in field.elements && ",*,"[0] == ',';
    MatcherMeaning(field, server);
  }

  /** The server's own tags, made from hexadecimal digests, meet the conditions above. */
  lemma ServerTags(hash: string)
    requires forall c :: c in hash ==> '0' <= c <= '9' || 'a' <= c <= 'f'
    ensures var server := EntityTag(true, "sha256-" + hash);
            server.Valid() && ',' !in server.opaqueTag && server.Text() == WeakEtagForHash(hash)
  {
  }
}
