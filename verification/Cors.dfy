/** CORS settings: the origin list parser and printer, the effective policy, and the
    admin updates of the two related keys. */
module Cors {
  import opened Text

  const CORS_ENABLED_KEY := "cors_enabled"
  const CORS_ALLOWED_ORIGINS_KEY := "cors_allowed_origins"
  const CORS_ALLOW_CREDENTIALS_KEY := "cors_allow_credentials"
  const CORS_MAX_AGE_SECS_KEY := "cors_max_age_secs"
  const DEFAULT_CORS_MAX_AGE_SECS: nat := 3600

  datatype AllowedOrigins = NoOrigin | AnyOrigin | Listed(origins: seq<string>)

  /** The shared URL library's origin normalizer with the wildcard allowed. */
  type Normalizer = string -> Option<string>

  ghost predicate ValidNormalizer(norm: Normalizer) {
    forall x, y :: norm(x) == Some(y) ==> norm(y) == Some(y) && y != [] && Trimmed(y) && ',' !in y
  }

  // ---- parsing ------------------------------------------------------------------

  /** Insertion into an ordered set. */
  function InsertOrigin(xs: seq<string>, x: string): seq<string>
    requires Sorted(xs)
  {
    if x in xs then xs else InsertSorted(xs, x)
  }

  lemma InsertOriginKeepsSet(xs: seq<string>, x: string)
    requires StrictlySorted(xs)
    ensures StrictlySorted(InsertOrigin(xs, x))
    ensures forall y :: y in InsertOrigin(xs, x) <==> y in xs || y == x
  {
    if x !in xs {
      assert NoDuplicates(xs + [x]);
      assert multiset(xs + [x]) == multiset(xs) + multiset{x};
      SortedDistinct(xs + [x], InsertSorted(xs, x));
    }
  }

  /** The loop's two variables after reading some pieces, or an error. */
  datatype Reading = Reading(origins: seq<string>, wildcard: bool) | Malformed

  function ReadPiece(norm: Normalizer, r: Reading, piece: string): Reading
    requires r.Reading? ==> StrictlySorted(r.origins)
  {
    var origin := Trim(piece);
    if r.Malformed? || origin == [] then r
    else match norm(origin)
      case None => Malformed
      case Some(normalized) =>
        if normalized == "*" then r.(wildcard := true) else r.(origins := InsertOrigin(r.origins, normalized))
  }

  function ReadPieces(norm: Normalizer, pieces: seq<string>): (r: Reading)
    ensures r.Reading? ==> StrictlySorted(r.origins)
  {
    if pieces == [] then Reading([], false)
    else
      var n := |pieces| - 1;
      var before := ReadPieces(norm, pieces[..n]);
      var r := ReadPiece(norm, before, pieces[n]);
      ReadPieceKeepsOrder(norm, before, pieces[n]);
      r
  }

  lemma ReadPieceKeepsOrder(norm: Normalizer, r: Reading, piece: string)
    requires r.Reading? ==> StrictlySorted(r.origins)
    ensures var n := ReadPiece(norm, r, piece); n.Reading? ==> StrictlySorted(n.origins)
  {
    var origin := Trim(piece);
    if r.Reading? && origin != [] && norm(origin).Some? { InsertOriginKeepsSet(r.origins, norm(origin).value); }
  }

  function Classify(r: Reading): Option<AllowedOrigins> {
    if r.Malformed? || (r.wildcard && r.origins != []) then None
    else if r.wildcard then Some(AnyOrigin)
    else if r.origins == [] then Some(NoOrigin)
    else Some(Listed(r.origins))
  }

  function ParseOrigins(norm: Normalizer, value: string): Option<AllowedOrigins> {
    var trimmed := Trim(value);
    if trimmed == [] then Some(NoOrigin) else Classify(ReadPieces(norm, Split(trimmed, ',')))
  }

  /** The parser as written, with its early return. */
  method ParseAllowedOrigins(norm: Normalizer, value: string) returns (parsed: Option<AllowedOrigins>)
    ensures parsed == ParseOrigins(norm, value)
  {
    var trimmed := Trim(value);
    if trimmed == [] {
      return Some(NoOrigin);
    }
    var origins: seq<string>, wildcard := [], false;
    var pieces := Split(trimmed, ',');
    for i := 0 to |pieces|
      invariant StrictlySorted(origins)
      invariant ReadPieces(norm, pieces[..i]) == Reading(origins, wildcard)
    {
      ReadNext(norm, pieces, i);
      var origin := Trim(pieces[i]);
      if origin != [] {
        var normalized := norm(origin);
        if normalized.None? {
          MalformedStays(norm, pieces, i + 1);
          return None;
        }
        if normalized.value == "*" {
          wildcard := true;
        } else {
          InsertOriginKeepsSet(origins, normalized.value);
          origins := InsertOrigin(origins, normalized.value);
        }
      }
    }
    assert pieces[..|pieces|] == pieces;
    if wildcard && origins != [] {
      return None;
    }
    if wildcard {
      return Some(AnyOrigin);
    }
    return if origins == [] then Some(NoOrigin) else Some(Listed(origins));
  }

  lemma ReadNext(norm: Normalizer, pieces: seq<string>, i: nat)
    requires i < |pieces|
    ensures ReadPieces(norm, pieces[..i + 1]) == ReadPiece(norm, ReadPieces(norm, pieces[..i]), pieces[i])
  {
    assert pieces[..i + 1][..i] == pieces[..i];
  }

  lemma {:induction false} MalformedStays(norm: Normalizer, pieces: seq<string>, i: nat)
    requires i <= |pieces| && ReadPieces(norm, pieces[..i]).Malformed?
    ensures ReadPieces(norm, pieces).Malformed?
  {
    if i == |pieces| {
      assert pieces[..i] == pieces;
    } else {
      MalformedStays(norm, pieces[..|pieces| - 1], i) by {
        assert pieces[..|pieces| - 1][..i] == pieces[..i];
      }
    }
  }

  /** Piece `p` contributes the normalized origin `y`. */
  predicate Contributes(norm: Normalizer, p: string, y: string) { Trim(p) != [] && norm(Trim(p)) == Some(y) }

  ghost predicate Named(norm: Normalizer, pieces: seq<string>, y: string) {
    exists i :: 0 <= i < |pieces| && Contributes(norm, pieces[i], y)
  }

  lemma NamedAppend(norm: Normalizer, pieces: seq<string>, last: string, y: string)
    ensures Named(norm, pieces + [last], y) <==> Named(norm, pieces, y) || Contributes(norm, last, y)
  {
    var all := pieces + [last];
    if i :| 0 <= i < |pieces| && Contributes(norm, pieces[i], y) { assert Contributes(norm, all[i], y); }
    if Contributes(norm, last, y) { assert Contributes(norm, all[|pieces|], y); }
    if i :| 0 <= i < |all| && Contributes(norm, all[i], y) {
      if i < |pieces| { assert Contributes(norm, pieces[i], y); }
    }
  }

  /** What the loop has collected: the named origins but the wildcard, and whether the
      wildcard was named. */
  lemma {:induction false} ReadingMeaning(norm: Normalizer, pieces: seq<string>, y: string)
    requires ReadPieces(norm, pieces).Reading?
    ensures var r := ReadPieces(norm, pieces);
            && (y in r.origins <==> y != "*" && Named(norm, pieces, y))
            && (r.wildcard <==> Named(norm, pieces, "*"))
  {
    if pieces != [] {
      var n := |pieces| - 1;
      var before := ReadPieces(norm, pieces[..n]);
      assert pieces == pieces[..n] + [pieces[n]];
      ReadingMeaning(norm, pieces[..n], y);
      NamedAppend(norm, pieces[..n], pieces[n], y);
      NamedAppend(norm, pieces[..n], pieces[n], "*");
      var origin := Trim(pieces[n]);
      if origin != [] && norm(origin).value != "*" { InsertOriginKeepsSet(before.origins, norm(origin).value); }
    }
  }

  predicate Refused(norm: Normalizer, p: string) { Trim(p) != [] && norm(Trim(p)).None? }

  ghost predicate Unreadable(norm: Normalizer, pieces: seq<string>) {
    exists i :: 0 <= i < |pieces| && Refused(norm, pieces[i])
  }

  lemma RefusedExactly(norm: Normalizer, r: Reading, piece: string)
    requires r.Reading? ==> StrictlySorted(r.origins)
    ensures ReadPiece(norm, r, piece).Malformed? <==> r.Malformed? || Refused(norm, piece)
  {
  }

  lemma UnreadableAppend(norm: Normalizer, pieces: seq<string>, last: string)
    ensures Unreadable(norm, pieces + [last]) <==> Unreadable(norm, pieces) || Refused(norm, last)
  {
    var all := pieces + [last];
    assert forall i :: 0 <= i < |pieces| ==> all[i] == pieces[i];
    assert all[|pieces|] == last;
  }

  lemma {:induction false} MalformedExactly(norm: Normalizer, pieces: seq<string>)
    ensures ReadPieces(norm, pieces).Malformed? <==> Unreadable(norm, pieces)
  {
    if pieces != [] {
      var n := |pieces| - 1;
      var init, last := pieces[..n], pieces[n];
      MalformedExactly(norm, init);
      RefusedExactly(norm, ReadPieces(norm, init), last);
      UnreadableAppend(norm, init, last);
      assert pieces == init + [last];
    }
  }

  /** The parser in terms of what the pieces name: refused exactly when a piece is
      unreadable or the wildcard stands beside another origin; otherwise the wildcard,
      or the ordered list of exactly the origins named. */
  lemma ParseMeaning(norm: Normalizer, value: string)
    ensures Trim(value) == [] ==> ParseOrigins(norm, value) == Some(NoOrigin)
    ensures Trim(value) != [] ==>
            var pieces, parsed := Split(Trim(value), ','), ParseOrigins(norm, value);
            && (parsed.None? <==>
                  || Unreadable(norm, pieces)
                  || (Named(norm, pieces, "*") && exists y :: y != "*" && Named(norm, pieces, y)))
            && (parsed == Some(AnyOrigin) ==> Named(norm, pieces, "*"))
            && (parsed.Some? && !parsed.value.AnyOrigin? ==> !Named(norm, pieces, "*"))
            && (parsed == Some(NoOrigin) ==> forall y :: !Named(norm, pieces, y))
            && (parsed.Some? && parsed.value.Listed? ==>
                  && parsed.value.origins != [] && StrictlySorted(parsed.value.origins)
                  && forall y :: y in parsed.value.origins <==> Named(norm, pieces, y))
  {
    var pieces := Split(Trim(value), ',');
    MalformedExactly(norm, pieces);
    var r := ReadPieces(norm, pieces);
    if r.Reading? {
      forall y
        ensures (y in r.origins <==> y != "*" && Named(norm, pieces, y)) && (r.wildcard <==> Named(norm, pieces, "*"))
      {
        ReadingMeaning(norm, pieces, y);
      }
      assert r.origins != [] <==> exists y :: y in r.origins by {
        if r.origins != [] { assert r.origins[0] in r.origins; }
      }
    }
  }

  // ---- printing and parsing back ----------------------------------------------------

  function Print(o: AllowedOrigins): string {
    match o
    case NoOrigin => ""
    case AnyOrigin => "*"
    case Listed(origins) => Join(origins, ',')
  }

  function NormalizeOriginsValue(norm: Normalizer, value: string): Option<string> {
    match ParseOrigins(norm, value)
    case None => None
    case Some(o) => Some(Print(o))
  }

  /** The printed forms: nothing, a star, or the origins with single commas between them. */
  lemma PrintMeaning(xs: seq<string>)
    ensures |Print(NoOrigin)| == 0 && Print(AnyOrigin) == ['*']
    ensures xs != [] && (forall x :: x in xs ==> ',' !in x) ==> Split(Print(Listed(xs)), ',') == xs
  {
    if xs != [] && forall x :: x in xs ==> ',' !in x { SplitJoin(xs, ','); }
  }

  /** Lists the parser can produce: ordered, without the wildcard, of normal origins. */
  ghost predicate NormalList(norm: Normalizer, xs: seq<string>) {
    && xs != [] && StrictlySorted(xs)
    && forall x :: x in xs ==> x != "*" && x != [] && Trimmed(x) && ',' !in x && norm(x) == Some(x)
  }

  lemma NamedIsNormal(norm: Normalizer, pieces: seq<string>, y: string)
    requires ValidNormalizer(norm) && Named(norm, pieces, y)
    ensures norm(y) == Some(y) && y != [] && Trimmed(y) && ',' !in y
  {
    var i :| 0 <= i < |pieces| && Contributes(norm, pieces[i], y);
    assert norm(Trim(pieces[i])) == Some(y);
  }

  lemma ReadIsNormal(norm: Normalizer, pieces: seq<string>)
    requires ValidNormalizer(norm) && ReadPieces(norm, pieces).Reading?
    ensures var r := ReadPieces(norm, pieces);
            (r.origins != [] ==> NormalList(norm, r.origins)) && (r.wildcard ==> norm("*") == Some("*"))
  {
    var r := ReadPieces(norm, pieces);
    forall y | y in r.origins ensures y != "*" && norm(y) == Some(y) && y != [] && Trimmed(y) && ',' !in y {
      ReadingMeaning(norm, pieces, y);
      NamedIsNormal(norm, pieces, y);
    }
    ReadingMeaning(norm, pieces, "*");
    if r.wildcard { NamedIsNormal(norm, pieces, "*"); }
  }

  lemma ParsedIsNormal(norm: Normalizer, value: string)
    requires ValidNormalizer(norm) && ParseOrigins(norm, value).Some?
    ensures var o := ParseOrigins(norm, value).value;
            && (o.Listed? ==> NormalList(norm, o.origins))
            && (o.AnyOrigin? ==> norm("*") == Some("*"))
  {
    if Trim(value) != [] { ReadIsNormal(norm, Split(Trim(value), ',')); }
  }

  lemma {:induction false} JoinIsTrimmed(xs: seq<string>)
    requires xs != [] && forall x :: x in xs ==> x != [] && Trimmed(x)
    ensures Join(xs, ',') != [] && Trimmed(Join(xs, ','))
  {
    assert xs[0] in xs;
    if |xs| > 1 {
      forall x | x in xs[1..] ensures x in xs {}
      JoinIsTrimmed(xs[1..]);
      var rest := Join(xs[1..], ',');
      var all := Join(xs, ',');
      assert all == xs[0] + [','] + rest;
      assert all[0] == xs[0][0] && all[|all| - 1] == rest[|rest| - 1];
    }
  }

  lemma {:induction false} NormalPiecesAreRead(norm: Normalizer, xs: seq<string>)
    requires forall x :: x in xs ==> Trimmed(x) && norm(x).Some?
    ensures ReadPieces(norm, xs).Reading?
  {
    if xs != [] {
      var n := |xs| - 1;
      NormalPiecesAreRead(norm, xs[..n]);
      assert xs[n] in xs;
      TrimOfTrimmed(xs[n]);
    }
  }

  lemma NormalListReadsBack(norm: Normalizer, xs: seq<string>)
    requires NormalList(norm, xs)
    ensures ReadPieces(norm, xs) == Reading(xs, false)
  {
    NormalPiecesAreRead(norm, xs);
    var r := ReadPieces(norm, xs);
    forall y ensures y in r.origins <==> y in xs {
      ReadingMeaning(norm, xs, y);
      NormalPieceContributes(norm, xs, y);
    }
    StrictlySortedUnique(r.origins, xs);
    ReadingMeaning(norm, xs, "*");
    NormalPieceContributes(norm, xs, "*");
  }

  lemma NormalPieceContributes(norm: Normalizer, xs: seq<string>, y: string)
    requires NormalList(norm, xs)
    ensures Named(norm, xs, y) <==> y in xs
  {
    forall i | 0 <= i < |xs| ensures Contributes(norm, xs[i], y) <==> y == xs[i] {
      assert xs[i] in xs;
      TrimOfTrimmed(xs[i]);
    }
  }

  /** Printing a parsed value and parsing it again gives the same value. */
  lemma PrintParsesBack(norm: Normalizer, value: string)
    requires ValidNormalizer(norm) && ParseOrigins(norm, value).Some?
    ensures var o := ParseOrigins(norm, value).value; ParseOrigins(norm, Print(o)) == Some(o)
  {
    var o := ParseOrigins(norm, value).value;
    ParsedIsNormal(norm, value);
    match o
    case NoOrigin =>
    case AnyOrigin =>
      TrimOfTrimmed("*");
      SplitClean("*", ',');
      assert ["*"][..0] == [];
      assert ReadPieces(norm, ["*"]) == ReadPiece(norm, ReadPieces(norm, []), "*");
    case Listed(xs) =>
      JoinIsTrimmed(xs);
      TrimOfTrimmed(Join(xs, ','));
      SplitJoin(xs, ',');
      NormalListReadsBack(norm, xs);
  }

  /** Normalizing an accepted value keeps its meaning and is idempotent, and an accepted
      list is strictly ordered and free of the wildcard. */
  lemma NormalizeIsIdempotent(norm: Normalizer, value: string)
    requires ValidNormalizer(norm) && NormalizeOriginsValue(norm, value).Some?
    ensures var printed := NormalizeOriginsValue(norm, value).value;
            && NormalizeOriginsValue(norm, printed) == Some(printed)
            && ParseOrigins(norm, printed) == ParseOrigins(norm, value)
            && var parsed := ParseOrigins(norm, value).value;
               parsed.Listed? ==> StrictlySorted(parsed.origins) && "*" !in parsed.origins
  {
    PrintParsesBack(norm, value);
    ParsedIsNormal(norm, value);
  }

  // ---- the effective policy ---------------------------------------------------------

  type Config = map<string, string>

  datatype Policy = Policy(enabled: bool, origins: AllowedOrigins, allowCredentials: bool, maxAgeSecs: nat)

  function Get(config: Config, key: string): Option<string> { if key in config then Some(config[key]) else None }

  function ParseBool(value: string): Option<bool> {
    var v := Trim(value);
    if v == "true" then Some(true) else if v == "false" then Some(false) else None
  }

  function FlagOr(raw: Option<string>, fallback: bool): bool {
    if raw.Some? && ParseBool(raw.value).Some? then ParseBool(raw.value).value else fallback
  }

  predicate ValidCombination(o: AllowedOrigins, credentials: bool) { !(o.AnyOrigin? && credentials) }

  function StoredOrigins(norm: Normalizer, config: Config): AllowedOrigins {
    var raw := if CORS_ALLOWED_ORIGINS_KEY in config then config[CORS_ALLOWED_ORIGINS_KEY] else "";
    var parsed := ParseOrigins(norm, raw);
    if parsed.Some? then parsed.value else NoOrigin
  }

  function StoredCredentials(config: Config): bool { FlagOr(Get(config, CORS_ALLOW_CREDENTIALS_KEY), false) }

  function RuntimeCorsPolicy(norm: Normalizer, parseAge: string -> Option<nat>, config: Config): Policy {
    if !FlagOr(Get(config, CORS_ENABLED_KEY), false) then Policy(false, NoOrigin, false, DEFAULT_CORS_MAX_AGE_SECS)
    else
      var origins, credentials := StoredOrigins(norm, config), StoredCredentials(config);
      var age := if CORS_MAX_AGE_SECS_KEY in config then parseAge(Trim(config[CORS_MAX_AGE_SECS_KEY])) else None;
      var maxAge := if age.Some? then age.value else DEFAULT_CORS_MAX_AGE_SECS;
      if !ValidCombination(origins, credentials) then Policy(true, NoOrigin, false, maxAge)
      else Policy(true, origins, credentials, maxAge)
  }

  // ---- admin updates ---------------------------------------------------------------

  /** The library's strict and lenient boolean readers. */
  datatype Bools = Bools(strict: string -> Option<string>, like: string -> Option<bool>) {
    ghost predicate Valid() {
      && (forall v :: strict(v).Some? ==> strict(v).value == "true" || strict(v).value == "false")
      && like("true") == Some(true) && like("false") == Some(false)
    }
  }

  function AcceptOrigins(norm: Normalizer, bools: Bools, config: Config, value: string): Option<string> {
    var normalized := NormalizeOriginsValue(norm, value);
    if normalized.None? then None
    else
      var parsed := ParseOrigins(norm, normalized.value);
      var raw := Get(config, CORS_ALLOW_CREDENTIALS_KEY);
      var credentials := if raw.Some? && bools.like(raw.value).Some? then bools.like(raw.value).value else false;
      if parsed.None? || !ValidCombination(parsed.value, credentials) then None else normalized
  }

  function AcceptCredentials(norm: Normalizer, bools: Bools, config: Config, value: string): Option<string> {
    var normalized := bools.strict(value);
    if normalized.None? then None
    else
      var raw := Get(config, CORS_ALLOWED_ORIGINS_KEY);
      var parsed := ParseOrigins(norm, if raw.Some? then raw.value else "");
      if parsed.None? || !ValidCombination(parsed.value, normalized.value == "true") then None else normalized
  }

  datatype Update =
    | SetOrigins(value: string)
    | SetCredentials(value: string)
    | SetOther(key: string, value: string)
    | DeleteKey(key: string)

  predicate Relevant(key: string) { key == CORS_ALLOWED_ORIGINS_KEY || key == CORS_ALLOW_CREDENTIALS_KEY }

  function AfterUpdate(norm: Normalizer, bools: Bools, config: Config, u: Update): Config {
    match u
    case SetOrigins(value) =>
      var v := AcceptOrigins(norm, bools, config, value);
      if v.Some? then config[CORS_ALLOWED_ORIGINS_KEY := v.value] else config
    case SetCredentials(value) =>
      var v := AcceptCredentials(norm, bools, config, value);
      if v.Some? then config[CORS_ALLOW_CREDENTIALS_KEY := v.value] else config
    case SetOther(key, value) => if Relevant(key) then config else config[key := value]
    case DeleteKey(key) => config - {key}
  }

  function AfterUpdates(norm: Normalizer, bools: Bools, config: Config, us: seq<Update>): Config
    decreases |us|
  {
    if us == [] then config else AfterUpdates(norm, bools, AfterUpdate(norm, bools, config, us[0]), us[1..])
  }

  /** Stored values of the two keys are readable and do not pair the wildcard with
      credentials. */
  predicate SafelyStored(norm: Normalizer, config: Config) {
    && (CORS_ALLOWED_ORIGINS_KEY in config ==> ParseOrigins(norm, config[CORS_ALLOWED_ORIGINS_KEY]).Some?)
    && (CORS_ALLOW_CREDENTIALS_KEY in config ==>
          config[CORS_ALLOW_CREDENTIALS_KEY] == "true" || config[CORS_ALLOW_CREDENTIALS_KEY] == "false")
    && ValidCombination(StoredOrigins(norm, config), StoredCredentials(config))
  }

  lemma PlainBooleans()
    ensures ParseBool("true") == Some(true) && ParseBool("false") == Some(false)
  {
    TrimOfTrimmed("true");
    TrimOfTrimmed("false");
  }

  lemma UpdateKeepsSafe(norm: Normalizer, bools: Bools, config: Config, u: Update)
    requires ValidNormalizer(norm) && bools.Valid() && SafelyStored(norm, config)
    ensures SafelyStored(norm, AfterUpdate(norm, bools, config, u))
  {
    PlainBooleans();
    if u.SetOrigins? && NormalizeOriginsValue(norm, u.value).Some? {
      PrintParsesBack(norm, u.value);
    }
  }

  /** Starting from safely stored values, no sequence of admin updates and deletions turns
      wildcard origins and credentials on together, so an enabled policy always reports
      the stored origins and the stored flag: its downgrade branch is never taken. */
  lemma {:induction false} UpdatesNeverPairWildcardWithCredentials(
    norm: Normalizer, bools: Bools, parseAge: string -> Option<nat>, config: Config, us: seq<Update>)
    requires ValidNormalizer(norm) && bools.Valid() && SafelyStored(norm, config)
    ensures var n := AfterUpdates(norm, bools, config, us);
            var policy := RuntimeCorsPolicy(norm, parseAge, n);
            && !(StoredOrigins(norm, n).AnyOrigin? && StoredCredentials(n))
            && (policy.enabled ==>
                  policy.origins == StoredOrigins(norm, n) && policy.allowCredentials == StoredCredentials(n))
    decreases |us|
  {
    if us != [] {
      UpdateKeepsSafe(norm, bools, config, us[0]);
      UpdatesNeverPairWildcardWithCredentials(norm, bools, parseAge, AfterUpdate(norm, bools, config, us[0]), us[1..]);
    }
  }

  /** The shipped defaults are a safe start, and so is an empty table. */
  lemma DefaultsAreSafe(norm: Normalizer)
    ensures SafelyStored(norm, map[CORS_ALLOWED_ORIGINS_KEY := "", CORS_ALLOW_CREDENTIALS_KEY := "false"])
    ensures SafelyStored(norm, map[])
  {
    PlainBooleans();
  }

  /** The stored flag is on exactly for the text `true`, padded or not. */
  lemma FlagMeaning(raw: Option<string>)
    ensures FlagOr(raw, false) <==> raw.Some? && Trim(raw.value) == "true"
  {
  }

  /** Origins that cannot be read, or are not stored, allow nobody; others count as parsed. */
  lemma StoredOriginsMeaning(norm: Normalizer, config: Config)
    ensures StoredOrigins(norm, config) ==
              if CORS_ALLOWED_ORIGINS_KEY in config && ParseOrigins(norm, config[CORS_ALLOWED_ORIGINS_KEY]).Some?
              then ParseOrigins(norm, config[CORS_ALLOWED_ORIGINS_KEY]).value else NoOrigin
  {
  }

  /** When the policy is on, what it answers and for how long, for any stored text. */
  lemma PolicyMeaning(norm: Normalizer, parseAge: string -> Option<nat>, config: Config)
    ensures var policy := RuntimeCorsPolicy(norm, parseAge, config);
            && (policy.enabled <==> CORS_ENABLED_KEY in config && Trim(config[CORS_ENABLED_KEY]) == "true")
            && (policy.enabled ==>
                  policy.maxAgeSecs ==
                    if CORS_MAX_AGE_SECS_KEY in config && parseAge(Trim(config[CORS_MAX_AGE_SECS_KEY])).Some?
                    then parseAge(Trim(config[CORS_MAX_AGE_SECS_KEY])).value else 3600)
            && (policy.allowCredentials <==>
                  && policy.enabled && CORS_ALLOW_CREDENTIALS_KEY in config
                  && Trim(config[CORS_ALLOW_CREDENTIALS_KEY]) == "true" && StoredOrigins(norm, config) != AnyOrigin)
            && (policy.origins != NoOrigin ==> policy.origins == StoredOrigins(norm, config))
            && (policy.origins == NoOrigin <==>
                  || !policy.enabled || StoredOrigins(norm, config) == NoOrigin
                  || (StoredOrigins(norm, config) == AnyOrigin && StoredCredentials(config)))
  {
    FlagMeaning(Get(config, CORS_ENABLED_KEY));
    FlagMeaning(Get(config, CORS_ALLOW_CREDENTIALS_KEY));
  }

  /** Origins are accepted exactly when they parse and are not the wildcard beside stored
      credentials; credentials exactly when they read strictly, the stored origins parse, and
      they do not turn on beside a stored wildcard. What is accepted means what was sent. */
  lemma AcceptedExactly(norm: Normalizer, bools: Bools, config: Config, value: string)
    requires ValidNormalizer(norm)
    ensures var parsed := ParseOrigins(norm, value);
            var raw := Get(config, CORS_ALLOW_CREDENTIALS_KEY);
            var on := raw.Some? && bools.like(raw.value) == Some(true);
            var accepted := AcceptOrigins(norm, bools, config, value);
            && (accepted.Some? <==> parsed.Some? && !(parsed == Some(AnyOrigin) && on))
            && (accepted.Some? ==> ParseOrigins(norm, accepted.value) == parsed)
    ensures var strict := bools.strict(value);
            var raw := Get(config, CORS_ALLOWED_ORIGINS_KEY);
            var stored := if raw.Some? then ParseOrigins(norm, raw.value) else Some(NoOrigin);
            var accepted := AcceptCredentials(norm, bools, config, value);
            && (accepted.Some? <==>
                  strict.Some? && stored.Some? && !(stored == Some(AnyOrigin) && strict == Some("true")))
            && (accepted.Some? ==> accepted == strict)
  {
    if ParseOrigins(norm, value).Some? { PrintParsesBack(norm, value); }
    assert Trim("") == [];
  }

  /** Whatever is stored, by any route, the effective policy never pairs the wildcard with
      credentials: a stored pair is denied altogether, anything else is taken as stored, and a
      disabled policy allows nothing. */
  lemma EffectivePolicyIsSafe(norm: Normalizer, parseAge: string -> Option<nat>, config: Config)
    ensures var policy := RuntimeCorsPolicy(norm, parseAge, config);
            && !(policy.origins.AnyOrigin? && policy.allowCredentials)
            && (!policy.enabled ==> policy.origins == NoOrigin && !policy.allowCredentials)
            && (policy.enabled ==>
                  if StoredOrigins(norm, config).AnyOrigin? && StoredCredentials(config)
                  then policy.origins == NoOrigin && !policy.allowCredentials
                  else policy.origins == StoredOrigins(norm, config)
                       && policy.allowCredentials == StoredCredentials(config))
  {
  }
}
