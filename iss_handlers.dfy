/**
  * Two HTTP handlers of the Rust service: `space_refresh`, which refreshes the
  * cached feeds named in its `src` parameter, and `iss_trend`, which compares
  * the two latest ISS positions.
  */
module IssHandlers {
  import opened Wrappers
  import opened Text
  import opened Seqs
  import opened Json

  // ---------------------------------------------------------- space_refresh

  const DefaultSources: string := "apod,neo,flr,cme,spacex"
  const KnownSources: seq<string> := ["apod", "neo", "flr", "cme", "spacex"]

  /** `x.trim().to_lowercase()` for one token of the list. */
  function Normalize(token: string): (r: string)
    ensures var i := TrimStart(token);
      && i + |r| <= |token| && r == AsciiLower(token[i..i + |r|])
      && (forall k | 0 <= k < i :: IsWhitespace(token[k]))
      && (forall k | i + |r| <= k < |token| :: IsWhitespace(token[k]))
    ensures forall c | c in r :: !IsAsciiUpper(c)
    ensures r == [] || (!IsWhitespace(r[0]) && !IsWhitespace(r[|r| - 1]))
  {
    var t := Trim(token);
    AsciiLowerEnds(t);
    AsciiLower(t)
  }

  /** The normalised tokens of a comma-separated list, in order. */
  function Tokens(list: string): (ts: seq<string>)
    ensures |ts| == |Split(list, ',')|
    ensures forall i | 0 <= i < |ts| :: ts[i] == Normalize(Split(list, ',')[i])
  {
    var parts := Split(list, ',');
    seq(|parts|, i requires 0 <= i < |parts| => Normalize(parts[i]))
  }

  predicate IsKnown(token: string) {
    token in KnownSources
  }

  /** The fetch a source triggers; FLR and CME share one DONKI fetch. */
  datatype Fetcher = FetchApod | FetchNeoFeed | FetchDonki | FetchSpacexNext

  function FetcherFor(name: string): Fetcher
    requires IsKnown(name)
  {
    if name == "apod" then FetchApod
    else if name == "neo" then FetchNeoFeed
    else if name == "flr" || name == "cme" then FetchDonki
    else FetchSpacexNext
  }

  /** The recognised tokens, in order, as the loop collects them. */
  function KnownTokens(tokens: seq<string>): (r: seq<string>)
    ensures forall i | 0 <= i < |r| :: IsKnown(r[i])
  {
    if tokens == [] then []
    else
      var last := tokens[|tokens| - 1];
      KnownTokens(tokens[..|tokens| - 1]) + (if IsKnown(last) then [last] else [])
  }

  /** Collecting the recognised tokens one by one is filtering the token list. */
  lemma {:induction false} KnownTokensFilter(tokens: seq<string>)
    ensures KnownTokens(tokens) == Filter(IsKnown, tokens)
  {
    if tokens != [] {
      KnownTokensFilter(tokens[..|tokens| - 1]);
      FilterLast(IsKnown, tokens);
    }
  }

  /**
    * The loop of `space_refresh` over the normalised tokens: each recognised
    * name starts its fetch and is recorded. A fetch's own failure is discarded,
    * so it does not affect either list.
    */
  method RefreshEach(tokens: seq<string>) returns (refreshed: seq<string>, calls: seq<Fetcher>)
    ensures refreshed == KnownTokens(tokens) == Filter(IsKnown, tokens)
    ensures |calls| == |refreshed| && forall i | 0 <= i < |calls| :: calls[i] == FetcherFor(refreshed[i])
  {
    refreshed, calls := [], [];
    var i := 0;
    while i < |tokens|
      invariant 0 <= i <= |tokens|
      invariant refreshed == KnownTokens(tokens[..i])
      invariant |calls| == |refreshed| && forall k | 0 <= k < |calls| :: calls[k] == FetcherFor(refreshed[k])
    {
      var s := tokens[i];
      assert tokens[..i + 1][..i] == tokens[..i];
      if IsKnown(s) {
        calls := calls + [FetcherFor(s)];
        refreshed := refreshed + [s];
      }
      i := i + 1;
    }
    assert tokens[..i] == tokens;
    KnownTokensFilter(tokens);
  }

  /** `space_refresh`: `refreshed` is the reply's list and `calls` the fetches started. */
  method SpaceRefresh(src: Option<string>) returns (refreshed: seq<string>, calls: seq<Fetcher>)
    ensures refreshed == KnownTokens(Tokens(src.GetOr(DefaultSources)))
    ensures |calls| == |refreshed| && forall i | 0 <= i < |calls| :: calls[i] == FetcherFor(refreshed[i])
  {
    var list := if src.Some? then src.value else DefaultSources;
    refreshed, calls := RefreshEach(Tokens(list));
  }

  /**
    * The reply lists the recognised tokens only, each as often as it was given
    * and in the given order.
    */
  lemma RefreshedTokens(tokens: seq<string>)
    ensures var refreshed := KnownTokens(tokens);
      && Subsequence(refreshed, tokens)
      && (forall t | t in refreshed :: t in KnownSources)
      && (forall t | t in KnownSources :: multiset(refreshed)[t] == multiset(tokens)[t])
  {
    KnownTokensFilter(tokens);
    FilterIsSubsequence(IsKnown, tokens);
    var refreshed := Filter(IsKnown, tokens);
    forall t | t in KnownSources ensures multiset(refreshed)[t] == multiset(tokens)[t] {
      FilterCounts(IsKnown, tokens, t);
    }
  }

  /** The default list names the five sources, in order. */
  lemma DefaultSplit()
    ensures Split(DefaultSources, ',') == KnownSources
  {
    assert Join(KnownSources, ',') == DefaultSources;
    JoinSplit(KnownSources, ',');
  }

  /** The source names are already normalised. */
  lemma KnownNormalized(i: nat)
    requires i < |KnownSources|
    ensures Normalize(KnownSources[i]) == KnownSources[i]
  {
    var s := KnownSources[i];
    TrimUntouched(s);
    AsciiLowerUntouched(s);
  }

  /** Recognised tokens are all kept. */
  lemma {:induction false} KnownTokensAll(tokens: seq<string>)
    requires forall i | 0 <= i < |tokens| :: IsKnown(tokens[i])
    ensures KnownTokens(tokens) == tokens
  {
    if tokens != [] {
      KnownTokensAll(tokens[..|tokens| - 1]);
    }
  }

  /** The fetches the default list starts: the DONKI fetch runs twice, once for "flr" and once for "cme". */
  const DefaultFetches: seq<Fetcher> := [FetchApod, FetchNeoFeed, FetchDonki, FetchDonki, FetchSpacexNext]

  /** The fetch each source name starts, in the order of the default list. */
  lemma DefaultFetchers(i: nat)
    requires i < |KnownSources|
    ensures FetcherFor(KnownSources[i]) == DefaultFetches[i]
  {
  }

  /** With no `src` every source is refreshed once, in the order of the default list. */
  lemma DefaultRefreshesAll()
    ensures KnownTokens(Tokens(DefaultSources)) == KnownSources
  {
    var ts := Tokens(DefaultSources);
    DefaultSplit();
    forall i | 0 <= i < |ts| ensures ts[i] == KnownSources[i] {
      KnownNormalized(i);
    }
    assert ts == KnownSources;
    KnownTokensAll(ts);
  }

  // --------------------------------------------------------------- iss_trend

  /** A stored ISS reading: when it was fetched (microseconds since the epoch) and the payload. */
  datatype TrendRow = TrendRow(fetchedAt: int, payload: Json)

  /** Real numbers stand in for the 64-bit floating-point fields. */
  datatype Trend = Trend(
    movement: bool,
    deltaKm: real,
    dtSec: real,
    velocityKmh: Option<real>,
    fromTime: Option<int>,
    toTime: Option<int>,
    fromLat: Option<real>,
    fromLon: Option<real>,
    toLat: Option<real>,
    toLon: Option<real>)

  /** serde_json's `v[key]`: the field of an object, `null` when it is missing or `v` is not an object. */
  function Member(v: Json, key: string): (r: Json)
    ensures Get(v, key).None? ==> r == Null
  {
    Get(v, key).GetOr(Null)
  }

  /** `TimeDelta::num_milliseconds` of a difference in microseconds: whole milliseconds, rounded toward zero. */
  function MillisToward0(micros: int): (ms: int)
    ensures micros >= 0 ==> 0 <= ms && ms * 1000 <= micros < (ms + 1) * 1000
    ensures micros < 0 ==> ms <= 0 && (ms - 1) * 1000 < micros <= ms * 1000
  {
    if micros >= 0 then micros / 1000 else -((-micros) / 1000)
  }

  /**
    * `iss_trend` on the rows the database returned, newest first. `num` reads a
    * coordinate or speed and `haversine` measures the distance in kilometres;
    * both are floating-point code and enter as parameters.
    */
  function IssTrend(rows: Result<seq<TrendRow>, string>, num: Json -> Option<real>,
                    haversine: (real, real, real, real) -> real): (r: Result<Trend, string>)
    ensures rows.Err? ==> r == Err(rows.error)
    ensures rows.Ok? && |rows.value| < 2 ==>
      && r.Ok? && !r.value.movement
      && r.value.deltaKm == 0.0 && r.value.dtSec == 0.0 && r.value.velocityKmh.None?
      && r.value.fromTime.None? && r.value.toTime.None?
      && r.value.fromLat.None? && r.value.fromLon.None? && r.value.toLat.None? && r.value.toLon.None?
    ensures rows.Ok? && |rows.value| >= 2 ==>
      && r.Ok?
      && r.value.fromTime == Some(rows.value[1].fetchedAt) && r.value.toTime == Some(rows.value[0].fetchedAt)
      && r.value.dtSec == MillisToward0(rows.value[0].fetchedAt - rows.value[1].fetchedAt) as real / 1000.0
    ensures rows.Ok? && |rows.value| >= 2 ==>
      var p1, p2 := rows.value[1].payload, rows.value[0].payload;
      && r.Ok?
      && r.value.fromLat == num(Member(p1, "latitude")) && r.value.fromLon == num(Member(p1, "longitude"))
      && r.value.toLat == num(Member(p2, "latitude")) && r.value.toLon == num(Member(p2, "longitude"))
      && r.value.velocityKmh == num(Member(p2, "velocity"))
    ensures r.Ok? && r.value.fromLat.Some? && r.value.fromLon.Some? && r.value.toLat.Some? && r.value.toLon.Some? ==>
      && r.value.deltaKm == haversine(r.value.fromLat.value, r.value.fromLon.value, r.value.toLat.value, r.value.toLon.value)
      && (r.value.movement <==> r.value.deltaKm > 0.1)
    ensures r.Ok? && (r.value.fromLat.None? || r.value.fromLon.None? || r.value.toLat.None? || r.value.toLon.None?) ==>
      !r.value.movement && r.value.deltaKm == 0.0
    ensures r.Ok? && r.value.movement ==> r.value.deltaKm > 0.1
  {
    if rows.Err? then Err(rows.error)
    else if |rows.value| < 2 then
      Ok(Trend(false, 0.0, 0.0, None, None, None, None, None, None, None))
    else
      var (t2, p2) := (rows.value[0].fetchedAt, rows.value[0].payload);
      var (t1, p1) := (rows.value[1].fetchedAt, rows.value[1].payload);
      var lat1, lon1 := num(Member(p1, "latitude")), num(Member(p1, "longitude"));
      var lat2, lon2 := num(Member(p2, "latitude")), num(Member(p2, "longitude"));
      var v2 := num(Member(p2, "velocity"));
      var deltaKm := if lat1.Some? && lon1.Some? && lat2.Some? && lon2.Some?
        then haversine(lat1.value, lon1.value, lat2.value, lon2.value) else 0.0;
      var movement := lat1.Some? && lon1.Some? && lat2.Some? && lon2.Some? && deltaKm > 0.1;
      var dtSec := MillisToward0(t2 - t1) as real / 1000.0;
      Ok(Trend(movement, deltaKm, dtSec, v2, Some(t1), Some(t2), lat1, lon1, lat2, lon2))
  }
}
