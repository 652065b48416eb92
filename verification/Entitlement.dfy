/** Entitlement authority over time: the offline-grace cache of the token verifier
    (packages/entitlement/src/client.ts), the server-capability cache, and the resolver
    that merges the two (packages/cli/src/entitlement.ts). */
module Entitlement {
  import opened Options

  const SECOND_MS: int := 1000
  const DAY_MS: int := 24 * 60 * 60 * SECOND_MS
  const OFFLINE_GRACE_MS: int := 7 * DAY_MS
  const ABSOLUTE_MAX_STALE_MS: int := 7 * DAY_MS
  const DEFAULT_TTL_SECONDS: int := 24 * 60 * 60
  const MAX_CLOCK_SKEW_SECONDS: int := 5 * 60
  const MAX_LIFETIME_SECONDS: int := 90 * 24 * 60 * 60

  const FREE_CAPABILITIES: seq<string> := [
    "scan", "scan_ai_provenance", "scan_slopsquat", "scan_secrets_local", "scan_deps",
    "scan_git_history", "mcp_server", "pre_commit_hook", "html_json_report"]

  // ---------------------------------------------------------------------
  // Tokens
  // ---------------------------------------------------------------------

  /** The plan and capability projection that only schema version 2 carries. */
  datatype Catalog = Catalog(plan: string, capabilities: seq<string>)

  datatype Claims = Claims(
    keyHash: string,
    iat: int,
    exp: int,
    catalog: Option<Catalog>,
    fieldsWellFormed: bool)

  /** The two things the client takes on trust: which claims a pinned key vouches for
      (none for a malformed or unsigned token), and SHA-256. */
  datatype World = World(opens: string -> Option<Claims>, sha256: string -> string)

  function NowSeconds(now: int): int {
    now / SECOND_MS
  }

  /** `validateClaims`: the shape tests as one flag, the timestamp tests spelled out. */
  predicate ClaimsValid(c: Claims, nowSec: int) {
    && c.fieldsWellFormed
    && c.exp > c.iat
    && c.iat <= nowSec + MAX_CLOCK_SKEW_SECONDS
    && c.exp - nowSec <= MAX_LIFETIME_SECONDS
  }

  /** The one-slot "last verified" cache. */
  datatype GraceEntry = GraceEntry(token: string, lastVerifiedAt: int)

  datatype VerifyResult =
    | Invalid
    | Expired(claims: Claims)
    | Valid(claims: Claims, inOfflineGrace: bool)

  /** Whether the cache files can be read and written on this occasion. */
  datatype Files = Files(readable: bool, writable: bool)

  /** `verifyEntitlement`, with the cache as it leaves it. */
  function Verify(w: World, token: string, now: int, cache: Option<GraceEntry>, files: Files)
    : (r: (VerifyResult, Option<GraceEntry>))
  {
    var vouched := w.opens(token);
    if vouched.None? then (Invalid, cache)
    else
      var claims, nowSec := vouched.value, NowSeconds(now);
      if !ClaimsValid(claims, nowSec) then (Invalid, cache)
      else if claims.exp >= nowSec then
        (Valid(claims, false), if files.writable then Some(GraceEntry(token, now)) else cache)
      else if files.readable && cache.Some? && cache.value.token == token
           && now - cache.value.lastVerifiedAt < OFFLINE_GRACE_MS then
        (Valid(claims, true), cache)
      else (Expired(claims), cache)
  }

  // ---------------------------------------------------------------------
  // Server capabilities and their cache
  // ---------------------------------------------------------------------

  datatype Response = Response(
    plan: string,
    realPlan: Option<string>,
    capabilities: seq<string>,
    cacheTtlSeconds: nat,
    simulated: bool,
    active: bool)

  /** What a cached answer is bound to: the API origin and the license key. */
  datatype Scope = Scope(apiUrl: string, licenseKey: Option<string>)

  datatype CapsEntry = CapsEntry(response: Response, scope: Scope, fetchedAt: int, expiresAt: int, asPlan: Option<string>)

  datatype Source = Rest | Cache | SignedToken | Free

  datatype Loaded = Loaded(response: Response, fetchedAt: int, source: Source, stale: bool)

  datatype Credentials = Credentials(apiUrl: Option<string>, licenseKey: Option<string>, token: Option<string>)

  datatype LoadOptions = LoadOptions(forceRefresh: bool, asPlan: Option<string>)

  const FREE_FALLBACK: Loaded :=
    Loaded(Response("free", None, FREE_CAPABILITIES, 60, false, true), 0, Free, false)

  /** The cached answer this request may use at all. */
  function Usable(cache: Option<CapsEntry>, scope: Scope, now: int, files: Files): (r: Option<CapsEntry>) {
    if files.readable && cache.Some? && cache.value.scope == scope
       && 0 <= now - cache.value.fetchedAt < ABSOLUTE_MAX_STALE_MS
    then cache else None
  }

  /** `loadCapabilities`; `server` is what the network gave: nothing, or a parsed response. */
  function Load(now: int, creds: Credentials, opts: LoadOptions, server: Option<Response>,
                cache: Option<CapsEntry>, files: Files): (r: (Loaded, Option<CapsEntry>))
  {
    if creds.apiUrl.None? then (FREE_FALLBACK, cache)
    else
      var scope := Scope(creds.apiUrl.value, creds.licenseKey);
      var cached := Usable(cache, scope, now, files);
      var matching := cached.Some? && cached.value.asPlan == opts.asPlan;
      if !opts.forceRefresh && matching && cached.value.expiresAt > now then
        (Loaded(cached.value.response, cached.value.fetchedAt, Cache, false), cache)
      else if server.None? then
        if matching then (Loaded(cached.value.response, cached.value.fetchedAt, Cache, true), cache)
        else (FREE_FALLBACK, cache)
      else
        var ttl := if server.value.cacheTtlSeconds < 60 then 60 else server.value.cacheTtlSeconds;
        var entry := CapsEntry(server.value, scope, now, now + ttl * SECOND_MS, opts.asPlan);
        (Loaded(server.value, now, Rest, false), if files.writable then Some(entry) else cache)
  }

  // ---------------------------------------------------------------------
  // Resolution
  // ---------------------------------------------------------------------

  datatype License = License(tier: string, issuedAt: int, expiresAt: int, inOfflineGrace: bool, catalog: Option<Catalog>)

  const TIERS: seq<string> := ["free", "pro", "team", "studio", "enterprise", "founder"]

  /** The canonical tier: unknown plans grant nothing. */
  function NormalizeTier(plan: string): (tier: string)
    ensures tier in TIERS && (plan in TIERS ==> tier == plan)
    ensures plan == "compliance" ==> tier == "enterprise"
    ensures plan !in TIERS && plan != "compliance" ==> tier == "free"
  {
    if plan == "compliance" then "enterprise"
    else if plan in ["free", "pro", "team", "studio", "enterprise", "founder"] then plan
    else "free"
  }

  /** `getVerifiedLicense` */
  function VerifiedLicense(w: World, creds: Credentials, now: int, cache: Option<GraceEntry>, files: Files)
    : (r: (Option<License>, Option<GraceEntry>))
  {
    if creds.token.None? || creds.licenseKey.None? then (None, cache)
    else
      var (result, after) := Verify(w, creds.token.value, now, cache, files);
      if !result.Valid? || result.claims.keyHash != w.sha256(creds.licenseKey.value) then (None, after)
      else
        var c := result.claims;
        (Some(License(if c.catalog.Some? then NormalizeTier(c.catalog.value.plan) else "free",
                      c.iat * SECOND_MS, c.exp * SECOND_MS, result.inOfflineGrace, c.catalog)), after)
  }

  datatype Resolved = Resolved(plan: string, capabilities: seq<string>, source: Source, stale: bool, license: Option<License>)

  function FromLicense(l: License): Resolved
    requires l.catalog.Some?
  {
    Resolved(l.tier, l.catalog.value.capabilities, SignedToken, true, Some(l))
  }

  /** The merge at the end of `resolveEntitlement`. */
  function Merge(caps: Loaded, license: Option<License>): (r: Resolved) {
    var matching := (plan: string) => if license.Some? && license.value.tier == plan then license else None;
    match caps.source
    case Rest =>
      var plan := if caps.response.active then NormalizeTier(caps.response.plan) else "free";
      Resolved(plan, if caps.response.active then caps.response.capabilities else FREE_CAPABILITIES, Rest, false,
               if caps.response.active then matching(plan) else None)
    case Cache =>
      if !caps.response.active then Resolved("free", FREE_CAPABILITIES, Cache, caps.stale, None)
      else if license.Some? && license.value.catalog.Some? && license.value.issuedAt > caps.fetchedAt then
        FromLicense(license.value)
      else
        var plan := NormalizeTier(caps.response.plan);
        Resolved(plan, caps.response.capabilities, Cache, caps.stale, matching(plan))
    case _ =>
      if license.Some? && license.value.catalog.Some? then FromLicense(license.value)
      else Resolved("free", FREE_CAPABILITIES, Free, false, license)
  }

  /** The two cache files. */
  datatype State = State(caps: Option<CapsEntry>, grace: Option<GraceEntry>)

  /** One call of the resolver: the two clock readings it takes, and everything the outside
      world decides. */
  datatype Step = Step(
    capsNow: int,
    licenseNow: int,
    creds: Credentials,
    opts: LoadOptions,
    server: Option<Response>,
    capsFiles: Files,
    graceFiles: Files)

  /** `resolveEntitlement` */
  function Resolve(w: World, s: State, step: Step): (r: (Resolved, State)) {
    var (caps, capsAfter) := Load(step.capsNow, step.creds, step.opts, step.server, s.caps, step.capsFiles);
    var (license, graceAfter) := VerifiedLicense(w, step.creds, step.licenseNow, s.grace, step.graceFiles);
    (Merge(caps, license), State(capsAfter, graceAfter))
  }

  // ---------------------------------------------------------------------
  // What a call answers, told from the caches and the inputs
  // ---------------------------------------------------------------------

  const SEVEN_DAYS_MS: int := 604_800_000

  /** A cached answer may be used for this call: same origin, license and simulated plan, and
      fetched in the last seven days. */
  predicate Serves(e: CapsEntry, step: Step) {
    && step.capsFiles.readable
    && step.creds.apiUrl == Some(e.scope.apiUrl) && step.creds.licenseKey == e.scope.licenseKey
    && step.opts.asPlan == e.asPlan
    && e.fetchedAt <= step.capsNow < e.fetchedAt + SEVEN_DAYS_MS
  }

  /** The server is asked, unless a usable answer has not expired and no refresh is forced. */
  predicate Asks(cache: Option<CapsEntry>, step: Step) {
    && step.creds.apiUrl.Some?
    && !(cache.Some? && Serves(cache.value, step) && step.capsNow < cache.value.expiresAt && !step.opts.forceRefresh)
  }

  predicate Answered(cache: Option<CapsEntry>, step: Step) {
    Asks(cache, step) && step.server.Some?
  }

  /** The entry an answered call writes. */
  function Kept(step: Step): CapsEntry
    requires step.creds.apiUrl.Some? && step.server.Some?
  {
    var ttl := step.server.value.cacheTtlSeconds;
    CapsEntry(step.server.value, Scope(step.creds.apiUrl.value, step.creds.licenseKey), step.capsNow,
              step.capsNow + (if ttl > 60 then ttl * 1000 else 60_000), step.opts.asPlan)
  }

  /** The token presented with a license key is genuine and plausible at this time: issued at
      most five minutes ahead, expiring at most ninety days ahead. */
  predicate Plausible(c: Claims, now: int) {
    && c.fieldsWellFormed && c.iat < c.exp
    && (c.iat - 300) * 1000 <= now && (c.exp - 7_776_000) * 1000 <= now
  }

  predicate Presents(w: World, step: Step) {
    && step.creds.token.Some? && step.creds.licenseKey.Some?
    && w.opens(step.creds.token.value).Some?
    && Plausible(w.opens(step.creds.token.value).value, step.licenseNow)
  }

  /** In the last second it names the token is still unexpired. */
  predicate Unexpired(c: Claims, now: int) {
    now < (c.exp + 1) * 1000
  }

  predicate VerifiesFresh(w: World, step: Step) {
    Presents(w, step) && Unexpired(w.opens(step.creds.token.value).value, step.licenseNow)
  }

  /** The same token was verified in the last seven days, as far as the grace file knows. */
  predicate Graced(grace: Option<GraceEntry>, step: Step) {
    && step.graceFiles.readable && grace.Some? && step.creds.token == Some(grace.value.token)
    && step.licenseNow < grace.value.lastVerifiedAt + SEVEN_DAYS_MS
  }

  /** The claims that count for this call: of a token for this license key, unexpired or in
      grace. */
  function Accepted(w: World, grace: Option<GraceEntry>, step: Step): Option<Claims> {
    if Presents(w, step) && (VerifiesFresh(w, step) || Graced(grace, step))
       && w.opens(step.creds.token.value).value.keyHash == w.sha256(step.creds.licenseKey.value)
    then w.opens(step.creds.token.value) else None
  }

  /** The tier a license of these claims has. */
  function TierOf(c: Claims): string {
    if c.catalog.Some? then NormalizeTier(c.catalog.value.plan) else "free"
  }

  /** What an answer grants: all of it when active, nothing beyond Free otherwise; the license is
      shown beside an active answer that names its tier. */
  predicate SaysAnswer(answer: Response, claims: Option<Claims>, r: Resolved) {
    if answer.active then
      && r.plan == NormalizeTier(answer.plan) && r.capabilities == answer.capabilities
      && r.license.Some? == (claims.Some? && TierOf(claims.value) == r.plan)
    else r.plan == "free" && r.capabilities == FREE_CAPABILITIES && r.license == None
  }

  /** A server's answer is final. */
  predicate SaysServer(answer: Response, claims: Option<Claims>, r: Resolved) {
    r.source == Rest && !r.stale && SaysAnswer(answer, claims, r)
  }

  /** The claims carry a capability list. */
  predicate Projects(claims: Option<Claims>) {
    claims.Some? && claims.value.catalog.Some?
  }

  predicate SaysClaims(c: Claims, r: Resolved)
    requires c.catalog.Some?
  {
    && r.source == SignedToken && r.stale
    && r.plan == NormalizeTier(c.catalog.value.plan) && r.capabilities == c.catalog.value.capabilities
  }

  /** A cached answer counts unless a token with a capability list was issued after it. */
  predicate SaysCache(e: CapsEntry, claims: Option<Claims>, asked: bool, r: Resolved) {
    if e.response.active && Projects(claims) && claims.value.iat * 1000 > e.fetchedAt then SaysClaims(claims.value, r)
    else r.source == Cache && r.stale == asked && SaysAnswer(e.response, claims, r)
  }

  /** Without an answer, only a token with a capability list grants more than Free. */
  predicate SaysToken(claims: Option<Claims>, r: Resolved) {
    if Projects(claims) then SaysClaims(claims.value, r)
    else r.source == Free && !r.stale && r.plan == "free" && r.capabilities == FREE_CAPABILITIES
  }

  /** A license that is reported is that of the accepted claims; it is always reported when no
      answer counted. */
  predicate SaysLicense(claims: Option<Claims>, step: Step, r: Resolved) {
    && (r.source == SignedToken || r.source == Free ==> r.license.Some? == claims.Some?)
    && (r.license.Some? ==> claims.Some? && ShowsClaims(claims.value, step, r.license.value))
  }

  predicate ShowsClaims(c: Claims, step: Step, l: License) {
    && l.catalog == c.catalog && l.issuedAt == c.iat * 1000 && l.expiresAt == c.exp * 1000
    && l.inOfflineGrace == !Unexpired(c, step.licenseNow)
    && l.tier == TierOf(c)
  }

  lemma LoadedFrom(cache: Option<CapsEntry>, step: Step)
    ensures var (loaded, after) := Load(step.capsNow, step.creds, step.opts, step.server, cache, step.capsFiles);
            && after == (if Answered(cache, step) && step.capsFiles.writable then Some(Kept(step)) else cache)
            && if Answered(cache, step) then loaded == Loaded(step.server.value, step.capsNow, Rest, false)
               else if cache.Some? && Serves(cache.value, step) then
                 loaded == Loaded(cache.value.response, cache.value.fetchedAt, Cache, Asks(cache, step))
               else loaded == FREE_FALLBACK
  {
  }

  /** Seconds and milliseconds: the tests on whole seconds, on the clock reading itself. */
  lemma InMilliseconds(c: Claims, now: int)
    ensures ClaimsValid(c, NowSeconds(now)) <==> Plausible(c, now)
    ensures c.exp >= NowSeconds(now) <==> Unexpired(c, now)
  {
  }

  lemma LicensedBy(w: World, grace: Option<GraceEntry>, step: Step)
    ensures var (license, after) := VerifiedLicense(w, step.creds, step.licenseNow, grace, step.graceFiles);
            var claims := Accepted(w, grace, step);
            && license.Some? == claims.Some?
            && (license.Some? ==> ShowsClaims(claims.value, step, license.value))
            && after == if VerifiesFresh(w, step) && step.graceFiles.writable
                        then Some(GraceEntry(step.creds.token.value, step.licenseNow)) else grace
  {
    if step.creds.token.Some? && w.opens(step.creds.token.value).Some? {
      InMilliseconds(w.opens(step.creds.token.value).value, step.licenseNow);
    }
  }

  /** What a call answers, in terms of the caches before it and its inputs. */
  predicate Says(w: World, cache: Option<CapsEntry>, grace: Option<GraceEntry>, step: Step, r: Resolved) {
    SaysFrom(cache, Accepted(w, grace, step), step, r) && SaysLicense(Accepted(w, grace, step), step, r)
  }

  predicate SaysFrom(cache: Option<CapsEntry>, claims: Option<Claims>, step: Step, r: Resolved) {
    if Answered(cache, step) then SaysServer(step.server.value, claims, r)
    else if cache.Some? && Serves(cache.value, step) then SaysCache(cache.value, claims, Asks(cache, step), r)
    else SaysToken(claims, r)
  }

  /** Loading, verifying and merging say what they should. */
  lemma Answers(w: World, s: State, step: Step)
    ensures Says(w, s.caps, s.grace, step, Resolve(w, s, step).0)
  {
    LoadedFrom(s.caps, step);
    LicensedBy(w, s.grace, step);
  }

  lemma CachesAfter(w: World, s: State, step: Step)
    ensures var after := Resolve(w, s, step).1;
            && after.caps == (if Answered(s.caps, step) && step.capsFiles.writable then Some(Kept(step)) else s.caps)
            && after.grace == if VerifiesFresh(w, step) && step.graceFiles.writable
                              then Some(GraceEntry(step.creds.token.value, step.licenseNow)) else s.grace
  {
    LoadedFrom(s.caps, step);
    LicensedBy(w, s.grace, step);
  }

  // ---------------------------------------------------------------------
  // The client object
  // ---------------------------------------------------------------------

  /** The resolver with its two cache files.  The history holds the calls it has answered. */
  class Client {
    var caps: Option<CapsEntry>
    var grace: Option<GraceEntry>
    const world: World
    ghost var history: seq<Step>

    /** The caches are those the calls so far leave. */
    ghost predicate Valid()
      reads this
    {
      State(caps, grace) == After(world, history)
    }

    constructor (world: World)
      ensures Valid() && this.world == world && caps == None && grace == None && history == []
    {
      this.world := world;
      caps, grace, history := None, None, [];
    }

    method VerifyEntitlement(token: string, now: int, files: Files) returns (result: VerifyResult)
      modifies this`grace
      ensures (result, grace) == Verify(world, token, now, old(grace), files)
    {
      var vouched := world.opens(token);
      if vouched.None? {
        return Invalid;
      }
      var claims, nowSec := vouched.value, NowSeconds(now);
      if !ClaimsValid(claims, nowSec) {
        return Invalid;
      }
      if claims.exp >= nowSec {
        if files.writable { grace := Some(GraceEntry(token, now)); }
        return VerifyResult.Valid(claims, false);
      }
      var cache := if files.readable then grace else None;
      if cache.Some? && cache.value.token == token && now - cache.value.lastVerifiedAt < OFFLINE_GRACE_MS {
        return VerifyResult.Valid(claims, true);
      }
      return Expired(claims);
    }

    method LoadCapabilities(now: int, creds: Credentials, opts: LoadOptions, server: Option<Response>, files: Files)
      returns (loaded: Loaded)
      modifies this`caps
      ensures (loaded, caps) == Load(now, creds, opts, server, old(caps), files)
    {
      if creds.apiUrl.None? {
        return FREE_FALLBACK;
      }
      var scope := Scope(creds.apiUrl.value, creds.licenseKey);
      var cached := Usable(caps, scope, now, files);
      var cacheIsFresh := cached.Some? && cached.value.expiresAt > now && cached.value.asPlan == opts.asPlan;
      if !opts.forceRefresh && cacheIsFresh {
        return Loaded(cached.value.response, cached.value.fetchedAt, Cache, false);
      }
      if server.None? {
        if cached.Some? && cached.value.asPlan == opts.asPlan {
          var ageMs := now - cached.value.fetchedAt;
          if ageMs < ABSOLUTE_MAX_STALE_MS {
            return Loaded(cached.value.response, cached.value.fetchedAt, Cache, true);
          }
        }
        return FREE_FALLBACK;
      }
      var ttlMs := (if server.value.cacheTtlSeconds < 60 then 60 else server.value.cacheTtlSeconds) * SECOND_MS;
      if files.writable {
        caps := Some(CapsEntry(server.value, scope, now, now + ttlMs, opts.asPlan));
      }
      return Loaded(server.value, now, Rest, false);
    }

    /** One resolve call moves both caches as one step of the run semantics, and what it answers
        keeps the promises made about runs: offline grace is earned by an earlier call, and a
        license revoked long enough ago gives no more than the Free capabilities. */
    method ResolveEntitlement(step: Step) returns (resolved: Resolved)
      requires Valid()
      modifies this
      ensures Valid() && history == old(history) + [step]
      ensures (resolved, State(caps, grace)) == Resolve(world, State(old(caps), old(grace)), step)
      // What is answered: the server's answer, a cached one, the token's, or Free.
      ensures Says(world, old(caps), old(grace), step, resolved)
      // What is kept for later calls.
      ensures caps == if Answered(old(caps), step) && step.capsFiles.writable then Some(Kept(step)) else old(caps)
      ensures grace == if VerifiesFresh(world, step) && step.graceFiles.writable
                       then Some(GraceEntry(step.creds.token.value, step.licenseNow)) else old(grace)
      // An answer that an earlier call stored is given again offline, until something replaces it.
      ensures forall j: nat :: LastStored(world, old(history), j) && ServesAgain(old(history)[j], step) ==>
                SaysCache(Kept(old(history)[j]), Accepted(world, old(grace), step), Asks(old(caps), step), resolved)
      ensures resolved.license.Some? && resolved.license.value.inOfflineGrace ==>
                step.creds.token.Some? && EarnedGrace(world, old(history), step.creds.token.value, step.licenseNow)
      ensures forall license: string, T: int :: RevokedFrom(world, history, license, T) && AfterLatency(step, license, T) ==>
                AtMostFree(resolved.capabilities)
    {
      KeepsPromises(world, history, step);
      Answers(world, State(caps, grace), step);
      CachesAfter(world, State(caps, grace), step);
      AnswersAgain(world, history, step);
      history := history + [step];
      resolved := LoadAndMerge(step);
    }

    /** The two halves of a call and their merge. */
    method LoadAndMerge(step: Step) returns (resolved: Resolved)
      modifies this`caps, this`grace
      ensures (resolved, State(caps, grace)) == Resolve(world, State(old(caps), old(grace)), step)
    {
      var loaded := LoadCapabilities(step.capsNow, step.creds, step.opts, step.server, step.capsFiles);
      var license: Option<License> := None;
      if step.creds.token.Some? && step.creds.licenseKey.Some? {
        var result := VerifyEntitlement(step.creds.token.value, step.licenseNow, step.graceFiles);
        if result.Valid? && result.claims.keyHash == world.sha256(step.creds.licenseKey.value) {
          var c := result.claims;
          license := Some(License(if c.catalog.Some? then NormalizeTier(c.catalog.value.plan) else "free",
                                  c.iat * SECOND_MS, c.exp * SECOND_MS, result.inOfflineGrace, c.catalog));
        }
      }
      resolved := Merge(loaded, license);
    }
  }

  // ---------------------------------------------------------------------
  // Runs
  // ---------------------------------------------------------------------

  const EMPTY: State := State(None, None)

  /** The caches after a run of resolver calls from a fresh installation. */
  function After(w: World, run: seq<Step>): State
    decreases |run|
  {
    if run == [] then EMPTY
    else Resolve(w, After(w, run[..|run| - 1]), run[|run| - 1]).1
  }

  /** What call `i` of the run returned. */
  function ResultAt(w: World, run: seq<Step>, i: nat): Resolved
    requires i < |run|
  {
    Resolve(w, After(w, run[..i]), run[i]).0
  }

  lemma RunSnoc(w: World, run: seq<Step>, step: Step)
    ensures After(w, run + [step]) == Resolve(w, After(w, run), step).1
  {
    assert (run + [step])[..|run|] == run;
  }

  // --- What the caches hold ----------------------------------------------

  /** Call `j` stored the server's answer. */
  ghost predicate Stores(w: World, run: seq<Step>, j: nat) {
    j < |run| && Answered(After(w, run[..j]).caps, run[j]) && run[j].capsFiles.writable
  }

  ghost predicate LastStored(w: World, run: seq<Step>, j: nat) {
    Stores(w, run, j) && forall k :: j < k < |run| ==> !Stores(w, run, k)
  }

  predicate StoresToken(w: World, step: Step) {
    VerifiesFresh(w, step) && step.graceFiles.writable
  }

  /** The later call has the scope of the earlier one, within seven days, and the server does
      not answer it. */
  predicate ServesAgain(earlier: Step, later: Step) {
    && later.server == None && later.capsFiles.readable
    && later.creds.apiUrl == earlier.creds.apiUrl && later.creds.licenseKey == earlier.creds.licenseKey
    && later.opts.asPlan == earlier.opts.asPlan
    && earlier.capsNow <= later.capsNow < earlier.capsNow + SEVEN_DAYS_MS
  }

  /** The caches after one call more. */
  lemma NextCaches(w: World, run: seq<Step>)
    requires run != []
    ensures var n := |run| - 1;
            var before, after := After(w, run[..n]), After(w, run);
            && after.caps == (if Stores(w, run, n) then Some(Kept(run[n])) else before.caps)
            && after.grace == if StoresToken(w, run[n]) then Some(GraceEntry(run[n].creds.token.value, run[n].licenseNow)) else before.grace
  {
    CachesAfter(w, After(w, run[..|run| - 1]), run[|run| - 1]);
  }

  lemma JustStored(w: World, run: seq<Step>)
    requires run != [] && Stores(w, run, |run| - 1)
    ensures After(w, run).caps == Some(Kept(run[|run| - 1]))
  {
    NextCaches(w, run);
  }

  /** The capability cache holds the last answer that was stored, whatever happened since. */
  lemma {:induction false} LastStoredStays(w: World, run: seq<Step>, j: nat)
    requires LastStored(w, run, j)
    ensures After(w, run).caps == Some(Kept(run[j]))
    decreases |run|
  {
    if j == |run| - 1 {
      JustStored(w, run);
    } else {
      LastStoredBefore(w, run, j);
      LastStoredStays(w, run[..|run| - 1], j);
    }
  }

  lemma AnswersAgain(w: World, run: seq<Step>, step: Step)
    ensures var s := After(w, run);
            forall j: nat :: LastStored(w, run, j) && ServesAgain(run[j], step) ==>
              SaysCache(Kept(run[j]), Accepted(w, s.grace, step), Asks(s.caps, step), Resolve(w, s, step).0)
  {
    var s := After(w, run);
    Answers(w, s, step);
    forall j: nat | LastStored(w, run, j) && ServesAgain(run[j], step)
      ensures SaysCache(Kept(run[j]), Accepted(w, s.grace, step), Asks(s.caps, step), Resolve(w, s, step).0)
    {
      LastStoredStays(w, run, j);
    }
  }

  lemma LastStoredBefore(w: World, run: seq<Step>, j: nat)
    requires LastStored(w, run, j) && j < |run| - 1
    ensures LastStored(w, run[..|run| - 1], j) && run[..|run| - 1][j] == run[j]
    ensures After(w, run).caps == After(w, run[..|run| - 1]).caps
  {
    var n := |run| - 1;
    NextCaches(w, run);
    assert !Stores(w, run, n);
    forall k: nat | k < n ensures Stores(w, run[..n], k) <==> Stores(w, run, k) {
      assert run[..n][..k] == run[..k];
    }
  }

  /** The grace file holds the last token that was verified unexpired, with its time: offline
      grace is given, for seven days, until another token is verified. */
  lemma {:induction false} LastVerifiedStays(w: World, run: seq<Step>, j: nat)
    requires j < |run| && StoresToken(w, run[j])
    requires forall k :: j < k < |run| ==> !StoresToken(w, run[k])
    ensures After(w, run).grace == Some(GraceEntry(run[j].creds.token.value, run[j].licenseNow))
    decreases |run|
  {
    NextCaches(w, run);
    var n := |run| - 1;
    if j < n {
      assert forall k :: 0 <= k < n ==> run[..n][k] == run[k];
      LastVerifiedStays(w, run[..n], j);
    }
  }

  // --- Offline grace -----------------------------------------------------

  /** Call `j` verified `token` with an unexpired clock reading `at`. */
  predicate VerifiedFresh(w: World, run: seq<Step>, j: nat, token: string, at: int) {
    && j < |run| && run[j].creds.token == Some(token) && run[j].licenseNow == at
    && w.opens(token).Some?
    && ClaimsValid(w.opens(token).value, NowSeconds(at))
    && NowSeconds(at) <= w.opens(token).value.exp
  }

  /** In every run the grace cache names a token that an earlier call verified while it was
      still unexpired, at the time it records. */
  lemma {:induction false} GraceCacheIsEarned(w: World, run: seq<Step>)
    ensures After(w, run).grace.Some? ==>
              exists j :: VerifiedFresh(w, run, j, After(w, run).grace.value.token, After(w, run).grace.value.lastVerifiedAt)
    decreases |run|
  {
    if run != [] {
      var n := |run| - 1;
      var before := After(w, run[..n]);
      GraceCacheIsEarned(w, run[..n]);
      var grace := After(w, run).grace;
      if grace.Some? {
        if grace == before.grace {
          var j :| VerifiedFresh(w, run[..n], j, grace.value.token, grace.value.lastVerifiedAt);
          assert VerifiedFresh(w, run, j, grace.value.token, grace.value.lastVerifiedAt);
        } else {
          assert VerifiedFresh(w, run, n, grace.value.token, grace.value.lastVerifiedAt);
        }
      }
    }
  }

  /** Some call of the run verified `token` unexpired less than seven days before `now`. */
  ghost predicate EarnedGrace(w: World, run: seq<Step>, token: string, now: int) {
    exists j, at :: VerifiedFresh(w, run, j, token, at) && now - at < OFFLINE_GRACE_MS
  }

  /** Offline grace is sound over whole runs, whatever the clock does: an expired token is
      accepted only if an earlier call verified it unexpired less than seven days before on
      the clock, and always strictly before exp + 1 s + 7 days. */
  lemma GraceIsBounded(w: World, run: seq<Step>, token: string, now: int, files: Files)
    requires Verify(w, token, now, After(w, run).grace, files).0.Valid?
    requires Verify(w, token, now, After(w, run).grace, files).0.inOfflineGrace
    ensures w.opens(token).Some?
    ensures EarnedGrace(w, run, token, now)
    ensures now < (w.opens(token).value.exp + 1) * SECOND_MS + OFFLINE_GRACE_MS
  {
    GraceCacheIsEarned(w, run);
    var entry := After(w, run).grace.value;
    var j :| VerifiedFresh(w, run, j, entry.token, entry.lastVerifiedAt);
  }

  // --- Revocation --------------------------------------------------------

  predicate AtMostFree(capabilities: seq<string>) {
    forall i :: 0 <= i < |capabilities| ==> capabilities[i] in FREE_CAPABILITIES
  }

  predicate GrantsNothing(r: Response) {
    r.active ==> AtMostFree(r.capabilities)
  }

  /** Signed by the server at some millisecond before `T`, with the default lifetime. */
  ghost predicate SignedBefore(c: Claims, T: int) {
    exists at: int :: at < T && c.iat == NowSeconds(at) && c.exp == c.iat + DEFAULT_TTL_SECONDS
  }

  /** A genuine token with a capability projection for `license`. */
  ghost predicate NamesLicense(w: World, token: string, license: string) {
    && w.opens(token).Some? && w.opens(token).value.keyHash == w.sha256(license)
    && w.opens(token).value.catalog.Some?
  }

  /** From time `T` on the server grants `license` nothing and signs nothing for it. */
  ghost predicate RevokedFrom(w: World, run: seq<Step>, license: string, T: int) {
    && (forall i :: 0 <= i < |run| && run[i].creds.licenseKey == Some(license) && run[i].server.Some? && run[i].capsNow >= T
          ==> GrantsNothing(run[i].server.value))
    && (forall token :: NamesLicense(w, token, license) ==> SignedBefore(w.opens(token).value, T))
  }

  /** Cached answers for the license were fetched before the revocation or grant nothing. */
  predicate CapsBounded(caps: Option<CapsEntry>, license: string, T: int) {
    caps.Some? && caps.value.scope.licenseKey == Some(license) ==>
      caps.value.fetchedAt < T || GrantsNothing(caps.value.response)
  }

  lemma {:induction false} CapsStayBounded(w: World, run: seq<Step>, license: string, T: int)
    requires RevokedFrom(w, run, license, T)
    ensures CapsBounded(After(w, run).caps, license, T)
    decreases |run|
  {
    if run != [] {
      RevokedEarlier(w, run, license, T);
      CapsStayBounded(w, run[..|run| - 1], license, T);
      CapsOfLast(w, run, license, T);
    }
  }

  lemma RevokedEarlier(w: World, run: seq<Step>, license: string, T: int)
    requires RevokedFrom(w, run, license, T) && run != []
    ensures RevokedFrom(w, run[..|run| - 1], license, T)
  {
    assert forall i :: 0 <= i < |run| - 1 ==> run[..|run| - 1][i] == run[i];
  }

  lemma CapsOfLast(w: World, run: seq<Step>, license: string, T: int)
    requires RevokedFrom(w, run, license, T) && run != []
    requires CapsBounded(After(w, run[..|run| - 1]).caps, license, T)
    ensures CapsBounded(After(w, run).caps, license, T)
  {
    NextCaches(w, run);
    CapsStep(After(w, run[..|run| - 1]).caps, After(w, run).caps, run[|run| - 1], license, T);
  }

  lemma CapsStep(before: Option<CapsEntry>, after: Option<CapsEntry>, step: Step, license: string, T: int)
    requires CapsBounded(before, license, T)
    requires after == before || (Answered(before, step) && after == Some(Kept(step)))
    requires step.creds.licenseKey == Some(license) && step.server.Some? && step.capsNow >= T ==> GrantsNothing(step.server.value)
    ensures CapsBounded(after, license, T)
  {
  }

  const REVOCATION_LATENCY_MS: int := 8 * DAY_MS + SECOND_MS

  /** A call for the license whose clock readings are both past the latency. */
  predicate AfterLatency(step: Step, license: string, T: int) {
    && step.creds.licenseKey == Some(license)
    && step.capsNow >= T + REVOCATION_LATENCY_MS && step.licenseNow >= T + REVOCATION_LATENCY_MS
  }

  lemma LicenseLapses(w: World, run: seq<Step>, license: string, T: int, creds: Credentials, now: int, files: Files)
    requires RevokedFrom(w, run, license, T)
    requires creds.licenseKey == Some(license) && now >= T + REVOCATION_LATENCY_MS
    ensures var l := VerifiedLicense(w, creds, now, After(w, run).grace, files).0;
            l.Some? ==> l.value.catalog.None?
  {
    var l := VerifiedLicense(w, creds, now, After(w, run).grace, files).0;
    if l.Some? && l.value.catalog.Some? {
      var token := creds.token.value;
      var c := w.opens(token).value;
      assert NamesLicense(w, token, license);
      if l.value.inOfflineGrace {
        GraceIsBounded(w, run, token, now, files);
      }
    }
  }

  /** Bounded revocation latency.  If from time T the server grants nothing and signs nothing
      for a license, then in every run, with any mix of network failures, unreadable caches and
      other licenses, no result for it at or after T + 8 days + 1 s carries more than the Free
      capabilities. */
  lemma RevocationIsBounded(w: World, run: seq<Step>, license: string, T: int, i: nat)
    requires RevokedFrom(w, run, license, T)
    requires i < |run| && AfterLatency(run[i], license, T)
    ensures AtMostFree(ResultAt(w, run, i).capabilities)
  {
    var past, step := run[..i], run[i];
    assert forall k :: 0 <= k < i ==> past[k] == run[k];
    CapsStayBounded(w, past, license, T);
    LicenseLapses(w, past, license, T, step.creds, step.licenseNow, step.graceFiles);
    var s := After(w, past);
    LicensedBy(w, s.grace, step);
    Answers(w, s, step);
    GrantsAtMostFree(s.caps, Accepted(w, s.grace, step), step, T, ResultAt(w, run, i));
  }

  /** Nothing is left to grant: neither server, cache nor token has more than Free. */
  lemma GrantsAtMostFree(cache: Option<CapsEntry>, claims: Option<Claims>, step: Step, T: int, r: Resolved)
    requires SaysFrom(cache, claims, step, r) && !Projects(claims)
    requires step.creds.licenseKey.Some? && CapsBounded(cache, step.creds.licenseKey.value, T)
    requires step.capsNow >= T + REVOCATION_LATENCY_MS
    requires step.server.Some? ==> GrantsNothing(step.server.value)
    ensures AtMostFree(r.capabilities)
  {
    assert AtMostFree(FREE_CAPABILITIES);
  }

  // --- One more call -----------------------------------------------------

  lemma GraceOfAnswer(w: World, run: seq<Step>, step: Step)
    ensures var resolved := Resolve(w, After(w, run), step).0;
            resolved.license.Some? && resolved.license.value.inOfflineGrace ==>
              step.creds.token.Some? && EarnedGrace(w, run, step.creds.token.value, step.licenseNow)
  {
    var s := After(w, run);
    Answers(w, s, step);
    if Graced(s.grace, step) && Accepted(w, s.grace, step).Some? && !VerifiesFresh(w, step) {
      InMilliseconds(w.opens(step.creds.token.value).value, step.licenseNow);
      GraceIsBounded(w, run, step.creds.token.value, step.licenseNow, step.graceFiles);
    }
  }

  /** What one more call after a run answers, and the caches it leaves. */
  lemma KeepsPromises(w: World, run: seq<Step>, step: Step)
    ensures After(w, run + [step]) == Resolve(w, After(w, run), step).1
    ensures var resolved := Resolve(w, After(w, run), step).0;
            && (resolved.license.Some? && resolved.license.value.inOfflineGrace ==>
                  step.creds.token.Some? && EarnedGrace(w, run, step.creds.token.value, step.licenseNow))
            && (forall license: string, T: int :: RevokedFrom(w, run + [step], license, T) && AfterLatency(step, license, T) ==>
                  AtMostFree(resolved.capabilities))
  {
    RunSnoc(w, run, step);
    GraceOfAnswer(w, run, step);
    assert (run + [step])[..|run|] == run;
    forall license: string, T: int | RevokedFrom(w, run + [step], license, T) && AfterLatency(step, license, T)
      ensures AtMostFree(Resolve(w, After(w, run), step).0.capabilities)
    {
      RevocationIsBounded(w, run + [step], license, T, |run|);
    }
  }

  // --- The bound is tight ------------------------------------------------

  const DEMO_CLAIMS: Claims := Claims("k", 0, DEFAULT_TTL_SECONDS, Some(Catalog("pro", ["hunt"])), true)

  function DemoStep(now: int): Step {
    Step(now, now, Credentials(Some("api"), Some("k"), Some("t")), LoadOptions(false, None), None, Files(true, true), Files(true, true))
  }

  /** The latency bound is met to within three milliseconds: a token signed one millisecond
      before the revocation, verified in the last millisecond of its life, is honoured until
      three milliseconds before the bound. */
  lemma RevocationBoundIsTight() returns (w: World, run: seq<Step>, T: int)
    ensures RevokedFrom(w, run, "k", T)
    ensures |run| == 2 && run[1].creds.licenseKey == Some("k")
    ensures run[1].capsNow == run[1].licenseNow == T + REVOCATION_LATENCY_MS - 3
    ensures !AtMostFree(ResultAt(w, run, 1).capabilities)
  {
    w := World((token: string) => if token == "t" then Some(DEMO_CLAIMS) else None, (key: string) => key);
    T := 1;
    var last := (DEFAULT_TTL_SECONDS + 1) * SECOND_MS - 1;
    run := [DemoStep(last), DemoStep(last + OFFLINE_GRACE_MS - 1)];
    assert SignedBefore(DEMO_CLAIMS, T) by { assert 0 < T && DEMO_CLAIMS.iat == NowSeconds(0); }
    assert run[..1] == [DemoStep(last)] && run[..1][..0] == [];
    assert After(w, run[..1]) == State(None, Some(GraceEntry("t", last)));
    assert ResultAt(w, run, 1).capabilities == ["hunt"];
    assert ["hunt"][0] !in FREE_CAPABILITIES;
  }
}
