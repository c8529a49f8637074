/** Access scopes: glob matching, their coding in JWTs, and the two API actions that
    issue tokens from tokens. */
module Scopes {
  import opened Wrappers
  import opened JwtTables

  // Globs.

  predicate EndsWithStar(g: string) {
    |g| > 0 && g[|g| - 1] == '*'
  }

  predicate GlobMatches(g: string, fixed: string) {
    if g == "*" then true
    else if EndsWithStar(g) then g[..|g| - 1] <= fixed
    else fixed == g
  }

  predicate GlobIncludes(globs: Option<seq<string>>, fixed: string) {
    globs.Some? && exists g :: g in globs.value && GlobMatches(g, fixed)
  }

  /** Every string that `h` matches is also matched by `g`. */
  ghost predicate GlobSubset(h: string, g: string) {
    forall x :: GlobMatches(h, x) ==> GlobMatches(g, x)
  }

  predicate EndsWithTwoStars(g: string) {
    |g| >= 2 && g[|g| - 1] == '*' && g[|g| - 2] == '*'
  }

  /** The check of a glob as if it were a fixed string. */
  lemma MatchedGlobIsSubset(g: string, h: string)
    requires !EndsWithTwoStars(g) && GlobMatches(g, h)
    ensures GlobSubset(h, g)
  {
    forall x | GlobMatches(h, x) ensures GlobMatches(g, x) {
      if g != "*" && EndsWithStar(g) && EndsWithStar(h) {
        var p, q := g[..|g| - 1], h[..|h| - 1];
        assert p <= h && (p == h ==> EndsWithTwoStars(g));
        assert p <= q;
        assert q <= x;
      }
    }
  }

  /** Testing a requested glob as a fixed string narrows what is permitted if and only
      if the granting glob does not end with two stars. */
  lemma GlobNarrowsExactly(g: string)
    ensures (forall h | GlobMatches(g, h) :: GlobSubset(h, g)) <==> !EndsWithTwoStars(g)
  {
    if EndsWithTwoStars(g) {
      var h := g[..|g| - 1];
      var x := h[..|h| - 1];
      assert GlobMatches(g, h) && GlobMatches(h, x) && !GlobMatches(g, x);
    } else {
      forall h | GlobMatches(g, h) ensures GlobSubset(h, g) {
        MatchedGlobIsSubset(g, h);
      }
    }
  }

  // Scopes and the access check.

  datatype Scope = Scope(actions: seq<string>, paths: Option<seq<string>>, names: Option<seq<string>>)

  /** The options of an access check. */
  datatype Opts = Opts(path: Option<string>, name: Option<string>)

  predicate ScopeMatches(sc: Scope, action: string, opts: Opts) {
    && GlobIncludes(Some(sc.actions), action)
    && (opts.path.Some? ==> GlobIncludes(sc.paths, opts.path.value))
    && (opts.name.Some? ==> GlobIncludes(sc.names, opts.name.value))
  }

  /** True where the source returns; false where it throws. */
  predicate CheckScopesV2(scopes: seq<Scope>, action: string, opts: Opts) {
    exists sc :: sc in scopes && ScopeMatches(sc, action, opts)
  }

  // The JWT representation.

  /** The long representation.  Empty strings count as absent single values. */
  datatype LongScope = LongScope(
    action: Option<string>, actions: Option<seq<string>>,
    path: Option<string>, paths: Option<seq<string>>,
    name: Option<string>, names: Option<seq<string>>)

  datatype Sc = Sc(aa: seq<string>, p: Option<seq<string>>, n: Option<seq<string>>)

  function Joined(one: Option<string>, many: Option<seq<string>>): seq<string> {
    (if one.Some? && one.value != "" then [one.value] else []) + (if many.Some? then many.value else [])
  }

  function NonEmpty(xs: seq<string>): Option<seq<string>> {
    if xs == [] then None else Some(xs)
  }

  predicate HaveCodes(actions: seq<string>) {
    forall a | a in actions :: ActionCode(a).Some?
  }

  function Codes(actions: seq<string>): seq<string>
    requires HaveCodes(actions)
  {
    seq(|actions|, i requires 0 <= i < |actions| => ActionCode(actions[i]).value)
  }

  function Compile(scope: LongScope): Option<Sc> {
    var actions := Joined(scope.action, scope.actions);
    if !HaveCodes(actions) then None
    else Some(Sc(Codes(actions), NonEmpty(Joined(scope.path, scope.paths)), NonEmpty(Joined(scope.name, scope.names))))
  }

  predicate KnownCodes(aa: seq<string>) {
    forall a | a in aa :: JwtAAToAction(a).Some?
  }

  function DecodeActions(aa: seq<string>): seq<string>
    requires KnownCodes(aa)
  {
    seq(|aa|, i requires 0 <= i < |aa| => JwtAAToAction(aa[i]).value)
  }

  function DecodeScEntry(sc: Sc): Option<Scope> {
    if !KnownCodes(sc.aa) then None else Some(Scope(DecodeActions(sc.aa), sc.p, sc.n))
  }

  /** The concatenated actions, paths and names, in order. */
  function DecodedScope(scope: LongScope): Scope {
    Scope(Joined(scope.action, scope.actions),
          NonEmpty(Joined(scope.path, scope.paths)), NonEmpty(Joined(scope.name, scope.names)))
  }

  lemma CodesRoundTrip(actions: seq<string>)
    requires HaveCodes(actions)
    ensures KnownCodes(Codes(actions)) && DecodeActions(Codes(actions)) == actions
  {
    hide ActionCode, JwtAAToAction;
    var aa := Codes(actions);
    forall i | 0 <= i < |aa| ensures JwtAAToAction(aa[i]) == Some(actions[i]) {
      CodeRoundTrip(actions[i]);
    }
    forall a | a in aa ensures JwtAAToAction(a).Some? {
      var i :| 0 <= i < |aa| && aa[i] == a;
    }
  }

  /** Decoding a compiled scope gives back the concatenated actions, paths and names, in
      order; compilation fails exactly if an action has no code. */
  lemma DecodeCompiledScope(scope: LongScope)
    ensures Compile(scope).Some? <==> HaveCodes(Joined(scope.action, scope.actions))
    ensures Compile(scope).Some? ==> DecodeScEntry(Compile(scope).value) == Some(DecodedScope(scope))
    ensures Given(scope.action) && scope.actions.Some? ==>
              DecodedScope(scope).actions == [scope.action.value] + scope.actions.value
    ensures Given(scope.path) && scope.paths.Some? ==>
              DecodedScope(scope).paths == Some([scope.path.value] + scope.paths.value)
    ensures Given(scope.name) && scope.names.Some? ==>
              DecodedScope(scope).names == Some([scope.name.value] + scope.names.value)
  {
    hide ActionCode, JwtAAToAction;
    if HaveCodes(Joined(scope.action, scope.actions)) {
      CodesRoundTrip(Joined(scope.action, scope.actions));
    }
  }

  /** The decoded scope permits exactly the product sets `actions x paths` and
      `actions x names` of the long representation. */
  lemma DecodedScopePermitsProducts(scope: LongScope, action: string, x: string)
    ensures CheckScopesV2([DecodedScope(scope)], action, Opts(Some(x), None)) <==>
            GlobIncludes(Some(Joined(scope.action, scope.actions)), action) &&
            GlobIncludes(Some(Joined(scope.path, scope.paths)), x)
    ensures CheckScopesV2([DecodedScope(scope)], action, Opts(None, Some(x))) <==>
            GlobIncludes(Some(Joined(scope.action, scope.actions)), action) &&
            GlobIncludes(Some(Joined(scope.name, scope.names)), x)
  {
    assert DecodedScope(scope) in [DecodedScope(scope)];
  }

  /** `compileScope()`: `None` where the source throws. */
  method CompileScope(scope: LongScope) returns (r: Option<Sc>)
    ensures r == Compile(scope)
  {
    hide ActionCode, Joined;
    var actions := Joined(scope.action, scope.actions);
    var aa := [];
    for i := 0 to |actions|
      invariant HaveCodes(actions[..i]) && aa == Codes(actions[..i])
    {
      var c := ActionCode(actions[i]);
      if c.None? {
        assert actions[i] in actions;
        return None;
      }
      aa := aa + [c.value];
      assert actions[..i + 1] == actions[..i] + [actions[i]];
    }
    assert actions[..|actions|] == actions;
    return Some(Sc(aa, NonEmpty(Joined(scope.path, scope.paths)), NonEmpty(Joined(scope.name, scope.names))));
  }

  function CompileAll(scopes: seq<LongScope>): Option<seq<Sc>> {
    if scopes == [] then Some([])
    else
      var rest, last := CompileAll(scopes[..|scopes| - 1]), Compile(scopes[|scopes| - 1]);
      if rest.None? || last.None? then None else Some(rest.value + [last.value])
  }

  function DecodeSc(scs: seq<Sc>): Option<seq<Scope>> {
    if scs == [] then Some([])
    else
      var rest, last := DecodeSc(scs[..|scs| - 1]), DecodeScEntry(scs[|scs| - 1]);
      if rest.None? || last.None? then None else Some(rest.value + [last.value])
  }

  /** The scopes that the bearer of a token for `scopes` gets. */
  function TokenScopes(scopes: seq<LongScope>): Option<seq<Scope>> {
    var scs := CompileAll(scopes);
    if scs.None? then None else DecodeSc(scs.value)
  }

  function Decoded(scopes: seq<LongScope>): seq<Scope> {
    seq(|scopes|, i requires 0 <= i < |scopes| => DecodedScope(scopes[i]))
  }

  lemma {:induction false} DecodeCompiledScopes(scopes: seq<LongScope>)
    requires CompileAll(scopes).Some?
    ensures DecodeSc(CompileAll(scopes).value) == Some(Decoded(scopes))
  {
    hide Compile, DecodeScEntry;
    if scopes == [] {
      assert Decoded(scopes) == [];
    } else {
      var n := |scopes| - 1;
      DecodeCompiledScopes(scopes[..n]);
      DecodeCompiledScope(scopes[n]);
      var scs := CompileAll(scopes).value;
      assert scs[..|scs| - 1] == CompileAll(scopes[..n]).value;
      assert Decoded(scopes) == Decoded(scopes[..n]) + [DecodedScope(scopes[n])];
    }
  }

  /** The bearer of a token gets exactly the decoded scopes it was issued for. */
  lemma TokenScopesAreDecoded(scopes: seq<LongScope>)
    ensures TokenScopes(scopes).Some? <==> CompileAll(scopes).Some?
    ensures TokenScopes(scopes).Some? ==> TokenScopes(scopes).value == Decoded(scopes)
  {
    hide CompileAll, DecodeSc;
    if CompileAll(scopes).Some? {
      DecodeCompiledScopes(scopes);
    }
  }

  // Issuing tokens.

  /** `policy` stands for the access statements, `scopesV2` for the scopes of the token
      that the user presented. */
  datatype User = User(policy: iset<(string, Opts)>, scopesV2: Option<seq<Scope>>)

  predicate TestAccess(user: User, action: string, opts: Opts) {
    (action, opts) in user.policy && (user.scopesV2.Some? ==> CheckScopesV2(user.scopesV2.value, action, opts))
  }

  /** `Failed` where the token provider throws. */
  datatype Answer = Denied | Malformed | Failed | Issued(scopes: seq<LongScope>)

  datatype Actions = OneAction(action: string) | ManyActions(actions: seq<string>)
  datatype Target = OneName(name: string) | ManyNames(names: seq<string>) | OnePath(path: string) | ManyPaths(paths: seq<string>)

  /** Either `action` or `actions`, and only one of `name`, `names`, `path`, `paths`. */
  datatype XorScope = XorScope(actions: Actions, target: Target)

  predicate NoneEmpty(xs: seq<string>) {
    forall x | x in xs :: x != ""
  }

  predicate MatchesXorScope(x: XorScope) {
    && NoneEmpty(if x.actions.OneAction? then [x.actions.action] else x.actions.actions)
    && NoneEmpty(match x.target
                 case OneName(n) => [n]
                 case ManyNames(ns) => ns
                 case OnePath(p) => [p]
                 case ManyPaths(ps) => ps)
  }

  function NormalizeXorScope(x: XorScope): LongScope {
    var actions := if x.actions.OneAction? then [x.actions.action] else x.actions.actions;
    match x.target
    case OneName(n) => LongScope(None, Some(actions), None, None, None, Some([n]))
    case ManyNames(ns) => LongScope(None, Some(actions), None, None, None, Some(ns))
    case OnePath(p) => LongScope(None, Some(actions), None, Some([p]), None, None)
    case ManyPaths(ps) => LongScope(None, Some(actions), None, Some(ps), None, None)
  }

  /** The user may use every action with every name and every path of the scope. */
  ghost predicate PairsAllowed(user: User, scope: LongScope) {
    forall a, x | a in Joined(None, scope.actions) ::
      && (x in Joined(None, scope.names) ==> TestAccess(user, a, Opts(None, Some(x))))
      && (x in Joined(None, scope.paths) ==> TestAccess(user, a, Opts(Some(x), None)))
  }

  // The parameters of a request.

  const EPHEMERAL_LIMIT_S := 3600.0

  predicate MatchesExpiresIn(x: real) {
    x.Floor as real == x && 1.0 <= x <= 5443200.0
  }

  predicate Lower(c: char) { 'a' <= c <= 'z' || '0' <= c <= '9' || c == '.' || c == '-' }

  predicate MatchesSubuser(x: string) {
    2 < |x| < 60 && forall c | c in x :: Lower(c) || c == '+'
  }

  predicate MatchesAudience(x: string) {
    x == "nogapp" || x == "fso"
  }

  predicate MatchesSan(x: string) {
    4 < |x| < 60 && x[..4] == "DNS:" && forall c | c in x[4..] :: Lower(c) || 'A' <= c <= 'Z'
  }

  datatype SysRequest = SysRequest(
    subuser: string, expiresIn: real, aud: seq<string>, san: Option<seq<string>>, scopes: seq<XorScope>)

  predicate MatchesSysRequest(req: SysRequest) {
    && MatchesSubuser(req.subuser) && MatchesExpiresIn(req.expiresIn)
    && (forall a | a in req.aud :: MatchesAudience(a)) && req.aud != []
    && (req.san.Some? ==> forall x | x in req.san.value :: MatchesSan(x))
    && (forall x | x in req.scopes :: MatchesXorScope(x)) && req.scopes != []
  }

  /** A token that lives longer is recorded on the user document, which may fail. */
  predicate Recorded(expiresIn: real, canRecord: bool) {
    expiresIn > EPHEMERAL_LIMIT_S ==> canRecord
  }

  /** When a system token is issued. */
  ghost predicate SysGranted(user: User, req: SysRequest, canRecord: bool) {
    && TestAccess(user, "fso/issue-sys-token", ROOT) && user.scopesV2.Some? && MatchesSysRequest(req)
    && (forall x | x in req.scopes ::
          PairsAllowed(user, NormalizeXorScope(x)) && HaveCodes(Joined(None, NormalizeXorScope(x).actions)))
    && Recorded(req.expiresIn, canRecord)
  }

  const ROOT := Opts(Some("/"), None)

  method ActionAllowed(user: User, action: string, scope: LongScope) returns (ok: bool)
    ensures ok <==> ActionPairs(user, action, scope)
  {
    hide TestAccess, Joined;
    var names, paths := Joined(None, scope.names), Joined(None, scope.paths);
    for i := 0 to |names|
      invariant forall k :: 0 <= k < i ==> TestAccess(user, action, Opts(None, Some(names[k])))
    {
      if !TestAccess(user, action, Opts(None, Some(names[i]))) {
        return false;
      }
    }
    for i := 0 to |paths|
      invariant forall k :: 0 <= k < i ==> TestAccess(user, action, Opts(Some(paths[k]), None))
    {
      if !TestAccess(user, action, Opts(Some(paths[i]), None)) {
        return false;
      }
    }
    return true;
  }

  function Normalized(xs: seq<XorScope>): seq<LongScope> {
    seq(|xs|, i requires 0 <= i < |xs| => NormalizeXorScope(xs[i]))
  }

  /** The user may use the action with every name and every path of the scope. */
  ghost predicate ActionPairs(user: User, action: string, scope: LongScope) {
    forall x ::
      && (x in Joined(None, scope.names) ==> TestAccess(user, action, Opts(None, Some(x))))
      && (x in Joined(None, scope.paths) ==> TestAccess(user, action, Opts(Some(x), None)))
  }

  lemma PairsByAction(user: User, scope: LongScope)
    ensures PairsAllowed(user, scope) <==> forall a | a in Joined(None, scope.actions) :: ActionPairs(user, a, scope)
  {
    hide Joined, TestAccess;
    if PairsAllowed(user, scope) {
      forall a | a in Joined(None, scope.actions) ensures ActionPairs(user, a, scope) {}
    }
    if forall a | a in Joined(None, scope.actions) :: ActionPairs(user, a, scope) {
      forall a, x | a in Joined(None, scope.actions)
        ensures x in Joined(None, scope.names) ==> TestAccess(user, a, Opts(None, Some(x)))
        ensures x in Joined(None, scope.paths) ==> TestAccess(user, a, Opts(Some(x), None))
      {
        assert ActionPairs(user, a, scope);
      }
    }
  }

  /** The loop over the actions of one scope. */
  method ScopeAllowed(user: User, scope: LongScope) returns (ok: bool)
    ensures ok <==> PairsAllowed(user, scope)
  {
    PairsByAction(user, scope);
    hide Joined, ActionPairs, PairsAllowed;
    var actions := Joined(None, scope.actions);
    for j := 0 to |actions|
      invariant forall k :: 0 <= k < j ==> ActionPairs(user, actions[k], scope)
    {
      ok := ActionAllowed(user, actions[j], scope);
      if !ok {
        assert actions[j] in actions;
        return;
      }
    }
    ok := true;
  }

  /** The loop over the requested scopes. */
  method AllAllowed(user: User, req: seq<XorScope>) returns (ok: bool)
    ensures ok <==> forall x | x in req :: PairsAllowed(user, NormalizeXorScope(x))
  {
    hide PairsAllowed, NormalizeXorScope;
    var scopes := Normalized(req);
    for i := 0 to |scopes|
      invariant forall k :: 0 <= k < i ==> PairsAllowed(user, NormalizeXorScope(req[k]))
    {
      ok := ScopeAllowed(user, scopes[i]);
      if !ok {
        assert req[i] in req;
        return;
      }
    }
    ok := true;
  }

  /** A system token is issued exactly if the user may issue such tokens and has scopes, the
      request is well formed, the user may use every requested pair, all actions have a code,
      and the token is recorded if it is longterm. */
  method PostSysAuth(user: User, req: SysRequest, canRecord: bool) returns (r: Answer)
    ensures r.Issued? <==> SysGranted(user, req, canRecord)
    ensures r.Issued? ==> r.scopes == Normalized(req.scopes) && SysIssuable(user, r.scopes)
    ensures r.Malformed? ==> !MatchesSysRequest(req)
  {
    hide MatchesSysRequest, PairsAllowed, TestAccess, Recorded;
    if !TestAccess(user, "fso/issue-sys-token", ROOT) || user.scopesV2.None? {
      return Denied;
    }
    if !MatchesSysRequest(req) {
      return Malformed;
    }
    var ok := AllAllowed(user, req.scopes);
    if !ok {
      return Denied;
    }
    if exists x :: x in req.scopes && !HaveCodes(Joined(None, NormalizeXorScope(x).actions)) {
      return Failed;
    }
    if !Recorded(req.expiresIn, canRecord) {
      return Failed;
    }
    return Issued(Normalized(req.scopes));
  }

  /** A scope of a user token request; `repoId` names a repo instead of a path. */
  datatype UserScope = UserScope(action: string, path: Option<string>, name: Option<string>, repoId: Option<string>)

  predicate Given(o: Option<string>) {
    o.Some? && o.value != ""
  }

  predicate IsUuid(x: string) {
    && |x| == 36
    && forall i :: 0 <= i < 36 ==>
         if i in {8, 13, 18, 23} then x[i] == '-' else '0' <= x[i] <= '9' || 'a' <= x[i] <= 'f'
  }

  predicate MatchesUserScope(x: UserScope) {
    && (x.repoId.Some? ==> IsUuid(x.repoId.value))
    && (Given(x.path) || Given(x.name) || Given(x.repoId))
    && !(Given(x.path) && Given(x.repoId))
  }

  /** `repos` maps repo ids to paths.  `None` where the source throws. */
  function ResolveRepoId(repos: map<string, string>, x: UserScope): Option<UserScope> {
    if !Given(x.repoId) then Some(x)
    else if x.repoId.value !in repos then None
    else Some(UserScope(x.action, Some(repos[x.repoId.value]), if Given(x.name) then x.name else None, None))
  }

  predicate IsWildcardScope(x: UserScope) {
    EndsWithStar(x.action) || (Given(x.path) && EndsWithStar(x.path.value)) || (Given(x.name) && EndsWithStar(x.name.value))
  }

  predicate IsSubScope(eff: Scope, x: UserScope) {
    && GlobIncludes(Some(eff.actions), x.action)
    && (Given(x.path) ==> GlobIncludes(eff.paths, x.path.value))
    && (Given(x.name) ==> GlobIncludes(eff.names, x.name.value))
  }

  predicate UserScopeAllowed(user: User, x: UserScope) {
    && user.scopesV2.Some? && !IsWildcardScope(x)
    && (exists e :: e in user.scopesV2.value && IsSubScope(e, x))
    && TestAccess(user, x.action, Opts(x.path, x.name))
  }

  function Long(x: UserScope): LongScope {
    LongScope(Some(x.action), None, x.path, None, x.name, None)
  }

  /** What the token provider demands of a scope. */
  predicate ProviderAccepts(x: UserScope) {
    x.action != "" && ActionCode(x.action).Some? && (Given(x.path) || Given(x.name))
  }

  /** When a user token is issued. */
  ghost predicate UserGranted(
    user: User, repos: map<string, string>, expiresIn: real, req: seq<UserScope>, canRecord: bool)
  {
    && TestAccess(user, "fso/issue-user-token", ROOT) && user.scopesV2.Some? && MatchesExpiresIn(expiresIn)
    && (forall x | x in req ::
          && MatchesUserScope(x) && ResolveRepoId(repos, x).Some?
          && UserScopeAllowed(user, ResolveRepoId(repos, x).value)
          && ProviderAccepts(ResolveRepoId(repos, x).value))
    && Recorded(expiresIn, canRecord)
  }

  /** A user token is issued exactly if the user may issue such tokens and has scopes, the
      request is well formed, all repo ids resolve, every resolved scope is allowed, without
      wildcards and has a code, and the token is recorded if it is longterm. */
  method PostAuth(
    user: User, repos: map<string, string>, expiresIn: real, req: seq<UserScope>, canRecord: bool)
    returns (r: Answer)
    ensures r.Issued? <==> UserGranted(user, repos, expiresIn, req, canRecord)
    ensures r.Issued? ==> UserIssuable(user, r.scopes) && |r.scopes| == |req|
    ensures r.Issued? ==> forall i :: 0 <= i < |req| ==>
              ResolveRepoId(repos, req[i]).Some? && r.scopes[i] == Long(ResolveRepoId(repos, req[i]).value)
  {
    hide TestAccess, UserScopeAllowed, ActionCode, Recorded, ProviderAccepts;
    if !TestAccess(user, "fso/issue-user-token", ROOT) {
      return Denied;
    }
    if !MatchesExpiresIn(expiresIn) || exists x :: x in req && !MatchesUserScope(x) {
      return Malformed;
    }
    if exists x :: x in req && ResolveRepoId(repos, x).None? {
      return Denied;
    }
    if user.scopesV2.None? {
      return Denied;
    }
    var scopes := [];
    for i := 0 to |req|
      invariant |scopes| == i
      invariant forall k :: 0 <= k < i ==>
                  ResolveRepoId(repos, req[k]).Some? && UserScopeAllowed(user, ResolveRepoId(repos, req[k]).value) &&
                  scopes[k] == Long(ResolveRepoId(repos, req[k]).value)
    {
      assert req[i] in req;
      var x := ResolveRepoId(repos, req[i]);
      if !UserScopeAllowed(user, x.value) {
        return Denied;
      }
      scopes := scopes + [Long(x.value)];
    }
    if exists x :: x in req && !ProviderAccepts(ResolveRepoId(repos, x).value) {
      return Failed;
    }
    if !Recorded(expiresIn, canRecord) {
      return Failed;
    }
    return Issued(scopes);
  }

  // What a request asks for, in terms of its own fields.

  /** A glob that ends with a star matches the continuations of what precedes the star; any
      other glob matches itself. */
  lemma GlobMeaning(g: string, x: string)
    ensures GlobMatches(g + "*", x) <==> exists t :: x == g + t
    ensures !EndsWithStar(g) ==> (GlobMatches(g, x) <==> x == g)
  {
    var h := g + "*";
    assert h[..|h| - 1] == g && h[|h| - 1] == '*';
    if g <= x {
      assert x == g + x[|g|..];
    }
    if t :| x == g + t {
      assert g <= x;
    }
  }

  predicate AsksAction(x: XorScope, a: string) {
    (x.actions.OneAction? && a == x.actions.action) || (x.actions.ManyActions? && a in x.actions.actions)
  }

  predicate AsksName(x: XorScope, n: string) {
    (x.target.OneName? && n == x.target.name) || (x.target.ManyNames? && n in x.target.names)
  }

  predicate AsksPath(x: XorScope, p: string) {
    (x.target.OnePath? && p == x.target.path) || (x.target.ManyPaths? && p in x.target.paths)
  }

  lemma NormalizedAsks(x: XorScope, y: string)
    ensures y in Joined(None, NormalizeXorScope(x).actions) <==> AsksAction(x, y)
    ensures y in Joined(None, NormalizeXorScope(x).names) <==> AsksName(x, y)
    ensures y in Joined(None, NormalizeXorScope(x).paths) <==> AsksPath(x, y)
  {
  }

  /** The requested actions have a code, and the user may use them with every requested name
      and with every requested path. */
  ghost predicate MayAsk(user: User, x: XorScope) {
    && (forall a | AsksAction(x, a) :: ActionCode(a).Some?)
    && (forall a, n | AsksAction(x, a) && AsksName(x, n) :: TestAccess(user, a, Opts(None, Some(n))))
    && (forall a, p | AsksAction(x, a) && AsksPath(x, p) :: TestAccess(user, a, Opts(Some(p), None)))
  }

  lemma MayAskExactly(user: User, x: XorScope)
    ensures var sc := NormalizeXorScope(x);
            PairsAllowed(user, sc) && HaveCodes(Joined(None, sc.actions)) <==> MayAsk(user, x)
  {
    var sc := NormalizeXorScope(x);
    forall y
      ensures y in Joined(None, sc.actions) <==> AsksAction(x, y)
      ensures y in Joined(None, sc.names) <==> AsksName(x, y)
      ensures y in Joined(None, sc.paths) <==> AsksPath(x, y)
    {
      NormalizedAsks(x, y);
    }
    hide NormalizeXorScope, Joined, AsksAction, AsksName, AsksPath, TestAccess, ActionCode;
  }

  /** When a system token is issued, over the fields of the request. */
  lemma SysGrantedExactly(user: User, req: SysRequest, canRecord: bool)
    ensures SysGranted(user, req, canRecord) <==>
            && TestAccess(user, "fso/issue-sys-token", ROOT) && user.scopesV2.Some? && MatchesSysRequest(req)
            && (forall x | x in req.scopes :: MayAsk(user, x)) && Recorded(req.expiresIn, canRecord)
  {
    forall x
      ensures (PairsAllowed(user, NormalizeXorScope(x)) && HaveCodes(Joined(None, NormalizeXorScope(x).actions))) <==>
              MayAsk(user, x)
    {
      MayAskExactly(user, x);
    }
    hide PairsAllowed, HaveCodes, MayAsk, NormalizeXorScope, Joined, TestAccess, MatchesSysRequest, Recorded;
  }

  /** Whatever an issued system token names, the access statements and the scopes of the
      requester both permit. */
  lemma AskedIsPermitted(user: User, req: SysRequest, canRecord: bool, x: XorScope, a: string, y: string)
    requires SysGranted(user, req, canRecord) && x in req.scopes && AsksAction(x, a)
    ensures AsksName(x, y) ==> Permitted(user, a, Opts(None, Some(y)))
    ensures AsksPath(x, y) ==> Permitted(user, a, Opts(Some(y), None))
  {
    hide NormalizeXorScope, Joined, CheckScopesV2, MatchesSysRequest, ActionCode;
    SysGrantedExactly(user, req, canRecord);
    hide SysGranted, TestAccess;
    assert MayAsk(user, x);
    if AsksName(x, y) {
      TestAccessExactly(user, a, Opts(None, Some(y)));
    }
    if AsksPath(x, y) {
      TestAccessExactly(user, a, Opts(Some(y), None));
    }
  }

  /** The access statements permit the operation, and so does some scope of the token that the
      user presented, if it has scopes. */
  ghost predicate Permitted(user: User, action: string, opts: Opts) {
    && (action, opts) in user.policy
    && (user.scopesV2.Some? ==> exists sc :: sc in user.scopesV2.value && ScopeMatches(sc, action, opts))
  }

  lemma TestAccessExactly(user: User, action: string, opts: Opts)
    ensures TestAccess(user, action, opts) <==> Permitted(user, action, opts)
  {
  }

  /** A requested action matches, and so do a requested path and a requested name if the
      operation carries them. */
  ghost predicate AsksFor(x: XorScope, action: string, opts: Opts) {
    && (exists g :: AsksAction(x, g) && GlobMatches(g, action))
    && (opts.path.Some? ==> exists g :: AsksPath(x, g) && GlobMatches(g, opts.path.value))
    && (opts.name.Some? ==> exists g :: AsksName(x, g) && GlobMatches(g, opts.name.value))
  }

  lemma NormalizedPermitsExactly(x: XorScope, action: string, opts: Opts)
    ensures ScopeMatches(DecodedScope(NormalizeXorScope(x)), action, opts) <==> AsksFor(x, action, opts)
  {
    var sc := NormalizeXorScope(x);
    assert DecodedScope(sc) ==
           Scope(Joined(None, sc.actions), NonEmpty(Joined(None, sc.paths)), NonEmpty(Joined(None, sc.names)));
    forall y
      ensures y in Joined(None, sc.actions) <==> AsksAction(x, y)
      ensures y in Joined(None, sc.names) <==> AsksName(x, y)
      ensures y in Joined(None, sc.paths) <==> AsksPath(x, y)
    {
      NormalizedAsks(x, y);
    }
    hide NormalizeXorScope, Joined, AsksAction, AsksName, AsksPath, GlobMatches, DecodedScope;
  }

  lemma {:induction false} CompilesExactly(scopes: seq<LongScope>)
    ensures CompileAll(scopes).Some? <==> forall sc | sc in scopes :: HaveCodes(Joined(sc.action, sc.actions))
  {
    hide HaveCodes, Joined;
    if scopes != [] {
      var n := |scopes| - 1;
      CompilesExactly(scopes[..n]);
      assert scopes == scopes[..n] + [scopes[n]];
      DecodeCompiledScope(scopes[n]);
    }
  }

  lemma DecodedPermitsExactly(scopes: seq<LongScope>, action: string, opts: Opts)
    ensures CheckScopesV2(Decoded(scopes), action, opts) <==>
            exists sc :: sc in scopes && ScopeMatches(DecodedScope(sc), action, opts)
  {
    hide ScopeMatches, DecodedScope;
    if sc :| sc in scopes && ScopeMatches(DecodedScope(sc), action, opts) {
      var i :| 0 <= i < |scopes| && scopes[i] == sc;
      assert Decoded(scopes)[i] == DecodedScope(sc);
    }
    if CheckScopesV2(Decoded(scopes), action, opts) {
      var sc := MatchingScope(scopes, action, opts);
    }
  }

  /** An issued system token permits an operation exactly if some requested scope asks for
      it. */
  lemma SysTokenPermitsExactly(user: User, req: SysRequest, canRecord: bool, action: string, opts: Opts)
    requires SysGranted(user, req, canRecord)
    ensures TokenScopes(Normalized(req.scopes)).Some?
    ensures CheckScopesV2(TokenScopes(Normalized(req.scopes)).value, action, opts) <==>
            exists x :: x in req.scopes && AsksFor(x, action, opts)
  {
    hide ActionCode, TestAccess, PairsAllowed, MatchesSysRequest, CheckScopesV2, ScopeMatches, AsksFor, TokenScopes;
    var scopes := Normalized(req.scopes);
    forall sc | sc in scopes ensures HaveCodes(Joined(sc.action, sc.actions)) {
      GrantedHasCodes(user, req, canRecord, sc);
    }
    hide HaveCodes, Joined, SysGranted;
    CompilesExactly(scopes);
    TokenScopesAreDecoded(scopes);
    hide CompileAll, Decoded;
    DecodedPermitsExactly(scopes, action, opts);
    hide DecodedScope;
    if sc :| sc in scopes && ScopeMatches(DecodedScope(sc), action, opts) {
      var i :| 0 <= i < |scopes| && scopes[i] == sc;
      assert req.scopes[i] in req.scopes;
      NormalizedPermitsExactly(req.scopes[i], action, opts);
    }
    if x :| x in req.scopes && AsksFor(x, action, opts) {
      var i :| 0 <= i < |req.scopes| && req.scopes[i] == x;
      assert scopes[i] in scopes;
      NormalizedPermitsExactly(x, action, opts);
    }
  }

  /** The path that a requested scope means: that of the repo if it names one. */
  function AskedPath(repos: map<string, string>, x: UserScope): Option<string>
    requires Given(x.repoId) ==> x.repoId.value in repos
  {
    if Given(x.repoId) then Some(repos[x.repoId.value]) else x.path
  }

  function AskedName(x: UserScope): Option<string> {
    if Given(x.repoId) && !Given(x.name) then None else x.name
  }

  /** The requested scope is well formed, names a known repo if any, has no wildcard, has a
      code, and the user may use the action with the path and the name together. */
  predicate MayAskUser(user: User, repos: map<string, string>, x: UserScope) {
    && MatchesUserScope(x) && (Given(x.repoId) ==> x.repoId.value in repos)
    && x.action != "" && ActionCode(x.action).Some?
    && var path, name := AskedPath(repos, x), AskedName(x);
    && (Given(path) || Given(name))
    && !EndsWithStar(x.action) && !(Given(path) && EndsWithStar(path.value)) && !(Given(name) && EndsWithStar(name.value))
    && TestAccess(user, x.action, Opts(path, name))
  }

  /** The access test includes the scopes of the requester, so that the preceding test of them
      is redundant, as the source says. */
  lemma EffectiveScopeTestIsRedundant(user: User, x: UserScope)
    requires user.scopesV2.Some? && TestAccess(user, x.action, Opts(x.path, x.name))
    ensures exists e :: e in user.scopesV2.value && IsSubScope(e, x)
  {
    hide GlobIncludes;
    var e :| e in user.scopesV2.value && ScopeMatches(e, x.action, Opts(x.path, x.name));
    assert IsSubScope(e, x);
  }

  lemma MayAskUserExactly(user: User, repos: map<string, string>, x: UserScope)
    requires user.scopesV2.Some?
    ensures MayAskUser(user, repos, x) <==>
            && MatchesUserScope(x) && ResolveRepoId(repos, x).Some?
            && UserScopeAllowed(user, ResolveRepoId(repos, x).value)
            && ProviderAccepts(ResolveRepoId(repos, x).value)
  {
    hide TestAccess, ActionCode, MatchesUserScope, IsSubScope;
    if ResolveRepoId(repos, x).Some? {
      var y := ResolveRepoId(repos, x).value;
      if TestAccess(user, y.action, Opts(y.path, y.name)) {
        EffectiveScopeTestIsRedundant(user, y);
      }
    }
  }

  /** When a user token is issued, over the fields of the request. */
  lemma UserGrantedExactly(
    user: User, repos: map<string, string>, expiresIn: real, req: seq<UserScope>, canRecord: bool)
    ensures UserGranted(user, repos, expiresIn, req, canRecord) <==>
            && TestAccess(user, "fso/issue-user-token", ROOT) && user.scopesV2.Some? && MatchesExpiresIn(expiresIn)
            && (forall x | x in req :: MayAskUser(user, repos, x)) && Recorded(expiresIn, canRecord)
  {
    hide TestAccess, MayAskUser, UserScopeAllowed, ProviderAccepts, ResolveRepoId, MatchesUserScope, Recorded;
    if user.scopesV2.Some? {
      forall x | x in req
        ensures MayAskUser(user, repos, x) <==>
                && MatchesUserScope(x) && ResolveRepoId(repos, x).Some?
                && UserScopeAllowed(user, ResolveRepoId(repos, x).value)
                && ProviderAccepts(ResolveRepoId(repos, x).value)
      {
        MayAskUserExactly(user, repos, x);
      }
    }
  }

  /** The operation is the requested action, on the requested path and with the requested
      name if it carries them. */
  predicate AsksForUser(repos: map<string, string>, x: UserScope, action: string, opts: Opts) {
    && action == x.action && (Given(x.repoId) ==> x.repoId.value in repos)
    && (opts.path.Some? ==> Given(AskedPath(repos, x)) && opts.path == AskedPath(repos, x))
    && (opts.name.Some? ==> Given(x.name) && opts.name == x.name)
  }

  lemma SingleStringExactly(one: Option<string>, x: string)
    requires !(Given(one) && EndsWithStar(one.value))
    ensures GlobIncludes(NonEmpty(Joined(one, None)), x) <==> Given(one) && one.value == x
  {
    if Given(one) {
      assert Joined(one, None) == [one.value];
      assert one.value in [one.value];
      GlobMeaning(one.value, x);
    }
  }

  lemma LongPermitsExactly(user: User, repos: map<string, string>, x: UserScope, action: string, opts: Opts)
    requires MayAskUser(user, repos, x)
    ensures ResolveRepoId(repos, x).Some?
    ensures ScopeMatches(DecodedScope(Long(ResolveRepoId(repos, x).value)), action, opts) <==>
            AsksForUser(repos, x, action, opts)
  {
    hide ActionCode, TestAccess, MatchesUserScope;
    var y := ResolveRepoId(repos, x).value;
    var t := DecodedScope(Long(y));
    assert t == Scope(Joined(Some(y.action), None), NonEmpty(Joined(y.path, None)), NonEmpty(Joined(y.name, None)));
    assert NonEmpty(t.actions) == Some(t.actions);
    hide Joined, NonEmpty, GlobIncludes, EndsWithStar;
    SingleStringExactly(Some(y.action), action);
    if opts.path.Some? {
      SingleStringExactly(y.path, opts.path.value);
    }
    if opts.name.Some? {
      SingleStringExactly(y.name, opts.name.value);
    }
  }

  lemma LongHasCode(user: User, repos: map<string, string>, x: UserScope)
    requires MayAskUser(user, repos, x) && ResolveRepoId(repos, x).Some?
    ensures var sc := Long(ResolveRepoId(repos, x).value); HaveCodes(Joined(sc.action, sc.actions))
  {
    hide ActionCode, TestAccess, MatchesUserScope, EndsWithStar;
    assert Joined(Some(x.action), None) == [x.action];
  }

  /** An issued user token permits an operation exactly if some requested scope asks for
      it. */
  lemma UserTokenPermitsExactly(
    user: User, repos: map<string, string>, expiresIn: real, req: seq<UserScope>, canRecord: bool,
    scopes: seq<LongScope>, action: string, opts: Opts)
    requires UserGranted(user, repos, expiresIn, req, canRecord) && |scopes| == |req|
    requires forall i :: 0 <= i < |req| ==>
               ResolveRepoId(repos, req[i]).Some? && scopes[i] == Long(ResolveRepoId(repos, req[i]).value)
    ensures TokenScopes(scopes).Some?
    ensures CheckScopesV2(TokenScopes(scopes).value, action, opts) <==>
            exists x :: x in req && AsksForUser(repos, x, action, opts)
  {
    UserGrantedExactly(user, repos, expiresIn, req, canRecord);
    hide UserGranted, ActionCode, TestAccess, MatchesUserScope, CheckScopesV2, ScopeMatches, TokenScopes, DecodedScope,
      AsksForUser, MayAskUser;
    forall i | 0 <= i < |req|
      ensures HaveCodes(Joined(scopes[i].action, scopes[i].actions))
      ensures ScopeMatches(DecodedScope(scopes[i]), action, opts) <==> AsksForUser(repos, req[i], action, opts)
    {
      assert req[i] in req;
      LongPermitsExactly(user, repos, req[i], action, opts);
      LongHasCode(user, repos, req[i]);
    }
    hide HaveCodes, Joined, Long, ResolveRepoId;
    CompilesExactly(scopes);
    TokenScopesAreDecoded(scopes);
    hide CompileAll, Decoded;
    DecodedPermitsExactly(scopes, action, opts);
  }

  // Narrowing.

  predicate NoDoubleStar(globs: seq<string>) {
    forall g | g in globs :: !EndsWithTwoStars(g)
  }

  predicate GlobsOk(scopes: seq<Scope>) {
    forall sc | sc in scopes ::
      NoDoubleStar(sc.actions) && NoDoubleStar(Joined(None, sc.paths)) && NoDoubleStar(Joined(None, sc.names))
  }

  lemma IncludedGlobNarrows(globs: Option<seq<string>>, h: string, x: string)
    requires GlobIncludes(globs, h) && NoDoubleStar(globs.value) && GlobMatches(h, x)
    ensures GlobIncludes(globs, x)
  {
    var g :| g in globs.value && GlobMatches(g, h);
    MatchedGlobIsSubset(g, h);
  }

  /** The scopes of a system token that the user can get. */
  ghost predicate SysIssuable(user: User, scopes: seq<LongScope>) {
    user.scopesV2.Some? && forall sc | sc in scopes :: PairsAllowed(user, sc) && IsNormalized(sc)
  }

  ghost predicate IsNormalized(sc: LongScope) {
    exists x :: sc == NormalizeXorScope(x)
  }

  /** An operation that carries neither a path nor a name. */
  const BARE := Opts(None, None)

  /** A requested scope has a name or a path, or its actions are permitted without one.  The
      loops over names and paths check nothing for a scope with empty lists. */
  predicate Grounded(eff: seq<Scope>, sc: LongScope) {
    || Joined(None, sc.names) != [] || Joined(None, sc.paths) != []
    || forall a | a in Joined(None, sc.actions) :: CheckScopesV2(eff, a, BARE)
  }

  /** What a system token permits, the scopes of the requester permit: operations that carry
      a path or a name, and others if all requested scopes are grounded. */
  lemma SysTokenNarrows(user: User, scopes: seq<LongScope>, action: string, opts: Opts)
    requires SysIssuable(user, scopes) && GlobsOk(user.scopesV2.value)
    requires CheckScopesV2(Decoded(scopes), action, opts)
    requires opts == BARE ==> forall sc | sc in scopes :: Grounded(user.scopesV2.value, sc)
    ensures CheckScopesV2(user.scopesV2.value, action, opts)
  {
    hide CheckScopesV2, GlobsOk, PairsAllowed, IsNormalized, Grounded;
    var a, o := SysTokenHop(user, scopes, action, opts);
    PermittedPairNarrows(user.scopesV2.value, a, o, action, opts);
  }

  lemma PairIsTested(user: User, sc: LongScope, a: string, x: string)
    requires PairsAllowed(user, sc) && a in Joined(None, sc.actions)
    ensures x in Joined(None, sc.names) ==> TestAccess(user, a, Opts(None, Some(x)))
    ensures x in Joined(None, sc.paths) ==> TestAccess(user, a, Opts(Some(x), None))
  {
  }

  lemma NormalizedHasOneTarget(sc: LongScope)
    requires IsNormalized(sc)
    ensures DecodedScope(sc) ==
            Scope(Joined(None, sc.actions), NonEmpty(Joined(None, sc.paths)), NonEmpty(Joined(None, sc.names)))
    ensures DecodedScope(sc).paths.None? || DecodedScope(sc).names.None?
  {
  }

  lemma MatchingScope(scopes: seq<LongScope>, action: string, opts: Opts) returns (sc: LongScope)
    requires CheckScopesV2(Decoded(scopes), action, opts)
    ensures sc in scopes && ScopeMatches(DecodedScope(sc), action, opts)
  {
    var t :| t in Decoded(scopes) && ScopeMatches(t, action, opts);
    var i :| 0 <= i < |scopes| && Decoded(scopes)[i] == t;
    sc := scopes[i];
  }

  /** The scopes of a user token that the user can get. */
  ghost predicate UserIssuable(user: User, scopes: seq<LongScope>) {
    user.scopesV2.Some? && forall sc | sc in scopes :: exists x :: sc == Long(x) && UserScopeAllowed(user, x)
  }

  /** The same for a user token, whatever the globs of the requester are. */
  lemma UserTokenNarrows(user: User, scopes: seq<LongScope>, action: string, opts: Opts)
    requires UserIssuable(user, scopes)
    requires CheckScopesV2(Decoded(scopes), action, opts)
    ensures CheckScopesV2(user.scopesV2.value, action, opts)
  {
    var sc := MatchingScope(scopes, action, opts);
    var x :| sc == Long(x) && UserScopeAllowed(user, x);
    var e :| e in user.scopesV2.value && ScopeMatches(e, x.action, Opts(x.path, x.name));
    var t := DecodedScope(sc);
    assert t.actions == Joined(Some(x.action), None);
    assert GlobIncludes(Some(t.actions), action);
    SingleFixedString(Some(x.action), action);
    if opts.path.Some? {
      SingleFixedString(x.path, opts.path.value);
    }
    if opts.name.Some? {
      SingleFixedString(x.name, opts.name.value);
    }
  }

  /** A single string without wildcard matches only itself. */
  lemma SingleFixedString(one: Option<string>, x: string)
    requires GlobIncludes(Some(Joined(one, None)), x) && !(Given(one) && EndsWithStar(one.value))
    ensures one == Some(x)
  {
  }

  /** `next` are the scopes of a token that a bearer of `eff` can get from either action. */
  ghost predicate CanIssue(eff: seq<Scope>, next: seq<Scope>) {
    exists user: User, scopes: seq<LongScope> ::
      && user.scopesV2 == Some(eff) && TokenScopes(scopes) == Some(next)
      && (SysIssuable(user, scopes) || UserIssuable(user, scopes))
  }

  /** The same for a token whose requested scopes are all grounded, as those of user tokens
      always are. */
  ghost predicate CanIssueGrounded(eff: seq<Scope>, next: seq<Scope>) {
    exists user: User, scopes: seq<LongScope> ::
      && user.scopesV2 == Some(eff) && TokenScopes(scopes) == Some(next)
      && ((SysIssuable(user, scopes) && forall sc | sc in scopes :: Grounded(eff, sc)) || UserIssuable(user, scopes))
  }

  /** What an issued token permits, the scopes of the requester permit. */
  lemma IssuedTokenNarrows(eff: seq<Scope>, next: seq<Scope>, action: string, opts: Opts)
    requires CanIssue(eff, next) && GlobsOk(eff) && CheckScopesV2(next, action, opts)
    requires opts == BARE ==> CanIssueGrounded(eff, next)
    ensures CheckScopesV2(eff, action, opts)
  {
    hide CanIssue, CanIssueGrounded, CheckScopesV2, GlobsOk;
    var a, o := TokenHop(eff, next, action, opts);
    PermittedPairNarrows(eff, a, o, action, opts);
  }

  lemma GlobMatchesItself(g: string)
    ensures GlobMatches(g, g)
  {
  }

  /** The globs of the pair `(a, o)` match the operation `(action, opts)`. */
  ghost predicate PairMatches(a: string, o: Opts, action: string, opts: Opts) {
    && GlobMatches(a, action) && (o.path.Some? <==> opts.path.Some?) && (o.name.Some? <==> opts.name.Some?)
    && (opts.path.Some? ==> GlobMatches(o.path.value, opts.path.value))
    && (opts.name.Some? ==> GlobMatches(o.name.value, opts.name.value))
  }

  /** What a system token permits comes from a pair of globs that was checked as strings. */
  lemma SysTokenHop(user: User, scopes: seq<LongScope>, action: string, opts: Opts) returns (a: string, o: Opts)
    requires SysIssuable(user, scopes) && CheckScopesV2(Decoded(scopes), action, opts)
    requires opts == BARE ==> forall sc | sc in scopes :: Grounded(user.scopesV2.value, sc)
    ensures CheckScopesV2(user.scopesV2.value, a, o) && PairMatches(a, o, action, opts)
  {
    hide CheckScopesV2, PairsAllowed, IsNormalized;
    var sc := MatchingScope(scopes, action, opts);
    var t := DecodedScope(sc);
    NormalizedHasOneTarget(sc);
    hide GlobMatches;
    assert GlobIncludes(Some(t.actions), action);
    a :| a in t.actions && GlobMatches(a, action);
    if opts.path.Some? {
      var p :| p in t.paths.value && GlobMatches(p, opts.path.value);
      PairIsTested(user, sc, a, p);
      o := Opts(Some(p), None);
    } else if opts.name.Some? {
      var n :| n in t.names.value && GlobMatches(n, opts.name.value);
      PairIsTested(user, sc, a, n);
      o := Opts(None, Some(n));
    } else {
      GroundedIsPermitted(user, sc, a);
      o := BARE;
    }
  }

  lemma GroundedIsPermitted(user: User, sc: LongScope, a: string)
    requires user.scopesV2.Some? && PairsAllowed(user, sc) && a in Joined(None, sc.actions)
    requires Grounded(user.scopesV2.value, sc)
    ensures CheckScopesV2(user.scopesV2.value, a, BARE)
  {
    hide PairsAllowed, CheckScopesV2;
    var names, paths := Joined(None, sc.names), Joined(None, sc.paths);
    if names != [] {
      PairIsTested(user, sc, a, names[0]);
      BareIsWeaker(user.scopesV2.value, a, Opts(None, Some(names[0])));
    } else if paths != [] {
      PairIsTested(user, sc, a, paths[0]);
      BareIsWeaker(user.scopesV2.value, a, Opts(Some(paths[0]), None));
    }
  }

  lemma BareIsWeaker(eff: seq<Scope>, action: string, opts: Opts)
    requires CheckScopesV2(eff, action, opts)
    ensures CheckScopesV2(eff, action, BARE)
  {
    var e :| e in eff && ScopeMatches(e, action, opts);
    assert ScopeMatches(e, action, BARE);
  }

  /** The same for any issued token, whatever globs the requester has. */
  lemma TokenHop(eff: seq<Scope>, next: seq<Scope>, action: string, opts: Opts) returns (a: string, o: Opts)
    requires CanIssue(eff, next) && CheckScopesV2(next, action, opts)
    requires opts == BARE ==> CanIssueGrounded(eff, next)
    ensures CheckScopesV2(eff, a, o) && PairMatches(a, o, action, opts)
  {
    hide TokenScopes, CheckScopesV2, SysIssuable, UserIssuable, Grounded;
    var user: User, scopes: seq<LongScope> :|
      && user.scopesV2 == Some(eff) && TokenScopes(scopes) == Some(next)
      && (SysIssuable(user, scopes) || UserIssuable(user, scopes))
      && (opts == BARE && SysIssuable(user, scopes) ==>
            (forall sc | sc in scopes :: Grounded(eff, sc)) || UserIssuable(user, scopes));
    TokenScopesAreDecoded(scopes);
    if UserIssuable(user, scopes) {
      UserTokenNarrows(user, scopes, action, opts);
      a, o := action, opts;
      GlobMatchesItself(action);
      if opts.path.Some? { GlobMatchesItself(opts.path.value); }
      if opts.name.Some? { GlobMatchesItself(opts.name.value); }
    } else {
      a, o := SysTokenHop(user, scopes, action, opts);
    }
  }

  /** Scopes without two-star globs that permit a pair of globs as strings permit what the
      pair matches. */
  lemma PermittedPairNarrows(eff: seq<Scope>, a: string, o: Opts, action: string, opts: Opts)
    requires GlobsOk(eff) && CheckScopesV2(eff, a, o) && PairMatches(a, o, action, opts)
    ensures CheckScopesV2(eff, action, opts)
  {
    var e :| e in eff && ScopeMatches(e, a, o);
    hide GlobMatches;
    IncludedGlobNarrows(Some(e.actions), a, action);
    if opts.path.Some? {
      IncludedGlobNarrows(e.paths, o.path.value, opts.path.value);
    }
    if opts.name.Some? {
      IncludedGlobNarrows(e.names, o.name.value, opts.name.value);
    }
  }

  /** Over any chain of issued tokens, whatever globs the tokens on the way have, the last
      token permits no operation that the first does not permit, if the operation carries a
      path or a name or all requested scopes on the way are grounded. */
  lemma {:induction false} ChainNarrows(chain: seq<seq<Scope>>, action: string, opts: Opts)
    requires |chain| > 0 && GlobsOk(chain[0])
    requires forall i: nat | i + 1 < |chain| :: CanIssue(chain[i], chain[i + 1])
    requires opts == BARE ==> forall i: nat | i + 1 < |chain| :: CanIssueGrounded(chain[i], chain[i + 1])
    requires CheckScopesV2(chain[|chain| - 1], action, opts)
    ensures CheckScopesV2(chain[0], action, opts)
  {
    hide CanIssue, CanIssueGrounded, CheckScopesV2, GlobsOk;
    var n := |chain| - 1;
    if n > 0 {
      var a, o := TokenHop(chain[n - 1], chain[n], action, opts);
      ChainNarrows(chain[..n], a, o);
      PermittedPairNarrows(chain[0], a, o, action, opts);
    }
  }

  // Operations without a path or a name.

  /** A system token permits only what the scopes of the requester permit if and only if all
      requested scopes are grounded. */
  lemma SysTokenNarrowsExactly(user: User, scopes: seq<LongScope>)
    requires SysIssuable(user, scopes) && GlobsOk(user.scopesV2.value)
    ensures (forall action, opts | CheckScopesV2(Decoded(scopes), action, opts) ::
               CheckScopesV2(user.scopesV2.value, action, opts)) <==>
            forall sc | sc in scopes :: Grounded(user.scopesV2.value, sc)
  {
    hide CheckScopesV2, GlobsOk, PairsAllowed;
    if forall sc | sc in scopes :: Grounded(user.scopesV2.value, sc) {
      forall action, opts | CheckScopesV2(Decoded(scopes), action, opts)
        ensures CheckScopesV2(user.scopesV2.value, action, opts)
      {
        SysTokenNarrows(user, scopes, action, opts);
      }
    } else {
      var sc :| sc in scopes && !Grounded(user.scopesV2.value, sc);
      var a :| a in Joined(None, sc.actions) && !CheckScopesV2(user.scopesV2.value, a, BARE);
      BareIsPermitted(scopes, sc, a);
    }
  }

  lemma BareIsPermitted(scopes: seq<LongScope>, sc: LongScope, a: string)
    requires sc in scopes && IsNormalized(sc) && a in Joined(None, sc.actions)
    ensures CheckScopesV2(Decoded(scopes), a, BARE)
  {
    var i :| 0 <= i < |scopes| && scopes[i] == sc;
    NormalizedHasOneTarget(sc);
    GlobMatchesItself(a);
    assert Decoded(scopes)[i] == DecodedScope(sc);
    assert ScopeMatches(DecodedScope(sc), a, BARE);
  }

  /** A request with an empty list of names is granted for every action that has a code, to
      every user who may issue system tokens. */
  lemma UntargetedIsGranted(user: User, b: string)
    requires TestAccess(user, "fso/issue-sys-token", ROOT) && user.scopesV2.Some? && ActionCode(b).Some?
    ensures SysGranted(user, UntargetedRequest(b), false)
    ensures CheckScopesV2(Decoded(Normalized(UntargetedRequest(b).scopes)), b, BARE)
  {
    CodedAction(b);
    hide ActionCode, TestAccess;
    UntargetedIsWellFormed(b);
    hide MatchesSysRequest;
    UntargetedIsAllowed(user, b);
    var x := XorScope(OneAction(b), ManyNames([]));
    var sc := NormalizeXorScope(x);
    assert Normalized([x]) == [sc];
    assert IsNormalized(sc);
    assert b in Joined(None, sc.actions) by { assert Joined(None, sc.actions) == [b]; }
    hide NormalizeXorScope, PairsAllowed, HaveCodes, Joined, CheckScopesV2, IsNormalized;
    BareIsPermitted([sc], sc, b);
  }

  lemma UntargetedIsWellFormed(b: string)
    requires b != ""
    ensures MatchesSysRequest(UntargetedRequest(b))
  {
    assert forall c | c in "sub" :: Lower(c);
  }

  lemma UntargetedIsAllowed(user: User, b: string)
    requires ActionCode(b).Some?
    ensures var sc := NormalizeXorScope(XorScope(OneAction(b), ManyNames([])));
            PairsAllowed(user, sc) && HaveCodes(Joined(None, sc.actions))
  {
    hide ActionCode, TestAccess;
    var sc := NormalizeXorScope(XorScope(OneAction(b), ManyNames([])));
    assert Joined(None, sc.actions) == [b] && Joined(None, sc.names) == [] && Joined(None, sc.paths) == [];
  }

  function UntargetedRequest(b: string): SysRequest {
    SysRequest("sub", 60.0, ["fso"], None, [XorScope(OneAction(b), ManyNames([]))])
  }

  /** Every system token that is issued to a user with the scopes `eff` permits only
      operations that `eff` permits. */
  ghost predicate IssuesOnlyNarrowerAlways(eff: seq<Scope>) {
    forall user: User, req: SysRequest, canRecord: bool, action: string, opts: Opts ::
      (&& user.scopesV2 == Some(eff) && SysGranted(user, req, canRecord)
       && CheckScopesV2(Decoded(Normalized(req.scopes)), action, opts)) ==> CheckScopesV2(eff, action, opts)
  }

  /** For scopes that permit issuing and have no two-star glob, all issued tokens are narrower,
      also for operations without a path or a name, if and only if the scopes permit every
      action that has a code on such operations. */
  lemma BareNarrowsExactly(eff: seq<Scope>)
    requires GlobsOk(eff) && CheckScopesV2(eff, "fso/issue-sys-token", ROOT)
    ensures IssuesOnlyNarrowerAlways(eff) <==> forall b | ActionCode(b).Some? :: CheckScopesV2(eff, b, BARE)
  {
    hide ActionCode, CheckScopesV2, GlobsOk, SysGranted;
    if forall b | ActionCode(b).Some? :: CheckScopesV2(eff, b, BARE) {
      forall user: User, req: SysRequest, canRecord: bool, action: string, opts: Opts |
        user.scopesV2 == Some(eff) && SysGranted(user, req, canRecord) &&
        CheckScopesV2(Decoded(Normalized(req.scopes)), action, opts)
        ensures CheckScopesV2(eff, action, opts)
      {
        GrantedIsIssuable(user, req, canRecord);
        forall sc | sc in Normalized(req.scopes) ensures Grounded(eff, sc) {
          GrantedHasCodes(user, req, canRecord, sc);
        }
        SysTokenNarrows(user, Normalized(req.scopes), action, opts);
      }
    } else {
      var b :| ActionCode(b).Some? && !CheckScopesV2(eff, b, BARE);
      var user := User(Everything(), Some(eff));
      assert TestAccess(user, "fso/issue-sys-token", ROOT);
      UntargetedIsGranted(user, b);
    }
  }

  lemma GrantedHasCodes(user: User, req: SysRequest, canRecord: bool, sc: LongScope)
    requires SysGranted(user, req, canRecord) && sc in Normalized(req.scopes)
    ensures forall a | a in Joined(None, sc.actions) :: ActionCode(a).Some?
  {
    hide PairsAllowed, TestAccess, MatchesSysRequest, ActionCode;
    var i :| 0 <= i < |req.scopes| && Normalized(req.scopes)[i] == sc;
    assert req.scopes[i] in req.scopes;
  }

  lemma GrantedIsIssuable(user: User, req: SysRequest, canRecord: bool)
    requires SysGranted(user, req, canRecord)
    ensures SysIssuable(user, Normalized(req.scopes))
  {
    hide PairsAllowed, TestAccess, MatchesSysRequest, ActionCode;
  }

  // Two stars.

  /** Every system token that is issued to a user with the scopes `eff` permits only
      operations with a path or a name that `eff` permits. */
  ghost predicate IssuesOnlyNarrower(eff: seq<Scope>) {
    forall user: User, req: SysRequest, canRecord: bool, action: string, opts: Opts ::
      (&& user.scopesV2 == Some(eff) && SysGranted(user, req, canRecord) && opts != BARE
       && CheckScopesV2(Decoded(Normalized(req.scopes)), action, opts)) ==> CheckScopesV2(eff, action, opts)
  }

  ghost function Everything(): iset<(string, Opts)> {
    iset x: (string, Opts) | Always(x)
  }

  predicate Always(x: (string, Opts)) { true }

  function Request(a: string, h: string): SysRequest {
    SysRequest("sub", 60.0, ["fso"], None, [XorScope(OneAction(a), OnePath(h))])
  }

  lemma CodedAction1(a: string)
    requires ActionCode1(a).Some?
    ensures a != "" && !EndsWithTwoStars(a)
  {
  }

  lemma CodedAction2(a: string)
    requires ActionCode2(a).Some?
    ensures a != "" && !EndsWithTwoStars(a)
  {
  }

  lemma CodedAction3(a: string)
    requires ActionCode3(a).Some?
    ensures a != "" && !EndsWithTwoStars(a)
  {
  }

  lemma CodedAction(a: string)
    requires ActionCode(a).Some?
    ensures a != "" && !EndsWithTwoStars(a)
  {
    hide ActionCode1, ActionCode2, ActionCode3;
    if ActionCode1(a).Some? {
      CodedAction1(a);
    } else if ActionCode2(a).Some? {
      CodedAction2(a);
    } else {
      CodedAction3(a);
    }
  }

  lemma RequestIsWellFormed(a: string, h: string)
    requires a != "" && h != ""
    ensures MatchesSysRequest(Request(a, h))
  {
    assert forall c | c in "sub" :: Lower(c);
  }

  /** Scopes with one more glob `p` for action `a`. */
  function WithGlob(others: seq<Scope>, a: string, p: string): seq<Scope> {
    others + [Scope([a], Some([p]), None)]
  }

  lemma WithGlobPermits(others: seq<Scope>, a: string, p: string, action: string, opts: Opts)
    ensures CheckScopesV2(WithGlob(others, a, p), action, opts) <==>
            CheckScopesV2(others, action, opts) || ScopeMatches(Scope([a], Some([p]), None), action, opts)
  {
    hide ScopeMatches;
    var eff := WithGlob(others, a, p);
    assert eff[|others|] == Scope([a], Some([p]), None);
    assert forall sc :: sc in eff <==> sc in others || sc == Scope([a], Some([p]), None);
  }

  /** The operation on the path before the two stars. */
  function Widened(p: string): Opts
    requires EndsWithTwoStars(p)
  {
    Opts(Some(p[..|p| - 2]), None)
  }

  lemma TwoStarsMatch(a: string, p: string)
    requires EndsWithTwoStars(p)
    ensures |p| >= 2 && ScopeMatches(Scope([a], Some([p]), None), a, Opts(Some(p[..|p| - 1]), None))
    ensures !ScopeMatches(Scope([a], Some([p]), None), a, Widened(p))
  {
    GlobMatchesItself(a);
    assert a in [a] && p in [p];
    assert GlobMatches(p, p[..|p| - 1]) && !GlobMatches(p, p[..|p| - 2]);
  }

  /** A user may issue system tokens and has a glob `p` for action `a` that ends with two
      stars.  The user gets a token for `p` without its last star, and the token permits the
      operation on the path before the stars, which the glob does not. */
  lemma TwoStarsAreWidened(user: User, others: seq<Scope>, a: string, p: string)
    requires user.scopesV2 == Some(WithGlob(others, a, p)) && (forall x :: x in user.policy)
    requires CheckScopesV2(others, "fso/issue-sys-token", ROOT) && ActionCode(a).Some? && EndsWithTwoStars(p)
    ensures var req := Request(a, p[..|p| - 1]);
            && SysGranted(user, req, false)
            && TokenScopes(Normalized(req.scopes)) == Some(Decoded(Normalized(req.scopes)))
            && CheckScopesV2(Decoded(Normalized(req.scopes)), a, Widened(p))
            && (CheckScopesV2(user.scopesV2.value, a, Widened(p)) <==> CheckScopesV2(others, a, Widened(p)))
  {
    TwoStarsMatch(a, p);
    hide ActionCode, ScopeMatches, SysGranted, CheckScopesV2, WithGlob, TokenScopes;
    WidenedIsGranted(user, others, a, p);
    WidenedToken(a, p);
    WithGlobPermits(others, a, p, a, Widened(p));
  }

  lemma WidenedIsGranted(user: User, others: seq<Scope>, a: string, p: string)
    requires user.scopesV2 == Some(WithGlob(others, a, p)) && (forall x :: x in user.policy)
    requires CheckScopesV2(others, "fso/issue-sys-token", ROOT) && ActionCode(a).Some? && EndsWithTwoStars(p)
    ensures SysGranted(user, Request(a, p[..|p| - 1]), false)
  {
    TwoStarsMatch(a, p);
    hide ActionCode, ScopeMatches, SysGranted, CheckScopesV2, WithGlob, Request, EndsWithTwoStars, Widened;
    var h := p[..|p| - 1];
    OthersStillPermit(user, others, a, p, "fso/issue-sys-token", ROOT);
    WithGlobPermits(others, a, p, a, Opts(Some(h), None));
    assert TestAccess(user, a, Opts(Some(h), None));
    hide TestAccess;
    RequestIsGranted(user, a, h);
  }

  lemma OthersStillPermit(user: User, others: seq<Scope>, a: string, p: string, action: string, opts: Opts)
    requires user.scopesV2 == Some(WithGlob(others, a, p)) && (forall x :: x in user.policy)
    requires CheckScopesV2(others, action, opts)
    ensures TestAccess(user, action, opts)
  {
    hide ScopeMatches, CheckScopesV2, WithGlob;
    WithGlobPermits(others, a, p, action, opts);
  }

  lemma WidenedToken(a: string, p: string)
    requires ActionCode(a).Some? && EndsWithTwoStars(p)
    ensures var scopes := Normalized(Request(a, p[..|p| - 1]).scopes);
            TokenScopes(scopes) == Some(Decoded(scopes)) && CheckScopesV2(Decoded(scopes), a, Widened(p))
  {
    hide ActionCode, CheckScopesV2, TokenScopes;
    var h := p[..|p| - 1];
    var sc := NormalizeXorScope(XorScope(OneAction(a), OnePath(h)));
    assert Normalized(Request(a, h).scopes) == [sc];
    assert Joined(None, Some([a])) == [a];
    WidenedIsPermitted(a, p, sc);
    OneScopeCompiles(sc);
    TokenScopesAreDecoded([sc]);
  }

  lemma WidenedIsPermitted(a: string, p: string, sc: LongScope)
    requires EndsWithTwoStars(p) && sc == NormalizeXorScope(XorScope(OneAction(a), OnePath(p[..|p| - 1])))
    ensures CheckScopesV2(Decoded([sc]), a, Widened(p))
  {
    var h, x := p[..|p| - 1], p[..|p| - 2];
    GlobMatchesItself(a);
    assert h[..|h| - 1] == x;
    assert GlobMatches(h, x);
    assert Joined(None, Some([a])) == [a] && Joined(None, Some([h])) == [h];
    var t := Scope([a], Some([h]), None);
    assert DecodedScope(sc) == t;
    assert a in t.actions && h in t.paths.value;
    assert ScopeMatches(t, a, Opts(Some(x), None));
    assert Decoded([sc])[0] == t;
  }

  lemma OneScopeCompiles(sc: LongScope)
    requires HaveCodes(Joined(sc.action, sc.actions))
    ensures CompileAll([sc]).Some?
  {
    hide ActionCode;
    assert [sc][..0] == [];
  }

  lemma SinglePairAllowed(user: User, a: string, h: string)
    requires TestAccess(user, a, Opts(Some(h), None)) && ActionCode(a).Some?
    ensures var sc := NormalizeXorScope(XorScope(OneAction(a), OnePath(h)));
            PairsAllowed(user, sc) && HaveCodes(Joined(None, sc.actions))
  {
    hide ActionCode, TestAccess;
    var sc := NormalizeXorScope(XorScope(OneAction(a), OnePath(h)));
    assert Joined(None, sc.actions) == [a] && Joined(None, sc.paths) == [h] && Joined(None, sc.names) == [];
  }

  lemma RequestIsGranted(user: User, a: string, h: string)
    requires TestAccess(user, "fso/issue-sys-token", ROOT) && TestAccess(user, a, Opts(Some(h), None))
    requires user.scopesV2.Some? && ActionCode(a).Some? && h != ""
    ensures SysGranted(user, Request(a, h), false)
  {
    CodedAction(a);
    hide ActionCode, TestAccess, PairsAllowed, HaveCodes, Joined, NormalizeXorScope;
    RequestIsWellFormed(a, h);
    hide MatchesSysRequest;
    SinglePairAllowed(user, a, h);
  }

  /** For a user who may issue system tokens, whose other scopes have no two-star glob and do
      not permit the widened operation: issued tokens are narrower if and only if the glob
      does not end with two stars. */
  lemma IssuesOnlyNarrowerExactly(others: seq<Scope>, a: string, p: string)
    requires GlobsOk(others) && CheckScopesV2(others, "fso/issue-sys-token", ROOT) && ActionCode(a).Some?
    requires EndsWithTwoStars(p) ==> !CheckScopesV2(others, a, Widened(p))
    ensures IssuesOnlyNarrower(WithGlob(others, a, p)) <==> !EndsWithTwoStars(p)
  {
    CodedAction(a);
    hide ActionCode, CheckScopesV2;
    var eff := WithGlob(others, a, p);
    if EndsWithTwoStars(p) {
      var user := User(Everything(), Some(eff));
      TwoStarsAreWidened(user, others, a, p);
    } else {
      WithGlobIsOk(others, a, p);
      hide GlobsOk, WithGlob, SysGranted;
      forall user: User, req: SysRequest, canRecord: bool, action: string, opts: Opts |
        user.scopesV2 == Some(eff) && SysGranted(user, req, canRecord) && opts != BARE &&
        CheckScopesV2(Decoded(Normalized(req.scopes)), action, opts)
        ensures CheckScopesV2(eff, action, opts)
      {
        GrantedIsIssuable(user, req, canRecord);
        SysTokenNarrows(user, Normalized(req.scopes), action, opts);
      }
    }
  }

  lemma WithGlobIsOk(others: seq<Scope>, a: string, p: string)
    requires GlobsOk(others) && !EndsWithTwoStars(a) && !EndsWithTwoStars(p)
    ensures GlobsOk(WithGlob(others, a, p))
  {
  }

  /** What bearer authentication demands; wildcards do not count. */
  predicate ApiInScopes(scopes: seq<Scope>) {
    exists sc :: sc in scopes && "api" in sc.actions
  }

  /** Scopes that bearer authentication admits and that permit issuing system tokens. */
  function IssuerScopes(): seq<Scope> {
    [Scope(["api", "fso/issue-sys-token"], Some(["/"]), None)]
  }

  /** An admitted user with the further glob `/a**` for reading repos gets a token that permits
      reading `/a`, which the scopes of the user deny. */
  lemma AdmittedUserWidens(user: User)
    requires user.scopesV2 == Some(WithGlob(IssuerScopes(), "fso/read-repo", "/a**")) && (forall x :: x in user.policy)
    ensures ApiInScopes(user.scopesV2.value)
    ensures var req := Request("fso/read-repo", "/a*");
            && SysGranted(user, req, false)
            && CheckScopesV2(Decoded(Normalized(req.scopes)), "fso/read-repo", Opts(Some("/a"), None))
            && !CheckScopesV2(user.scopesV2.value, "fso/read-repo", Opts(Some("/a"), None))
  {
    var others, p := IssuerScopes(), "/a**";
    IssuerIsAdmitted("fso/read-repo", p);
    assert p[..|p| - 1] == "/a*" && p[..|p| - 2] == "/a";
    assert Widened(p) == Opts(Some("/a"), None);
    CodedRead();
    hide ActionCode, CheckScopesV2, SysGranted;
    TwoStarsAreWidened(user, others, "fso/read-repo", p);
  }

  lemma CodedRead()
    ensures ActionCode("fso/read-repo").Some?
  {
    assert ActionCode3("fso/read-repo").Some?;
  }

  lemma IssuerIsAdmitted(a: string, p: string)
    ensures ApiInScopes(WithGlob(IssuerScopes(), a, p))
    ensures CheckScopesV2(IssuerScopes(), "fso/issue-sys-token", ROOT)
    ensures !CheckScopesV2(IssuerScopes(), "fso/read-repo", Opts(Some("/a"), None))
  {
    var eff := WithGlob(IssuerScopes(), a, p);
    var sc := Scope(["api", "fso/issue-sys-token"], Some(["/"]), None);
    assert eff[0] == sc && sc.actions[0] == "api";
    assert IssuerScopes()[0] == sc;
    assert sc.actions[1] == "fso/issue-sys-token" && sc.actions[1] in sc.actions && "/" in ["/"];
    GlobMatchesItself("fso/issue-sys-token");
    GlobMatchesItself("/");
    assert ScopeMatches(sc, "fso/issue-sys-token", ROOT);
    assert !GlobMatches("/", "/a");
    assert !ScopeMatches(sc, "fso/read-repo", Opts(Some("/a"), None));
  }
}
