/**
 * The authorization rule table of `securityFilterChain`: an ordered list of
 * path matchers, each with an access rule, where the first rule whose matcher
 * accepts the request path decides, and `anyRequest().authenticated()` closes
 * the list.
 */
module ProjectSecurityConfig {
  import opened Wrappers
  import opened JavaText
  import opened UserEntity

  /**
   * A request-matcher pattern: a literal path, or a base path followed by the
   * double-star wildcard, which accepts the base itself and every path below it.
   */
  datatype Pattern = Exact(path: string) | Subtree(base: string)

  predicate Matches(pat: Pattern, path: string) {
    match pat
    case Exact(p) => path == p
    case Subtree(b) => path == b || StartsWith(path, b + "/")
  }

  /** `permitAll()`, `hasRole(role)`, `authenticated()` */
  datatype Access = PermitAll | HasRole(role: string) | Authenticated

  /** One `requestMatchers(...).<access>` line. */
  datatype Rule = Rule(patterns: seq<Pattern>, access: Access)

  predicate RuleMatches(rule: Rule, path: string) {
    exists i :: 0 <= i < |rule.patterns| && Matches(rule.patterns[i], path)
  }

  const PublicPatterns: seq<Pattern> := [
    Exact("/api/v1/auth/login"),
    Exact("/api/v1/auth/signup"),
    Exact("/api/v1/auth/refresh"),
    Exact("/api/v1/auth/reset-password"),
    Subtree("/api/files"),
    Subtree("/api/v1/categories"),
    Subtree("/api/v1/products"),
    Subtree("/api/v1/home")]

  const AdminPatterns: seq<Pattern> := [Exact("/api/invoices"), Exact("/api/suppliers")]

  const AdminRole: string := "ADMIN"

  /** The table in declaration order; `anyRequest()` is the fallback of `Decide`. */
  const Rules: seq<Rule> := [Rule(PublicPatterns, PermitAll), Rule(AdminPatterns, HasRole(AdminRole))]

  /** The first index whose rule matches `path`. */
  predicate FirstMatch(rules: seq<Rule>, path: string, i: int) {
    0 <= i < |rules| && RuleMatches(rules[i], path) &&
    forall j :: 0 <= j < i ==> !RuleMatches(rules[j], path)
  }

  /** First match wins; no match falls to `anyRequest().authenticated()`. */
  function Decide(rules: seq<Rule>, path: string): (r: Access)
    ensures forall i :: FirstMatch(rules, path, i) ==> r == rules[i].access
    ensures (forall i :: 0 <= i < |rules| ==> !RuleMatches(rules[i], path)) ==> r == Authenticated
  {
    if |rules| == 0 then Authenticated
    else if RuleMatches(rules[0], path) then rules[0].access
    else
      var r := Decide(rules[1..], path);
      assert forall i :: 0 < i < |rules| ==> rules[1..][i - 1] == rules[i];
      assert forall i :: FirstMatch(rules, path, i) ==> FirstMatch(rules[1..], path, i - 1);
      r
  }

  /** The access rule the configured table assigns to `path`. */
  function AccessFor(path: string): Access {
    Decide(Rules, path)
  }

  /** The paths reachable without credentials, stated directly. */
  predicate PublicPath(path: string) {
    path == "/api/v1/auth/login" || path == "/api/v1/auth/signup" ||
    path == "/api/v1/auth/refresh" || path == "/api/v1/auth/reset-password" ||
    path == "/api/files" || StartsWith(path, "/api/files/") ||
    path == "/api/v1/categories" || StartsWith(path, "/api/v1/categories/") ||
    path == "/api/v1/products" || StartsWith(path, "/api/v1/products/") ||
    path == "/api/v1/home" || StartsWith(path, "/api/v1/home/")
  }

  /** A path that differs from `p` at index `k` does not start with `p`. */
  lemma DiffersAt(path: string, p: string, k: nat)
    requires k < |path| && k < |p| && path[k] != p[k]
    ensures !StartsWith(path, p)
  {
  }

  /** A path under `/api/` whose next segment begins with neither 'f' nor 'v' is not public. */
  lemma NotPublicBySegment(path: string)
    requires |path| > 5 && path[..5] == "/api/" && path[5] != 'f' && path[5] != 'v'
    ensures !PublicPath(path)
  {
    DiffersAt(path, "/api/files/", 5);
    DiffersAt(path, "/api/v1/categories/", 5);
    DiffersAt(path, "/api/v1/products/", 5);
    DiffersAt(path, "/api/v1/home/", 5);
    assert path[5] == path[..6][5];
  }

  /** A path under `/api/v1/` whose next segment begins with 'a' is public only at the four auth endpoints. */
  lemma NotPublicUnderVersion(path: string)
    requires |path| > 8 && path[..8] == "/api/v1/" && path[8] == 'a'
    requires path !in ["/api/v1/auth/login", "/api/v1/auth/signup", "/api/v1/auth/refresh", "/api/v1/auth/reset-password"]
    ensures !PublicPath(path)
  {
    DiffersAt(path, "/api/files/", 5);
    DiffersAt(path, "/api/v1/categories/", 8);
    DiffersAt(path, "/api/v1/products/", 8);
    DiffersAt(path, "/api/v1/home/", 8);
    assert path[5] == path[..8][5];
  }

  lemma PublicPatternsMatch(path: string)
    ensures RuleMatches(Rules[0], path) <==> PublicPath(path)
  {
    var ps := PublicPatterns;
    if PublicPath(path) {
      if path == "/api/v1/auth/login" { assert Matches(ps[0], path); }
      else if path == "/api/v1/auth/signup" { assert Matches(ps[1], path); }
      else if path == "/api/v1/auth/refresh" { assert Matches(ps[2], path); }
      else if path == "/api/v1/auth/reset-password" { assert Matches(ps[3], path); }
      else if path == "/api/files" || StartsWith(path, "/api/files/") { assert Matches(ps[4], path); }
      else if path == "/api/v1/categories" || StartsWith(path, "/api/v1/categories/") { assert Matches(ps[5], path); }
      else if path == "/api/v1/products" || StartsWith(path, "/api/v1/products/") { assert Matches(ps[6], path); }
      else { assert Matches(ps[7], path); }
    }
  }

  /** Exactly the auth endpoints and the four public subtrees are open to everyone. */
  lemma PermitAllIffPublic(path: string)
    ensures AccessFor(path) == PermitAll <==> PublicPath(path)
  {
    PublicPatternsMatch(path);
    assert FirstMatch(Rules, path, 0) <==> PublicPath(path);
    if !PublicPath(path) && RuleMatches(Rules[1], path) {
      assert FirstMatch(Rules, path, 1);
    }
  }

  /** Exactly `/api/invoices` and `/api/suppliers` need the ADMIN role. */
  lemma AdminIffInvoicesOrSuppliers(path: string)
    ensures AccessFor(path) == HasRole(AdminRole) <==> path == "/api/invoices" || path == "/api/suppliers"
  {
    PublicPatternsMatch(path);
    if path == "/api/invoices" || path == "/api/suppliers" {
      NotPublicBySegment(path);
      assert Matches(AdminPatterns[if path == "/api/invoices" then 0 else 1], path);
      assert FirstMatch(Rules, path, 1);
    } else if PublicPath(path) {
      assert FirstMatch(Rules, path, 0);
    } else {
      assert !RuleMatches(Rules[1], path);
    }
  }

  /** Everything else needs only an authenticated principal. */
  lemma AuthenticatedOtherwise(path: string)
    ensures AccessFor(path) == Authenticated <==>
      !PublicPath(path) && path != "/api/invoices" && path != "/api/suppliers"
  {
    PermitAllIffPublic(path);
    AdminIffInvoicesOrSuppliers(path);
  }

  /** The ADMIN rule is not a subtree rule: a nested invoice path needs only authentication. */
  lemma NestedInvoicePathAuthenticated()
    ensures AccessFor("/api/invoices/5") == Authenticated
  {
    NotPublicBySegment("/api/invoices/5");
    AuthenticatedOtherwise("/api/invoices/5");
  }

  /** Logout and the token clean-up endpoints are not public, and not admin-only either. */
  lemma LogoutNeedsAuthentication()
    ensures AccessFor("/api/v1/auth/logout") == Authenticated
    ensures AccessFor("/api/v1/admin/token-cleanup/all") == Authenticated
  {
    NotPublicUnderVersion("/api/v1/auth/logout");
    AuthenticatedOtherwise("/api/v1/auth/logout");
    NotPublicUnderVersion("/api/v1/admin/token-cleanup/all");
    AuthenticatedOtherwise("/api/v1/admin/token-cleanup/all");
  }

  /** What the authorization filter decides for one request. */
  datatype Decision =
    | Granted
    | Unauthenticated  // no principal: the authentication entry point answers
    | Denied           // a principal without the authority: the access-denied handler answers

  /**
   * The decision for `path` given the principal's authorities, `None` when the
   * JWT filter set no authentication. `hasRole(r)` tests the authority `"ROLE_" + r`.
   */
  function Authorize(path: string, principal: Option<seq<string>>): (r: Decision)
    ensures PublicPath(path) ==> r == Granted
    ensures !PublicPath(path) && principal.None? ==> r == Unauthenticated
    ensures r == Denied <==>
      principal.Some? && (path == "/api/invoices" || path == "/api/suppliers") &&
      AuthorityPrefix + AdminRole !in principal.value
  {
    PermitAllIffPublic(path);
    AdminIffInvoicesOrSuppliers(path);
    match AccessFor(path)
    case PermitAll => Granted
    case Authenticated => if principal.Some? then Granted else Unauthenticated
    case HasRole(role) =>
      if principal.None? then Unauthenticated
      else if AuthorityPrefix + role in principal.value then Granted
      else Denied
  }

  /** A signed-in user reaches the admin paths exactly when the ADMIN role is in the user's list. */
  lemma AdminPathNeedsAdminRole(path: string, user: User)
    requires path == "/api/invoices" || path == "/api/suppliers"
    ensures Authorize(path, Some(Authorities(user.roles))) == Granted <==> AdminRole in user.roles
  {
    AuthorityIffRole(user.roles, AdminRole);
  }
}
