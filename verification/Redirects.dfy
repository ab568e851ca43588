/** The web middleware as a step from a session and a path to what happens to the request.
    Query strings are carried along by the middleware and play no part in its decisions. */
module Redirects {
  import opened Results

  datatype Role = SuperAdmin | Admin | Guardian | Student | Alumni | Other

  datatype Session =
    | Anonymous
    | SignedIn(role: Role, allPermissions: bool, termsAccepted: bool, forcePasswordChange: bool)

  /** The page is served as asked, served from another path, or asked for again elsewhere. */
  datatype Outcome = Serve | Rewrite(path: string) | Redirect(path: string)

  const DASHBOARD := "/dashboard"
  const GUARDIAN_HOME := DASHBOARD + "/guardian/dashboard"
  const ALUMNI_HOME := DASHBOARD + "/alumni/home"
  const CHANGE_PASSWORD := "/change-password"

  const PEOPLE: seq<string> := ["/students", "/admissions", "/billing", "/entities", "/finance", "/lms", "/teach"]
  const OFFICES: seq<string> := ["/settings", "/workflow", "/staff", "/guardian", "/registrar", "/admin", "/alumni"]
  const CAMPUS: seq<string> := ["/courses", "/meetings", "/elections", "/sports", "/enrollment", "/attendance", "/notifications"]
  const OWN: seq<string> := ["/my-courses", "/my-attendance", "/my-documents", "/my-finance", "/my-grades", "/register-courses"]

  const EXTENSIONS: seq<string> :=
    [".ico", ".png", ".jpg", ".jpeg", ".svg", ".webp", ".gif", ".txt", ".xml", ".webmanifest"]

  predicate MatchesPrefix(path: string, prefix: string) { path == prefix || prefix + "/" <= path }

  predicate MatchesAny(path: string, prefixes: seq<string>) {
    exists i :: 0 <= i < |prefixes| && MatchesPrefix(path, prefixes[i])
  }

  function Lower(c: char): char { if 'A' <= c <= 'Z' then c - 'A' + 'a' else c }

  predicate SameFromEnd(path: string, ending: string, i: nat)
    requires i < |ending| <= |path|
  {
    Lower(path[|path| - |ending| + i]) == ending[i]
  }

  predicate EndsWithIgnoringCase(path: string, ending: string) {
    |ending| <= |path| && forall i :: 0 <= i < |ending| ==> SameFromEnd(path, ending, i)
  }

  predicate IsAsset(path: string) {
    exists i :: 0 <= i < |EXTENSIONS| && EndsWithIgnoringCase(path, EXTENSIONS[i])
  }

  predicate IsPublicPath(path: string) {
    || "/api/auth" <= path || "/_next" <= path || path == "/favicon.ico" || IsAsset(path)
    || MatchesPrefix(path, "/") || MatchesPrefix(path, "/login") || MatchesPrefix(path, "/register")
    || MatchesPrefix(path, "/terms") || MatchesPrefix(path, "/forgot-password")
  }

  /** The sections that live below the dashboard. */
  predicate ChildPath(path: string) {
    MatchesAny(path, PEOPLE) || MatchesAny(path, OFFICES) || MatchesAny(path, CAMPUS) || MatchesAny(path, OWN)
  }

  function LegacyDashboardPath(path: string): Option<string> {
    if ChildPath(path) then Some(DASHBOARD + path) else None
  }

  function DashboardRewritePath(path: string): Option<string> {
    if !(DASHBOARD + "/" <= path) then None
    else if ChildPath(path[|DASHBOARD|..]) then Some(path[|DASHBOARD|..]) else None
  }

  predicate PlatformPath(path: string) {
    || MatchesPrefix(path, "/admin/registration-requests") || MatchesPrefix(path, "/admin/institutions")
    || MatchesPrefix(path, "/admin/billing")
  }

  predicate AlumniPortalPath(path: string) {
    || MatchesPrefix(path, "/alumni/home") || MatchesPrefix(path, "/alumni/events")
    || MatchesPrefix(path, "/alumni/jobs") || MatchesPrefix(path, "/alumni/profile")
  }

  predicate TenantManagementPath(path: string) {
    MatchesPrefix(path, "/admin") || MatchesPrefix(path, "/students") || MatchesPrefix(path, "/staff")
  }

  function RoleRedirect(role: Role, path: string, scopedPath: string): Option<string> {
    if CHANGE_PASSWORD <= path then None
    else if role == SuperAdmin then
      if path == DASHBOARD || PlatformPath(scopedPath) then None else Some(DASHBOARD)
    else if MatchesPrefix(scopedPath, "/admin") then
      if PlatformPath(scopedPath) then Some(DASHBOARD) else if role == Admin then None else Some(DASHBOARD)
    else match role
      case Guardian => if path == DASHBOARD || TenantManagementPath(scopedPath) then Some(GUARDIAN_HOME) else None
      case Student =>
        if TenantManagementPath(scopedPath) || MatchesPrefix(scopedPath, "/guardian") then Some(DASHBOARD) else None
      case Alumni =>
        if path == DASHBOARD then Some(ALUMNI_HOME)
        else if MatchesPrefix(scopedPath, "/alumni") && !AlumniPortalPath(scopedPath) then Some(ALUMNI_HOME)
        else if TenantManagementPath(scopedPath) then Some(ALUMNI_HOME) else None
      case _ => None
  }

  function ScopedPath(path: string): string { DashboardRewritePath(path).GetOr(path) }

  /** Sign-in, terms and a forced password change, in that order. */
  function Gate(session: Session, path: string): Option<string> {
    if session.Anonymous? then Some("/login")
    else if !session.allPermissions && !session.termsAccepted then Some("/terms")
    else if session.forcePasswordChange && !(CHANGE_PASSWORD <= path) then Some(CHANGE_PASSWORD)
    else None
  }

  function Step(session: Session, path: string): Outcome {
    if IsPublicPath(path) then Serve
    else if Gate(session, path).Some? then Redirect(Gate(session, path).value)
    else if RoleRedirect(session.role, path, ScopedPath(path)).Some?
    then Redirect(RoleRedirect(session.role, path, ScopedPath(path)).value)
    else if LegacyDashboardPath(path).Some? then Redirect(LegacyDashboardPath(path).value)
    else if DashboardRewritePath(path).Some? then Rewrite(DashboardRewritePath(path).value)
    else Serve
  }

  /** The last path asked for, and what came of it, after at most n redirects. */
  function Follow(session: Session, path: string, n: nat): (string, Outcome)
    decreases n
  {
    var outcome := Step(session, path);
    if outcome.Redirect? && n > 0 then Follow(session, outcome.path, n - 1) else (path, outcome)
  }

  // ---- what the section names have in common -----------------------------------------------

  /** Read off the first characters: no section is a public page, the dashboard itself or the
      password page. */
  predicate SectionLike(p: string) {
    && |p| >= 4 && p[0] == '/' && p[1] != '/' && p[1] != '_' && p[1] != 'd'
    && !(p[1] == 'c' && p[2] == 'h') && !(p[1] == 'a' && p[2] == 'p') && !(p[1] == 'l' && p[2] == 'o')
    && !(p[1] == 'f' && p[2] != 'i') && !(p[1] == 't' && p[2] == 'e' && p[3] == 'r')
    && (p[1] == 'r' && p[2] == 'e' && p[3] == 'g' ==> |p| >= 10 && (p[7] != 'e' || p[9] == '-'))
  }

  predicate AllSectionLike(prefixes: seq<string>) {
    forall i :: 0 <= i < |prefixes| ==> SectionLike(prefixes[i])
  }

  lemma PeopleSections()
    ensures AllSectionLike(PEOPLE)
  {
  }

  lemma OfficeSections()
    ensures AllSectionLike(OFFICES)
  {
  }

  lemma CampusSections()
    ensures AllSectionLike(CAMPUS)
  {
  }

  lemma OwnSections()
    ensures AllSectionLike(OWN)
  {
  }

  lemma BelowSection(path: string, prefixes: seq<string>)
    requires MatchesAny(path, prefixes) && AllSectionLike(prefixes)
    ensures SectionLike(path)
  {
    var i :| 0 <= i < |prefixes| && MatchesPrefix(path, prefixes[i]);
    assert prefixes[i] <= path;
    var q := prefixes[i];
    assert forall k :: 0 <= k < |q| ==> path[k] == q[k];
  }

  lemma ChildIsSection(path: string)
    requires ChildPath(path)
    ensures SectionLike(path)
  {
    PeopleSections();
    OfficeSections();
    CampusSections();
    OwnSections();
    if MatchesAny(path, PEOPLE) { BelowSection(path, PEOPLE); }
    if MatchesAny(path, OFFICES) { BelowSection(path, OFFICES); }
    if MatchesAny(path, CAMPUS) { BelowSection(path, CAMPUS); }
    if MatchesAny(path, OWN) { BelowSection(path, OWN); }
  }

  lemma BelowDashboard(path: string)
    ensures DASHBOARD + "/" <= DASHBOARD + path <==> path != "" && path[0] == '/'
    ensures (DASHBOARD + path)[|DASHBOARD|..] == path
  {
    if path != "" { assert (DASHBOARD + path)[|DASHBOARD|] == path[0]; }
    if path != "" && path[0] == '/' {
      assert DASHBOARD + path == DASHBOARD + "/" + path[1..];
    }
  }

  /** The two path maps undo each other. */
  lemma PathMapsInverse(path: string, deep: string)
    ensures LegacyDashboardPath(path) == Some(deep) <==> DashboardRewritePath(deep) == Some(path)
  {
    BelowDashboard(path);
    if LegacyDashboardPath(path) == Some(deep) { ChildIsSection(path); }
    if DashboardRewritePath(deep) == Some(path) {
      assert deep[..|DASHBOARD|] == DASHBOARD;
      assert deep == deep[..|DASHBOARD|] + deep[|DASHBOARD|..];
    }
  }

  lemma CommonCharacter(path: string, prefix: string, k: nat)
    requires k < |prefix|
    ensures prefix <= path || MatchesPrefix(path, prefix) ==> k < |path| && path[k] == prefix[k]
  {
    assert (prefix + "/")[k] == prefix[k];
  }

  lemma NextSlash(path: string, prefix: string)
    ensures MatchesPrefix(path, prefix) ==> path == prefix || (|path| > |prefix| && path[|prefix|] == '/')
  {
    assert (prefix + "/")[|prefix|] == '/';
  }

  lemma FirstDifference(path: string, prefix: string, k: nat)
    requires k < |prefix| && (k < |path| ==> path[k] != prefix[k])
    ensures !(prefix <= path) && !MatchesPrefix(path, prefix)
  {
    CommonCharacter(path, prefix, k);
  }

  lemma NotRoot(path: string)
    requires SectionLike(path)
    ensures !MatchesPrefix(path, "/")
  {
    NextSlash(path, "/");
  }

  lemma NotRegister(path: string)
    requires SectionLike(path)
    ensures !MatchesPrefix(path, "/register")
  {
    var register := "/register";
    NextSlash(path, register);
    CommonCharacter(path, register, 1);
    CommonCharacter(path, register, 2);
    CommonCharacter(path, register, 3);
    CommonCharacter(path, register, 7);
  }

  lemma SectionOnlyPublicAsAsset(path: string)
    requires SectionLike(path)
    ensures IsPublicPath(path) <==> IsAsset(path)
  {
    FirstDifference(path, "/api/auth", if path[1] == 'a' then 2 else 1);
    FirstDifference(path, "/_next", 1);
    FirstDifference(path, "/favicon.ico", if path[1] == 'f' then 2 else 1);
    FirstDifference(path, "/login", if path[1] == 'l' then 2 else 1);
    FirstDifference(path, "/terms", if path[1] != 't' then 1 else if path[2] != 'e' then 2 else 3);
    FirstDifference(path, "/forgot-password", if path[1] == 'f' then 2 else 1);
    NotRoot(path);
    NotRegister(path);
  }

  lemma DashboardOnlyPublicAsAsset(path: string)
    requires DASHBOARD <= path
    ensures IsPublicPath(path) <==> IsAsset(path)
  {
    assert path[1] == 'd';
    FirstDifference(path, "/api/auth", 1);
    FirstDifference(path, "/_next", 1);
    FirstDifference(path, "/favicon.ico", 1);
    NextSlash(path, "/");
    FirstDifference(path, "/login", 1);
    FirstDifference(path, "/register", 1);
    FirstDifference(path, "/terms", 1);
    FirstDifference(path, "/forgot-password", 1);
  }

  // ---- a section and its dashboard address ---------------------------------------------------

  predicate NoSlash(s: string) { forall i :: 0 <= i < |s| ==> s[i] != '/' }

  lemma ExtensionsNoSlash()
    ensures forall i :: 0 <= i < |EXTENSIONS| ==> NoSlash(EXTENSIONS[i])
  {
  }

  /** An ending without a slash lies wholly after the last slash. */
  lemma EndingAfterSlash(front: string, path: string, ending: string)
    requires path != "" && path[0] == '/' && NoSlash(ending)
    ensures EndsWithIgnoringCase(front + path, ending) <==> EndsWithIgnoringCase(path, ending)
  {
    var whole := front + path;
    if |ending| <= |path| {
      forall i | 0 <= i < |ending| ensures SameFromEnd(whole, ending, i) == SameFromEnd(path, ending, i) {
      }
    } else {
      assert |ending| <= |whole| ==> !SameFromEnd(whole, ending, |ending| - |path|);
    }
  }

  lemma AssetBelowDashboard(path: string)
    requires path != "" && path[0] == '/'
    ensures IsAsset(DASHBOARD + path) <==> IsAsset(path)
  {
    ExtensionsNoSlash();
    forall i | 0 <= i < |EXTENSIONS|
      ensures EndsWithIgnoringCase(DASHBOARD + path, EXTENSIONS[i]) <==> EndsWithIgnoringCase(path, EXTENSIONS[i])
    {
      EndingAfterSlash(DASHBOARD, path, EXTENSIONS[i]);
    }
  }

  lemma NotPasswordPage(path: string)
    requires SectionLike(path) || DASHBOARD <= path
    ensures !(CHANGE_PASSWORD <= path)
  {
    if !SectionLike(path) { assert path[1] == 'd'; }
    FirstDifference(path, CHANGE_PASSWORD, if path[1] == 'c' then 2 else 1);
  }

  lemma SectionNotDashboard(path: string)
    requires SectionLike(path)
    ensures path != DASHBOARD && !(DASHBOARD + "/" <= path)
  {
    FirstDifference(path, DASHBOARD, 1);
    CommonCharacter(path, DASHBOARD + "/", 1);
  }

  lemma DashboardNoSection(path: string)
    requires DASHBOARD <= path
    ensures !ChildPath(path)
  {
    assert path[1] == 'd';
    if ChildPath(path) { ChildIsSection(path); }
  }

  /** A role is treated alike at a section and at its dashboard address. */
  lemma RoleRedirectSame(role: Role, path: string)
    requires ChildPath(path)
    ensures ScopedPath(path) == ScopedPath(DASHBOARD + path) == path
    ensures RoleRedirect(role, path, path) == RoleRedirect(role, DASHBOARD + path, path)
  {
    ChildIsSection(path);
    BelowDashboard(path);
    NotPasswordPage(path);
    NotPasswordPage(DASHBOARD + path);
    SectionNotDashboard(path);
  }

  /** A section's own address is nothing but a way to its dashboard address: whatever would be
      served from there is asked for there, and every other answer is the same. */
  lemma CanonicalAgrees(session: Session, path: string)
    requires ChildPath(path)
    ensures Step(session, path)
            == match Step(session, DASHBOARD + path)
               case Serve => Serve
               case Redirect(elsewhere) => Redirect(elsewhere)
               case Rewrite(_) => Redirect(DASHBOARD + path)
    ensures Step(session, DASHBOARD + path).Rewrite? ==> Step(session, DASHBOARD + path).path == path
    ensures Step(session, path).Serve? <==> IsAsset(path)
  {
    ChildIsSection(path);
    SectionOnlyPublicAsAsset(path);
    DashboardOnlyPublicAsAsset(DASHBOARD + path);
    AssetBelowDashboard(path);
    NotPasswordPage(path);
    NotPasswordPage(DASHBOARD + path);
    PathMapsInverse(path, DASHBOARD + path);
    DashboardNoSection(DASHBOARD + path);
    if !session.Anonymous? { RoleRedirectSame(session.role, path); }
  }

  // ---- every visit settles -----------------------------------------------------------------

  /** What a role may see: the platform's pages are the super administrator's alone, the rest
      of administration the administrator's, and guardians, students and alumni keep to theirs. */
  predicate MayView(role: Role, page: string) {
    match role
    case SuperAdmin => page == DASHBOARD || PlatformPath(page)
    case Admin => !PlatformPath(page)
    case Guardian => page != DASHBOARD && !TenantManagementPath(page)
    case Student => !TenantManagementPath(page) && !MatchesPrefix(page, "/guardian")
    case Alumni =>
      page != DASHBOARD && !TenantManagementPath(page) && (MatchesPrefix(page, "/alumni") ==> AlumniPortalPath(page))
    case Other => !MatchesPrefix(page, "/admin")
  }

  lemma LongerPrefix(path: string, prefix: string, longer: string)
    requires MatchesPrefix(path, longer) && prefix + "/" <= longer
    ensures MatchesPrefix(path, prefix)
  {
    assert longer <= path;
    assert path[..|longer|] == longer;
    assert path[..|prefix + "/"|] == longer[..|prefix + "/"|] == prefix + "/";
  }

  lemma PlatformPrefixes()
    ensures "/admin" + "/" <= "/admin/registration-requests"
    ensures "/admin" + "/" <= "/admin/institutions"
    ensures "/admin" + "/" <= "/admin/billing"
  {
  }

  lemma PlatformIsAdmin(path: string)
    requires PlatformPath(path)
    ensures MatchesPrefix(path, "/admin")
  {
    PlatformPrefixes();
    if MatchesPrefix(path, "/admin/registration-requests") { LongerPrefix(path, "/admin", "/admin/registration-requests"); }
    else if MatchesPrefix(path, "/admin/institutions") { LongerPrefix(path, "/admin", "/admin/institutions"); }
    else { LongerPrefix(path, "/admin", "/admin/billing"); }
  }

  /** A role is sent elsewhere exactly from the pages it may not see. */
  lemma RedirectedExactly(role: Role, path: string)
    requires !(CHANGE_PASSWORD <= path)
    ensures RoleRedirect(role, path, ScopedPath(path)).None? <==> MayView(role, ScopedPath(path))
  {
    var page := ScopedPath(path);
    if PlatformPath(page) { PlatformIsAdmin(page); }
    ScopedDashboard(path);
  }

  lemma ScopedDashboard(path: string)
    ensures ScopedPath(path) == DASHBOARD <==> path == DASHBOARD
  {
    if DashboardRewritePath(path).Some? {
      ChildIsSection(DashboardRewritePath(path).value);
      SectionNotDashboard(DashboardRewritePath(path).value);
    }
    CommonCharacter(DASHBOARD, DASHBOARD + "/", |DASHBOARD|);
  }

  /** The page a request ends up showing. */
  function Shown(path: string, outcome: Outcome): string { if outcome.Rewrite? then outcome.path else path }

  lemma ShownIsScoped(session: Session, path: string)
    requires !IsPublicPath(path) && !Step(session, path).Redirect?
    ensures Shown(path, Step(session, path)) == ScopedPath(path)
  {
  }

  predicate Cleared(session: Session) {
    session.SignedIn? && (session.allPermissions || session.termsAccepted)
  }

  /** Whatever is shown is public, the password page, or a page the signed-in role may see. */
  lemma ShownIsAllowed(session: Session, path: string)
    requires !Step(session, path).Redirect?
    ensures IsPublicPath(path)
            || (Cleared(session) && CHANGE_PASSWORD <= path)
            || (Cleared(session) && !session.forcePasswordChange && MayView(session.role, Shown(path, Step(session, path))))
  {
    if !IsPublicPath(path) && !(CHANGE_PASSWORD <= path) {
      RedirectedExactly(session.role, path);
      ShownIsScoped(session, path);
    }
  }

  lemma GuardianHome()
    ensures ScopedPath(GUARDIAN_HOME) == "/guardian/dashboard" && MayView(Guardian, "/guardian/dashboard")
  {
    var home := "/guardian/dashboard";
    assert OFFICES[3] == "/guardian" && "/guardian" + "/" <= home;
    assert MatchesPrefix(home, OFFICES[3]);
    PathMapsInverse(home, GUARDIAN_HOME);
    FirstDifference(home, "/admin", 1);
    FirstDifference(home, "/students", 1);
    FirstDifference(home, "/staff", 1);
    FirstDifference(home, DASHBOARD, 1);
  }

  lemma AlumniHome()
    ensures ScopedPath(ALUMNI_HOME) == "/alumni/home" && MayView(Alumni, "/alumni/home")
  {
    var home := "/alumni/home";
    assert OFFICES[6] == "/alumni" && "/alumni" + "/" <= home;
    assert MatchesPrefix(home, OFFICES[6]);
    PathMapsInverse(home, ALUMNI_HOME);
    FirstDifference(home, "/admin", 2);
    FirstDifference(home, "/students", 1);
    FirstDifference(home, "/staff", 1);
    FirstDifference(home, DASHBOARD, 1);
  }

  lemma DashboardViewable(role: Role)
    requires role != Guardian && role != Alumni
    ensures ScopedPath(DASHBOARD) == DASHBOARD && MayView(role, DASHBOARD)
  {
    ScopedDashboard(DASHBOARD);
    FirstDifference(DASHBOARD, "/admin", 1);
    FirstDifference(DASHBOARD, "/students", 1);
    FirstDifference(DASHBOARD, "/staff", 1);
    FirstDifference(DASHBOARD, "/guardian", 1);
    if PlatformPath(DASHBOARD) { PlatformIsAdmin(DASHBOARD); }
  }

  /** Below the dashboard, a page the role may see is served at once. */
  lemma ServedBelowDashboard(session: Session, path: string)
    requires Cleared(session) && !session.forcePasswordChange && DASHBOARD <= path
    requires MayView(session.role, ScopedPath(path))
    ensures !Step(session, path).Redirect?
  {
    NotPasswordPage(path);
    RedirectedExactly(session.role, path);
    DashboardNoSection(path);
  }

  lemma TwoSteps(session: Session, path: string)
    requires Step(session, path).Redirect? ==>
               var next := Step(session, path).path;
               Step(session, next).Redirect? ==> !Step(session, Step(session, next).path).Redirect?
    ensures !Follow(session, path, 2).1.Redirect?
  {
    var outcome := Step(session, path);
    if outcome.Redirect? {
      assert Follow(session, path, 2) == Follow(session, outcome.path, 1);
      var next := Step(session, outcome.path);
      if next.Redirect? { assert Follow(session, outcome.path, 1) == Follow(session, next.path, 0); }
    }
  }

  lemma PublicPages()
    ensures IsPublicPath("/login") && IsPublicPath("/terms")
  {
  }

  lemma PasswordPageServed(session: Session, path: string)
    requires Cleared(session) && CHANGE_PASSWORD <= path
    ensures Step(session, path) == Serve
  {
    assert path[1] == 'c' && path[2] == 'h';
    if ChildPath(path) { ChildIsSection(path); }
    FirstDifference(path, DASHBOARD + "/", 1);
  }

  /** Every role's home is served at once. */
  function Home(role: Role): string {
    match role case Guardian => GUARDIAN_HOME case Alumni => ALUMNI_HOME case _ => DASHBOARD
  }

  lemma HomeServed(session: Session)
    requires Cleared(session) && !session.forcePasswordChange
    ensures !Step(session, Home(session.role)).Redirect?
  {
    match session.role
    case Guardian => GuardianHome(); ServedBelowDashboard(session, GUARDIAN_HOME);
    case Alumni => AlumniHome(); ServedBelowDashboard(session, ALUMNI_HOME);
    case _ => DashboardViewable(session.role); ServedBelowDashboard(session, DASHBOARD);
  }

  lemma DashboardLeadsHome(session: Session)
    requires Cleared(session) && !session.forcePasswordChange
    ensures Step(session, DASHBOARD).Redirect? ==> Step(session, DASHBOARD).path == Home(session.role)
  {
    NotPasswordPage(DASHBOARD);
    if session.role != Guardian && session.role != Alumni { HomeServed(session); }
  }

  lemma RoleRedirectTarget(role: Role, path: string, scopedPath: string)
    requires RoleRedirect(role, path, scopedPath).Some?
    ensures RoleRedirect(role, path, scopedPath).value == DASHBOARD || RoleRedirect(role, path, scopedPath).value == Home(role)
  {
  }

  lemma SectionServedBelow(session: Session, path: string)
    requires Cleared(session) && !session.forcePasswordChange && ChildPath(path)
    requires RoleRedirect(session.role, path, ScopedPath(path)).None?
    ensures !Step(session, DASHBOARD + path).Redirect?
  {
    ChildIsSection(path);
    NotPasswordPage(path);
    RoleRedirectSame(session.role, path);
    RedirectedExactly(session.role, path);
    ServedBelowDashboard(session, DASHBOARD + path);
  }

  /** Where a first redirect can lead once the gates are passed. */
  lemma FirstRedirect(session: Session, path: string)
    requires Cleared(session) && !session.forcePasswordChange && Step(session, path).Redirect?
    ensures var next := Step(session, path).path;
            next == DASHBOARD || next == Home(session.role) || !Step(session, next).Redirect?
  {
    assert Gate(session, path).None?;
    if RoleRedirect(session.role, path, ScopedPath(path)).Some? {
      RoleRedirectTarget(session.role, path, ScopedPath(path));
    } else {
      SectionServedBelow(session, path);
    }
  }

  /** Every path settles within two redirects, in every session. */
  lemma Settles(session: Session, path: string)
    ensures !Follow(session, path, 2).1.Redirect?
  {
    PublicPages();
    if Step(session, path).Redirect? && Cleared(session) {
      if session.forcePasswordChange {
        if !(CHANGE_PASSWORD <= path) { PasswordPageServed(session, CHANGE_PASSWORD); }
        else { PasswordPageServed(session, path); }
      } else {
        FirstRedirect(session, path);
        DashboardLeadsHome(session);
        HomeServed(session);
      }
    }
    TwoSteps(session, path);
  }

  lemma {:induction false} FollowsToStep(session: Session, path: string, n: nat)
    ensures Follow(session, path, n).1 == Step(session, Follow(session, path, n).0)
    decreases n
  {
    var outcome := Step(session, path);
    if outcome.Redirect? && n > 0 { FollowsToStep(session, outcome.path, n - 1); }
  }

  /** And what it settles on may be shown. */
  lemma SettlesAllowed(session: Session, path: string)
    ensures var (last, outcome) := Follow(session, path, 2);
            || IsPublicPath(last)
            || (Cleared(session) && CHANGE_PASSWORD <= last)
            || (Cleared(session) && !session.forcePasswordChange && MayView(session.role, Shown(last, outcome)))
  {
    Settles(session, path);
    FollowsToStep(session, path, 2);
    ShownIsAllowed(session, Follow(session, path, 2).0);
  }

  lemma NotAsset(path: string)
    requires path != "" && Lower(path[|path| - 1]) !in {'o', 'g', 'p', 'f', 't', 'l'}
    ensures !IsAsset(path)
  {
    forall i | 0 <= i < |EXTENSIONS| ensures !EndsWithIgnoringCase(path, EXTENSIONS[i]) {
      assert EXTENSIONS[i][|EXTENSIONS[i]| - 1] in {'o', 'g', 'p', 'f', 't', 'l'};
      assert |EXTENSIONS[i]| <= |path| ==> !SameFromEnd(path, EXTENSIONS[i], |EXTENSIONS[i]| - 1);
    }
  }

  lemma AdminRefused(path: string)
    requires path == "/admin"
    ensures !IsPublicPath(path) && MatchesPrefix(path, "/admin") && ScopedPath(path) == path && !(CHANGE_PASSWORD <= path)
  {
    NotAsset(path);
    SectionOnlyPublicAsAsset(path);
    SectionNotDashboard(path);
    NotPasswordPage(path);
  }

  lemma DashboardNotPublic(path: string)
    requires path == DASHBOARD
    ensures !IsPublicPath(path) && ScopedPath(path) == path && !(CHANGE_PASSWORD <= path)
  {
    NotAsset(path);
    DashboardOnlyPublicAsAsset(path);
    NotPasswordPage(path);
    ScopedDashboard(path);
  }

  /** Two redirects are sometimes needed: a guardian asking for administration. */
  lemma TwoRedirects(session: Session)
    requires Cleared(session) && !session.forcePasswordChange && session.role == Guardian
    ensures Step(session, "/admin") == Redirect(DASHBOARD)
    ensures Step(session, DASHBOARD) == Redirect(GUARDIAN_HOME)
  {
    AdminRefused("/admin");
    DashboardNotPublic(DASHBOARD);
    FirstDifference(DASHBOARD, "/admin", 1);
  }
}
