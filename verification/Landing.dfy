/** Where a visit ends: which page is shown to whom, said of the address and the session alone. */
module Landing {
  import opened Results
  import opened Redirects

  // ---- addresses -----------------------------------------------------------------------

  /** The page itself or an address below it. */
  predicate Within(path: string, page: string) {
    path == page || (|path| > |page| && path[..|page|] == page && path[|page|] == '/')
  }

  ghost predicate WithinAny(path: string, pages: seq<string>) { exists page :: page in pages && Within(path, page) }

  lemma WithinExact(path: string, page: string)
    ensures MatchesPrefix(path, page) <==> Within(path, page)
  {
    var longer := page + "/";
    if longer <= path {
      assert path[..|longer|] == longer && path[..|page|] == longer[..|page|] == page && path[|page|] == longer[|page|];
    }
    if |path| > |page| && path[..|page|] == page && path[|page|] == '/' {
      assert path[..|longer|] == path[..|page|] + [path[|page|]] == longer;
    }
  }

  lemma WithinAnyExact(path: string, pages: seq<string>)
    ensures MatchesAny(path, pages) <==> WithinAny(path, pages)
  {
    if i :| 0 <= i < |pages| && MatchesPrefix(path, pages[i]) { WithinExact(path, pages[i]); }
    if page :| page in pages && Within(path, page) {
      var i :| 0 <= i < |pages| && pages[i] == page;
      WithinExact(path, pages[i]);
    }
  }

  const SECTIONS: seq<string> := [
    "/students", "/admissions", "/billing", "/entities", "/finance", "/lms", "/teach",
    "/settings", "/workflow", "/staff", "/guardian", "/registrar", "/admin", "/alumni",
    "/courses", "/meetings", "/elections", "/sports", "/enrollment", "/attendance", "/notifications",
    "/my-courses", "/my-attendance", "/my-documents", "/my-finance", "/my-grades", "/register-courses"]

  const FILES: seq<string> := [".ico", ".png", ".jpg", ".jpeg", ".svg", ".webp", ".gif", ".txt", ".xml", ".webmanifest"]

  lemma SectionsExact(path: string)
    ensures ChildPath(path) <==> WithinAny(path, SECTIONS)
  {
    assert SECTIONS == PEOPLE + OFFICES + CAMPUS + OWN;
    WithinAnyExact(path, PEOPLE);
    WithinAnyExact(path, OFFICES);
    WithinAnyExact(path, CAMPUS);
    WithinAnyExact(path, OWN);
  }

  function SmallLetter(c: char): char { if 'A' <= c && c <= 'Z' then (c as int + 32) as char else c }

  function Small(s: string): string { seq(|s|, i requires 0 <= i < |s| => SmallLetter(s[i])) }

  predicate Ends(path: string, ending: string) { |ending| <= |path| && Small(path[|path| - |ending|..]) == ending }

  lemma EndsExact(path: string, ending: string)
    ensures EndsWithIgnoringCase(path, ending) <==> Ends(path, ending)
  {
    if |ending| <= |path| {
      var tail := path[|path| - |ending|..];
      forall i: nat | i < |ending| ensures SameFromEnd(path, ending, i) <==> Small(tail)[i] == ending[i] {
        assert tail[i] == path[|path| - |ending| + i];
      }
    }
  }

  /** Shown to everybody. */
  ghost predicate Public(path: string) {
    || "/api/auth" <= path || "/_next" <= path || path == "/favicon.ico"
    || (exists ending :: ending in FILES && Ends(path, ending))
    || WithinAny(path, ["/", "/login", "/register", "/terms", "/forgot-password"])
  }

  lemma FilesExact(path: string)
    ensures IsAsset(path) <==> exists ending :: ending in FILES && Ends(path, ending)
  {
    assert FILES == EXTENSIONS;
    if i :| 0 <= i < |EXTENSIONS| && EndsWithIgnoringCase(path, EXTENSIONS[i]) { EndsExact(path, EXTENSIONS[i]); }
    if ending :| ending in FILES && Ends(path, ending) {
      var i :| 0 <= i < |EXTENSIONS| && EXTENSIONS[i] == ending;
      EndsExact(path, EXTENSIONS[i]);
    }
  }

  lemma PublicExact(path: string)
    ensures IsPublicPath(path) <==> Public(path)
  {
    var pages := ["/", "/login", "/register", "/terms", "/forgot-password"];
    FilesExact(path);
    WithinAnyExact(path, pages);
    assert MatchesAny(path, pages) <==>
           MatchesPrefix(path, pages[0]) || MatchesPrefix(path, pages[1]) || MatchesPrefix(path, pages[2])
           || MatchesPrefix(path, pages[3]) || MatchesPrefix(path, pages[4]);
  }

  /** The page behind an address: a section has one below the dashboard as well. */
  function PageOf(path: string): string {
    if "/dashboard/" <= path && IsSection(path[10..]) then path[10..] else path
  }

  predicate IsSection(path: string) { exists i :: 0 <= i < |SECTIONS| && Within(path, SECTIONS[i]) }

  lemma PageOfExact(path: string)
    ensures ScopedPath(path) == PageOf(path)
  {
    DashboardStart();
    if "/dashboard/" <= path { IsSectionExact(path[10..]); }
  }

  lemma DashboardStart()
    ensures DASHBOARD + "/" == "/dashboard/" && |DASHBOARD| == 10
  {
  }

  lemma IsSectionExact(path: string)
    ensures ChildPath(path) <==> IsSection(path)
  {
    SectionsExact(path);
    SomeSection(path, SECTIONS);
  }

  lemma SomeSection(path: string, pages: seq<string>)
    ensures WithinAny(path, pages) <==> exists i :: 0 <= i < |pages| && Within(path, pages[i])
  {
    if page :| page in pages && Within(path, page) {
      var i :| 0 <= i < |pages| && pages[i] == page;
    }
  }

  // ---- who may see what -----------------------------------------------------------------

  predicate PlatformPage(page: string) {
    Within(page, "/admin/registration-requests") || Within(page, "/admin/institutions") || Within(page, "/admin/billing")
  }

  /** Administration, the student register and the staff register. */
  predicate OfficePage(page: string) { Within(page, "/admin") || Within(page, "/students") || Within(page, "/staff") }

  predicate AlumniPage(page: string) {
    Within(page, "/alumni/home") || Within(page, "/alumni/events") || Within(page, "/alumni/jobs") || Within(page, "/alumni/profile")
  }

  predicate MaySee(role: Role, page: string) {
    match role
    case SuperAdmin => page == "/dashboard" || PlatformPage(page)
    case Admin => !PlatformPage(page)
    case Guardian => page != "/dashboard" && !OfficePage(page)
    case Student => !OfficePage(page) && !Within(page, "/guardian")
    case Alumni => page != "/dashboard" && !OfficePage(page) && (Within(page, "/alumni") ==> AlumniPage(page))
    case Other => !Within(page, "/admin")
  }

  lemma PlatformExact(page: string)
    ensures PlatformPath(page) <==> PlatformPage(page)
  {
    WithinExact(page, "/admin/registration-requests");
    WithinExact(page, "/admin/institutions");
    WithinExact(page, "/admin/billing");
  }

  lemma OfficeExact(page: string)
    ensures TenantManagementPath(page) <==> OfficePage(page)
    ensures MatchesPrefix(page, "/admin") <==> Within(page, "/admin")
    ensures MatchesPrefix(page, "/guardian") <==> Within(page, "/guardian")
  {
    WithinExact(page, "/admin");
    WithinExact(page, "/students");
    WithinExact(page, "/staff");
    WithinExact(page, "/guardian");
  }

  lemma AlumniExact(page: string)
    ensures AlumniPortalPath(page) <==> AlumniPage(page)
    ensures MatchesPrefix(page, "/alumni") <==> Within(page, "/alumni")
  {
    WithinExact(page, "/alumni/home");
    WithinExact(page, "/alumni/events");
    WithinExact(page, "/alumni/jobs");
    WithinExact(page, "/alumni/profile");
    WithinExact(page, "/alumni");
  }

  lemma MaySeeExact(role: Role, page: string)
    ensures MayView(role, page) <==> MaySee(role, page)
  {
    PlatformExact(page);
    OfficeExact(page);
    AlumniExact(page);
  }

  // ---- where a visit ends ----------------------------------------------------------------

  function HomePage(role: Role): string {
    match role
    case Guardian => "/guardian/dashboard"
    case Alumni => "/alumni/home"
    case _ => "/dashboard"
  }

  predicate AcceptedTerms(session: Session) { session.SignedIn? && (session.allPermissions || session.termsAccepted) }

  /** The page shown in the end: what was asked for if it is public or allowed, else sign-in, the
      terms, the password page or the role's home, in that order. */
  ghost function LandingPage(session: Session, path: string): string {
    if Public(path) then path
    else if session.Anonymous? then "/login"
    else if !AcceptedTerms(session) then "/terms"
    else if "/change-password" <= path then path
    else if session.forcePasswordChange then "/change-password"
    else if MaySee(session.role, PageOf(path)) then PageOf(path)
    else HomePage(session.role)
  }

  ghost predicate Lands(session: Session, path: string, page: string) {
    !Follow(session, path, 2).1.Redirect? && Shown(Follow(session, path, 2).0, Follow(session, path, 2).1) == page
  }

  lemma FollowNone(session: Session, path: string)
    requires !Step(session, path).Redirect?
    ensures Follow(session, path, 2) == (path, Step(session, path))
  {
  }

  lemma FollowOne(session: Session, path: string, next: string)
    requires Step(session, path) == Redirect(next) && !Step(session, next).Redirect?
    ensures Follow(session, path, 2) == (next, Step(session, next))
  {
    assert Follow(session, path, 2) == Follow(session, next, 1);
  }

  lemma FollowTwo(session: Session, path: string, next: string, last: string)
    requires Step(session, path) == Redirect(next) && Step(session, next) == Redirect(last)
    requires !Step(session, last).Redirect?
    ensures Follow(session, path, 2) == (last, Step(session, last))
  {
    assert Follow(session, path, 2) == Follow(session, next, 1);
    assert Follow(session, next, 1) == Follow(session, last, 0);
  }

  lemma GatesPublic()
    ensures Public("/login") && Public("/terms")
  {
    PublicPages();
    PublicExact("/login");
    PublicExact("/terms");
  }

  /** Whoever is not signed in, or has not accepted the terms. */
  lemma NotCleared(session: Session, path: string)
    requires !Public(path) && !AcceptedTerms(session)
    ensures var gate := if session.Anonymous? then "/login" else "/terms";
            Follow(session, path, 2) == (gate, Serve)
  {
    var gate := if session.Anonymous? then "/login" else "/terms";
    GatesPublic();
    PublicExact(path);
    PublicExact(gate);
    FollowOne(session, path, gate);
  }

  lemma ForcedChange(session: Session, path: string)
    requires !Public(path) && AcceptedTerms(session) && session.forcePasswordChange && !("/change-password" <= path)
    ensures Follow(session, path, 2) == ("/change-password", Serve)
  {
    PublicExact(path);
    PasswordPageServed(session, "/change-password");
    FollowOne(session, path, "/change-password");
  }

  lemma PasswordPage(session: Session, path: string)
    requires AcceptedTerms(session) && "/change-password" <= path
    ensures Follow(session, path, 2) == (path, Serve)
  {
    PasswordPageServed(session, path);
    FollowNone(session, path);
  }

  /** An allowed page is shown, if need be from its address below the dashboard. */
  lemma Allowed(session: Session, path: string)
    requires !Public(path) && AcceptedTerms(session) && !session.forcePasswordChange && !("/change-password" <= path)
    requires MaySee(session.role, PageOf(path))
    ensures Lands(session, path, PageOf(path))
  {
    PublicExact(path);
    PageOfExact(path);
    MaySeeExact(session.role, PageOf(path));
    RedirectedExactly(session.role, path);
    if ChildPath(path) {
      var deep := DASHBOARD + path;
      assert Step(session, path) == Redirect(deep);
      RoleRedirectSame(session.role, path);
      SectionServedBelow(session, path);
      DeepNotPublic(session, path);
      ShownIsScoped(session, deep);
      FollowOne(session, path, deep);
    } else {
      FollowNone(session, path);
      ShownIsScoped(session, path);
    }
  }

  lemma DeepNotPublic(session: Session, path: string)
    requires ChildPath(path) && !IsPublicPath(path)
    ensures !IsPublicPath(DASHBOARD + path)
  {
    ChildIsSection(path);
    SectionOnlyPublicAsAsset(path);
    DashboardOnlyPublicAsAsset(DASHBOARD + path);
    AssetBelowDashboard(path);
  }

  lemma HomeShown(session: Session)
    requires AcceptedTerms(session) && !session.forcePasswordChange
    ensures !Step(session, Home(session.role)).Redirect?
    ensures Shown(Home(session.role), Step(session, Home(session.role))) == HomePage(session.role)
  {
    HomeServed(session);
    var home := Home(session.role);
    HomeNotPublic(home);
    ShownIsScoped(session, home);
    match session.role
    case Guardian => GuardianHome();
    case Alumni => AlumniHome();
    case _ => ScopedDashboard(DASHBOARD);
  }

  lemma HomeNotPublic(home: string)
    requires home == DASHBOARD || home == GUARDIAN_HOME || home == ALUMNI_HOME
    ensures !IsPublicPath(home)
  {
    assert home[|home| - 1] == 'd' || home[|home| - 1] == 'e';
    NotAsset(home);
    DashboardOnlyPublicAsAsset(home);
  }

  /** Anything else leads home. */
  lemma Elsewhere(session: Session, path: string)
    requires !Public(path) && AcceptedTerms(session) && !session.forcePasswordChange && !("/change-password" <= path)
    requires !MaySee(session.role, PageOf(path))
    ensures Lands(session, path, HomePage(session.role))
  {
    PublicExact(path);
    PageOfExact(path);
    MaySeeExact(session.role, PageOf(path));
    RedirectedExactly(session.role, path);
    RoleRedirectTarget(session.role, path, ScopedPath(path));
    var next := RoleRedirect(session.role, path, ScopedPath(path)).value;
    assert Step(session, path) == Redirect(next);
    HomeShown(session);
    if next == Home(session.role) {
      FollowOne(session, path, next);
    } else {
      DashboardLeadsHome(session);
      HomeNotPublic(DASHBOARD);
      DashboardForwards(session);
      FollowTwo(session, path, DASHBOARD, Home(session.role));
    }
  }

  lemma DashboardForwards(session: Session)
    requires AcceptedTerms(session) && !session.forcePasswordChange && Home(session.role) != DASHBOARD
    ensures Step(session, DASHBOARD) == Redirect(Home(session.role))
  {
    HomeNotPublic(DASHBOARD);
    ScopedDashboard(DASHBOARD);
    NotPasswordPage(DASHBOARD);
    RedirectedExactly(session.role, DASHBOARD);
    DashboardLeadsHome(session);
  }

  /** Every visit ends, within two redirects, at the landing page. */
  lemma LandsExactly(session: Session, path: string)
    ensures Lands(session, path, LandingPage(session, path))
  {
    PublicExact(path);
    if Public(path) {
      FollowNone(session, path);
    } else if !AcceptedTerms(session) {
      NotCleared(session, path);
    } else if "/change-password" <= path {
      PasswordPage(session, path);
    } else if session.forcePasswordChange {
      ForcedChange(session, path);
    } else if MaySee(session.role, PageOf(path)) {
      Allowed(session, path);
    } else {
      Elsewhere(session, path);
    }
  }

  /** A page that is not public leads to sign-in exactly without a session, to the terms exactly
      with one that has neither all permissions nor accepted them, and to the password page for
      anyone else who is to change the password, unless it was asked for already. */
  lemma GatesExactly(session: Session, path: string)
    requires !Public(path)
    ensures Lands(session, path, "/login") <==> session.Anonymous?
    ensures Lands(session, path, "/terms") <==>
            session.SignedIn? && !session.allPermissions && !session.termsAccepted
    ensures AcceptedTerms(session) && session.forcePasswordChange ==>
              Lands(session, path, if "/change-password" <= path then path else "/change-password")
  {
    LandsExactly(session, path);
    GatesPublic();
    if AcceptedTerms(session) { NoGateBehind(session, path); }
  }

  lemma NoGateBehind(session: Session, path: string)
    requires !Public(path) && AcceptedTerms(session)
    ensures LandingPage(session, path) != "/login" && LandingPage(session, path) != "/terms"
  {
    GatesPublic();
    if PageOf(path) != path {
      IsSectionExact(PageOf(path));
      SectionNoGate(PageOf(path));
    }
  }

  lemma SectionNoGate(page: string)
    requires ChildPath(page)
    ensures page != "/login" && page != "/terms"
  {
    ChildIsSection(page);
  }
}
