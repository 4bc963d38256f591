/** The first-run controller (Controllers/FirstRunController.cs): a route that is open until a
    FirstRun row exists, and that on its one successful call creates the first administrator, the
    three roles, the default account, the "General" category, the Home row and the FirstRun row
    that locks it. The identity store's verdicts on the two account creations and the generated
    keys and password are inputs. */
module FirstRunController {
  import opened Entities
  import opened Slugs
  import opened Data
  import opened Tables
  import UserController

  const DefaultProfileImage: string :=
    "https://res.cloudinary.com/inforum/image/upload/v1645625776/Defaults/profile_image_dummy_oawg87.png"
  const DefaultHeaderImage: string :=
    "https://res.cloudinary.com/inforum/image/upload/v1644820069/Defaults/img-1_nvdef7.jpg"
  const DefaultSubHeading: string := "For Students made by Students."
  const DefaultAddress: string := "Void City, Near Eye, Black Hole"
  const GeneralCategory: string := "General"
  /** generateSlug(GeneralCategory), proved equal in GeneralSlugIsGenerated. */
  const GeneralSlug: string := "general"

  /** The RegisterModel body: the first administrator. */
  datatype AdminForm = AdminForm(firstName: string, lastName: string, email: string, password: string, gender: Gender)

  /** What the run receives from outside the store: the generated account and role keys, the
      generated default password (the first eight characters of a GUID), and whether CreateAsync
      accepts each of the two accounts. */
  datatype Environment = Environment(adminId: string, defaultId: string, adminRoleId: string, userRoleId: string,
                                     editorRoleId: string, defaultPassword: string,
                                     adminCreated: bool, defaultCreated: bool)

  /** The tables the run reads and writes, with the store's key counter. */
  datatype BootStore = BootStore(users: seq<User>, roles: seq<Role>, categories: seq<Category>, homes: seq<Home>,
                                 firstRuns: seq<FirstRun>, nextId: int)

  function Boot(db: Database): BootStore
    reads db
  {
    BootStore(db.users, db.roles, db.categories, db.homes, db.firstRuns, db.nextId)
  }

  /** FirstRunStatus: IsOpen exactly when there is no FirstRun row. */
  function FirstRunStatus(firstRuns: seq<FirstRun>): (isOpen: bool)
    ensures isOpen <==> |firstRuns| == 0
  {
    firstRuns == []
  }

  /** RoleExistsAsync. */
  predicate RoleExists(roles: seq<Role>, name: string) {
    exists i :: 0 <= i < |roles| && roles[i].name == name
  }

  /** The administrator account built from the form: the email doubles as the user name. */
  function NewAdmin(form: AdminForm, env: Environment): (u: User)
    ensures u.userName == form.email && u.email == form.email && !u.isRestricted && u.roles == []
  {
    User(env.adminId, form.email, form.email, form.firstName, form.lastName, form.gender, DefaultProfileImage,
         false, "", "", form.password, [])
  }

  /** The default account that inherits the rows of deleted users. */
  function NewDefaultUser(env: Environment): (u: User)
    ensures u.email == DefaultUserEmail && u.userName == DefaultUserEmail && u.roles == []
  {
    User(env.defaultId, DefaultUserEmail, DefaultUserEmail, "Default", "User", Male, DefaultProfileImage,
         false, DefaultAddress, "", env.defaultPassword, [])
  }

  /** The three roles, created only when none of them exists. */
  function SeedRoles(roles: seq<Role>, env: Environment): (r: seq<Role>)
    ensures RoleExists(roles, AdminRole) || RoleExists(roles, UserRole) || RoleExists(roles, EditorRole) ==> r == roles
    ensures !RoleExists(roles, AdminRole) && !RoleExists(roles, UserRole) && !RoleExists(roles, EditorRole) ==>
              r == roles + [Role(env.adminRoleId, AdminRole), Role(env.userRoleId, UserRole), Role(env.editorRoleId, EditorRole)]
  {
    if !RoleExists(roles, AdminRole) && !RoleExists(roles, UserRole) && !RoleExists(roles, EditorRole) then
      roles + [Role(env.adminRoleId, AdminRole), Role(env.userRoleId, UserRole), Role(env.editorRoleId, EditorRole)]
    else roles
  }

  /** The account half of FirstRun, each step saved on its own: the administrator is created
      (refused: the run stops); the roles are seeded; the administrator joins Admin (a missing
      Admin role throws and the run stops); the default account is created (refused: the run
      stops) and joins User (a missing User role throws and the run stops). The flag says whether
      the run may go on. */
  function SeedAccounts(users: seq<User>, roles: seq<Role>, form: AdminForm, env: Environment)
    : (r: (bool, seq<User>, seq<Role>))
    ensures |r.1| >= |users| && r.1[..|users|] == users
    ensures |r.2| >= |roles| && r.2[..|roles|] == roles
    ensures !env.adminCreated ==> r == (false, users, roles)
    ensures r.0 <==> env.adminCreated && env.defaultCreated && RoleExists(r.2, AdminRole) && RoleExists(r.2, UserRole)
    ensures r.0 ==> r.1 == users + [NewAdmin(form, env).(roles := [AdminRole]), NewDefaultUser(env).(roles := [UserRole])]
  {
    if !env.adminCreated then (false, users, roles)
    else
      var admin := NewAdmin(form, env);
      var seeded := SeedRoles(roles, env);
      if !RoleExists(seeded, AdminRole) then (false, users + [admin], seeded)
      else
        var withAdmin := users + [admin.(roles := [AdminRole])];
        assert withAdmin[..|users|] == users;
        if !env.defaultCreated then (false, withAdmin, seeded)
        else
          var heir := NewDefaultUser(env);
          if !RoleExists(seeded, UserRole) then (false, withAdmin + [heir], seeded)
          else (true, withAdmin + [heir.(roles := [UserRole])], seeded)
  }

  /** The content half: the "General" category, the Home row and the FirstRun row, each under the
      store's next key. */
  function SeedContent(s: BootStore): (r: BootStore)
    ensures r.users == s.users && r.roles == s.roles && r.nextId == s.nextId + 3
    ensures r.categories == s.categories + [Category(s.nextId, GeneralCategory, GeneralSlug)]
    ensures |r.homes| == |s.homes| + 1 && r.homes[..|s.homes|] == s.homes
    ensures r.homes[|s.homes|] == Home(s.nextId + 1, DefaultSubHeading, DefaultHeaderImage)
    ensures r.firstRuns == s.firstRuns + [FirstRun(s.nextId + 2, true)]
  {
    var n := s.nextId;
    s.(categories := s.categories + [Category(n, GeneralCategory, GeneralSlug)],
       homes := s.homes + [Home(n + 1, DefaultSubHeading, DefaultHeaderImage)],
       firstRuns := s.firstRuns + [FirstRun(n + 2, true)], nextId := n + 3)
  }

  /** FirstRun. Forbidden with nothing changed once a FirstRun row exists; BadRequest, keeping the
      account steps already saved, when the account half stops; otherwise the content is seeded
      and the answer is Created. */
  function Bootstrap(s: BootStore, form: AdminForm, env: Environment): (r: (Status, BootStore))
    ensures r.0 == Created || r.0 == Forbidden || r.0 == BadRequest
    ensures r.0 == Forbidden <==> s.firstRuns != []
    ensures r.0 == Forbidden ==> r.1 == s
    ensures r.0 == Created <==> s.firstRuns == [] && r.1.firstRuns != []
    ensures r.0 != Created ==> r.1.firstRuns == s.firstRuns
    ensures |r.1.users| >= |s.users| && r.1.users[..|s.users|] == s.users
    ensures |r.1.roles| >= |s.roles| && r.1.roles[..|s.roles|] == s.roles
  {
    if s.firstRuns != [] then (Forbidden, s)
    else
      var accounts := SeedAccounts(s.users, s.roles, form, env);
      var t := s.(users := accounts.1, roles := accounts.2);
      if !accounts.0 then (BadRequest, t)
      else (Created, SeedContent(t))
  }

  /** The stored slug of the "General" category is what the id-less generateSlug makes of its
      name. */
  lemma GeneralSlugIsGenerated(name: string)
    requires name == GeneralCategory
    ensures SlugBase(name) == GeneralSlug
  {
    ExampleGeneral(name);
  }

  /** generateSlug applied to the category name. */
  method GeneralSlugOf(name: string) returns (slug: string)
    requires name == GeneralCategory
    ensures slug == GeneralSlug
  {
    slug := SlugBase(name);
    GeneralSlugIsGenerated(name);
  }

  /** The account steps of FirstRun on the store. */
  method CreateAccounts(db: Database, form: AdminForm, env: Environment) returns (ok: bool)
    modifies db`users, db`roles
    ensures (ok, db.users, db.roles) == SeedAccounts(old(db.users), old(db.roles), form, env)
  {
    if !env.adminCreated {
      return false;
    }
    var users := db.users;
    var admin := NewAdmin(form, env);
    db.users := users + [admin];
    if !RoleExists(db.roles, AdminRole) && !RoleExists(db.roles, UserRole) && !RoleExists(db.roles, EditorRole) {
      db.roles := db.roles + [Role(env.adminRoleId, AdminRole), Role(env.userRoleId, UserRole), Role(env.editorRoleId, EditorRole)];
    }
    if !RoleExists(db.roles, AdminRole) {
      return false;
    }
    db.users := users + [admin.(roles := [AdminRole])];
    if !env.defaultCreated {
      return false;
    }
    var heir := NewDefaultUser(env);
    db.users := db.users + [heir];
    if !RoleExists(db.roles, UserRole) {
      return false;
    }
    db.users := users + [admin.(roles := [AdminRole]), heir.(roles := [UserRole])];
    ok := true;
  }

  /** The base category, with its slug generated from its name, added and saved. */
  method CreateGeneralCategory(db: Database)
    requires db.Valid()
    modifies db`categories, db`nextId
    ensures db.nextId == old(db.nextId) + 1
    ensures db.categories == old(db.categories) + [Category(old(db.nextId), GeneralCategory, GeneralSlug)]
    ensures db.Valid()
  {
    var slug := GeneralSlugOf(GeneralCategory);
    var categories := db.categories;
    KeysBelowAppend(categories, CategoryId, db.nextId, Category(db.nextId, GeneralCategory, slug));
    var id := db.NewKey();
    db.SaveCategories(categories + [Category(id, GeneralCategory, slug)]);
  }

  /** The base home data added and saved. */
  method CreateHome(db: Database)
    requires db.Valid()
    modifies db`homes, db`nextId
    ensures db.nextId == old(db.nextId) + 1
    ensures db.homes == old(db.homes) + [Home(old(db.nextId), DefaultSubHeading, DefaultHeaderImage)]
    ensures db.Valid()
  {
    var homes := db.homes;
    KeysBelowAppend(homes, HomeId, db.nextId, Home(db.nextId, DefaultSubHeading, DefaultHeaderImage));
    var id := db.NewKey();
    db.SaveHomes(homes + [Home(id, DefaultSubHeading, DefaultHeaderImage)]);
  }

  /** The lock row added and saved: from here on the route is closed. */
  method LockRoute(db: Database)
    requires db.Valid()
    modifies db`firstRuns, db`nextId
    ensures db.nextId == old(db.nextId) + 1
    ensures db.firstRuns == old(db.firstRuns) + [FirstRun(old(db.nextId), true)]
    ensures !FirstRunStatus(db.firstRuns)
    ensures db.Valid()
  {
    var firstRuns := db.firstRuns;
    KeysBelowAppend(firstRuns, FirstRunId, db.nextId, FirstRun(db.nextId, true));
    var id := db.NewKey();
    db.SaveFirstRuns(firstRuns + [FirstRun(id, true)]);
  }

  /** The content steps of FirstRun on the store. */
  method CreateContent(db: Database)
    requires db.Valid()
    modifies db`categories, db`homes, db`firstRuns, db`nextId
    ensures Boot(db) == SeedContent(old(Boot(db)))
    ensures db.Valid()
  {
    CreateGeneralCategory(db);
    CreateHome(db);
    LockRoute(db);
  }

  method RunFirstRun(db: Database, form: AdminForm, env: Environment) returns (status: Status)
    requires db.Valid()
    modifies db`users, db`roles, db`categories, db`homes, db`firstRuns, db`nextId
    ensures (status, Boot(db)) == Bootstrap(old(Boot(db)), form, env)
    ensures db.Valid()
  {
    if db.firstRuns != [] {
      return Forbidden;
    }
    var ok := CreateAccounts(db, form, env);
    if !ok {
      return BadRequest;
    }
    CreateContent(db);
    status := Created;
  }

  /** The lock is permanent: after a successful run every later call, whatever its form and
      whatever the identity store says, is Forbidden and changes nothing. */
  lemma LockNeverReopens(s: BootStore, form: AdminForm, env: Environment, form2: AdminForm, env2: Environment)
    requires Bootstrap(s, form, env).0 == Created
    ensures var locked := Bootstrap(s, form, env).1;
            && !FirstRunStatus(locked.firstRuns)
            && Bootstrap(locked, form2, env2) == (Forbidden, locked)
  {
  }

  /** The status route and the run agree: IsOpen is reported exactly when a call would not be
      Forbidden. */
  lemma StatusMatchesRoute(s: BootStore, form: AdminForm, env: Environment)
    ensures FirstRunStatus(s.firstRuns) <==> Bootstrap(s, form, env).0 != Forbidden
  {
  }

  /** A refused administrator leaves the store exactly as it was. */
  lemma AdminRefusedChangesNothing(s: BootStore, form: AdminForm, env: Environment)
    requires s.firstRuns == [] && !env.adminCreated
    ensures Bootstrap(s, form, env) == (BadRequest, s)
  {
  }

  /** A refused default account ends the run with the administrator created and in the Admin
      role, but with no FirstRun row: the route stays open. This holds whenever the Admin role
      exists after the role step, that is when it existed already or none of the three did. */
  lemma DefaultRefusedLeavesRouteOpen(s: BootStore, form: AdminForm, env: Environment)
    requires s.firstRuns == [] && env.adminCreated && !env.defaultCreated
    requires RoleExists(s.roles, AdminRole) || (!RoleExists(s.roles, UserRole) && !RoleExists(s.roles, EditorRole))
    ensures var r := Bootstrap(s, form, env);
            && r.0 == BadRequest
            && FirstRunStatus(r.1.firstRuns)
            && r.1.users == s.users + [NewAdmin(form, env).(roles := [AdminRole])]
  {
    if !RoleExists(s.roles, AdminRole) {
      assert SeedRoles(s.roles, env)[|s.roles|].name == AdminRole;
    }
  }

  /** The roles are created only when none of Admin, User and Editor exists; any one of them
      present and the role table is left alone. */
  lemma RolesSeededOnlyWhenAbsent(s: BootStore, form: AdminForm, env: Environment)
    requires RoleExists(s.roles, AdminRole) || RoleExists(s.roles, UserRole) || RoleExists(s.roles, EditorRole)
    ensures Bootstrap(s, form, env).1.roles == s.roles
  {
  }

  /** What a successful run adds to the content tables: the "General" category with slug
      "general", one Home row with the default sub-heading, and the FirstRun row. */
  lemma SuccessfulRunSeedsContent(s: BootStore, form: AdminForm, env: Environment)
    requires Bootstrap(s, form, env).0 == Created
    ensures var r := Bootstrap(s, form, env).1;
            && r.categories == s.categories + [Category(s.nextId, GeneralCategory, GeneralSlug)]
            && |r.homes| == |s.homes| + 1 && r.homes[|s.homes|].subHeading == DefaultSubHeading
            && r.firstRuns == [FirstRun(s.nextId + 2, true)]
  {
  }

  /** The accounts a successful run adds: the administrator in role Admin and the default account
      in role User, which gives every later account deletion an heir. */
  lemma SuccessfulRunSeedsAccounts(s: BootStore, form: AdminForm, env: Environment)
    requires Bootstrap(s, form, env).0 == Created
    ensures var r := Bootstrap(s, form, env).1;
            && |r.users| == |s.users| + 2
            && r.users[|s.users|].email == form.email && r.users[|s.users|].roles == [AdminRole]
            && r.users[|s.users| + 1].email == DefaultUserEmail && r.users[|s.users| + 1].roles == [UserRole]
            && UserController.Heir(r.users).Some?
  {
    var r := Bootstrap(s, form, env).1;
    assert r.users[|s.users| + 1] == NewDefaultUser(env).(roles := [UserRole]);
  }

  /** On an empty store the run goes through whenever the identity store accepts both accounts. */
  lemma FreshStoreRunSucceeds(form: AdminForm, env: Environment)
    requires env.adminCreated && env.defaultCreated
    ensures Bootstrap(BootStore([], [], [], [], [], 1), form, env).0 == Created
  {
    var roles := SeedRoles([], env);
    assert roles[0].name == AdminRole && roles[1].name == UserRole;
  }
}
