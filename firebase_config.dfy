/** The client's connection settings: the configuration check over the six public settings,
    and the one-time set-up of the app, authentication and database handles that depends on it. */
module FirebaseConfig {
  import opened Wrappers
  import opened Model

  /** The six settings read from the environment; an unset variable is `None`. */
  datatype Config = Config(apiKey: Option<string>, authDomain: Option<string>, projectId: Option<string>,
                           storageBucket: Option<string>, messagingSenderId: Option<string>, appId: Option<string>)

  /** The values the example environment file ships with. */
  const ApiKeyPlaceholder := "your-api-key-here"
  const ProjectIdPlaceholder := "your-project-id"

  /** `isFirebaseConfigured()`: every setting is present and non-empty, and neither the API
      key nor the project id is still the placeholder. */
  predicate IsConfigured(c: Config) {
    && Truthy(c.apiKey) && Truthy(c.authDomain) && Truthy(c.projectId)
    && Truthy(c.storageBucket) && Truthy(c.messagingSenderId) && Truthy(c.appId)
    && c.apiKey != Some(ApiKeyPlaceholder) && c.projectId != Some(ProjectIdPlaceholder)
  }

  /** A configuration is accepted exactly when all six settings are non-empty strings and the
      two placeholders have been replaced. */
  lemma ConfiguredExactly(c: Config)
    ensures IsConfigured(c) <==>
              && c.apiKey.Some? && c.apiKey.value != [] && c.apiKey.value != ApiKeyPlaceholder
              && c.authDomain.Some? && c.authDomain.value != []
              && c.projectId.Some? && c.projectId.value != [] && c.projectId.value != ProjectIdPlaceholder
              && c.storageBucket.Some? && c.storageBucket.value != []
              && c.messagingSenderId.Some? && c.messagingSenderId.value != []
              && c.appId.Some? && c.appId.value != []
  {
  }

  /** An initialised app, named by the SDK. */
  datatype App = App(name: string)
  /** The authentication and database services bound to an app. */
  datatype AuthService = AuthService(app: App)
  datatype Firestore = Firestore(app: App)

  /** The module-level `app`, `auth` and `db` (null as `None`), beside the SDK's list of
      initialised apps that `getApps()` returns. */
  class Connection {
    var apps: seq<App>
    var app: Option<App>
    var auth: Option<AuthService>
    var db: Option<Firestore>

    /** The module's first lines: all three handles start null; `registered` is what the SDK
        already holds when the module loads. */
    constructor (registered: seq<App>)
      ensures apps == registered && app.None? && auth.None? && db.None?
    {
      apps, app, auth, db := registered, None, None, None;
    }

    /** The conditional set-up, run once on the null handles; `created` is the app `initializeApp` would return. Without a
        valid configuration nothing is initialised; with one, an app already registered is
        reused, a new one is initialised only when none is, and both services are bound to
        the app. */
    method Initialize(config: Config, created: App)
      requires app.None? && auth.None? && db.None?
      modifies this
      ensures !IsConfigured(config) ==> app.None? && auth.None? && db.None? && apps == old(apps)
      ensures IsConfigured(config) && old(apps) == [] ==> app == Some(created) && apps == [created]
      ensures IsConfigured(config) && old(apps) != [] ==> app == Some(old(apps)[0]) && apps == old(apps)
      ensures IsConfigured(config) ==> app.Some? && auth == Some(AuthService(app.value)) && db == Some(Firestore(app.value))
      ensures IsConfigured(config) ==> app.value in apps && |apps| == if |old(apps)| == 0 then 1 else |old(apps)|
    {
      if IsConfigured(config) {
        var current: App;
        if |apps| == 0 {
          apps := apps + [created];
          current := created;
        } else {
          current := apps[0];
        }
        app := Some(current);
        auth := Some(AuthService(current));
        db := Some(Firestore(current));
      }
    }
  }
}
