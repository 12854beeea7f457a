/** Startup configuration (backend/internal/config/config.go): `Load` as a
    function of the outcome of reading the `.env` file and of the process
    environment after that read. An unset variable reads as "", as with
    `os.Getenv`. */
module Config {
  import opened Wrappers
  import opened Text

  type Env = map<Str, Str>

  datatype Config = Config(groqApiKey: Str, llmModel: Str, dbUrl: Str, tikaUrl: Str, origin: Str)

  /** `os.Getenv`. */
  function Getenv(env: Env, key: Str): Str {
    if key in env then env[key] else ""
  }

  const DatabaseVars: seq<Str> := ["DB_HOST", "DB_PORT", "DB_USER", "DB_PASSWORD", "DB_NAME"]

  /** The variables reported by name when empty, in reporting order. */
  const ServiceVars: seq<Str> := ["GROQ_API_KEY", "LLM_MODEL", "TIKA_URL"]

  const DefaultOrigin := "http://localhost"

  function SslMode(env: Env): (mode: Str)
    ensures mode == "require" <==> Getenv(env, "IS_PROD") == "true"
    ensures mode == "require" || mode == "disable"
  {
    if Getenv(env, "IS_PROD") == "true" then "require" else "disable"
  }

  /** The fields of the connection string, one per key, in format order. */
  function DbUrlFields(host: Str, port: Str, user: Str, password: Str, name: Str, sslMode: Str): seq<Str> {
    ["host=" + host, "port=" + port, "user=" + user, "password=" + password, "dbname=" + name, "sslmode=" + sslMode]
  }

  /** The libpq key/value connection string "host=%s port=%s user=%s
      password=%s dbname=%s sslmode=%s": the fields separated by one space. */
  function DbUrl(host: Str, port: Str, user: Str, password: Str, name: Str, sslMode: Str): Str {
    Join(DbUrlFields(host, port, user, password, name, sslMode), ' ')
  }

  lemma PrefixNoSpace(key: Str, value: Str)
    requires ' ' !in key && ' ' !in value
    ensures ' ' !in key + value
  {
  }

  /** When no value holds a space, splitting the connection string at
      spaces gives back exactly the six key=value fields, in order. */
  lemma DbUrlRoundTrip(host: Str, port: Str, user: Str, password: Str, name: Str, sslMode: Str)
    requires ' ' !in host && ' ' !in port && ' ' !in user && ' ' !in password && ' ' !in name && ' ' !in sslMode
    ensures Split(DbUrl(host, port, user, password, name, sslMode), ' ')
         == DbUrlFields(host, port, user, password, name, sslMode)
  {
    var fs := DbUrlFields(host, port, user, password, name, sslMode);
    PrefixNoSpace("host=", host);
    PrefixNoSpace("port=", port);
    PrefixNoSpace("user=", user);
    PrefixNoSpace("password=", password);
    PrefixNoSpace("dbname=", name);
    PrefixNoSpace("sslmode=", sslMode);
    SplitJoin(fs, ' ');
  }

  /** The service variables that are empty, in the order they are checked. */
  function MissingServiceVars(env: Env): (missing: seq<Str>)
    ensures forall k :: k in missing <==> k in ServiceVars && Getenv(env, k) == ""
    ensures |missing| <= 3
    ensures forall i, j :: 0 <= i < j < |missing| ==> IndexIn(missing[i], ServiceVars) < IndexIn(missing[j], ServiceVars)
  {
    ServiceVarIndices();
    (if Getenv(env, "GROQ_API_KEY") == "" then ["GROQ_API_KEY"] else [])
      + (if Getenv(env, "LLM_MODEL") == "" then ["LLM_MODEL"] else [])
      + (if Getenv(env, "TIKA_URL") == "" then ["TIKA_URL"] else [])
  }

  lemma ServiceVarIndices()
    ensures IndexIn("GROQ_API_KEY", ServiceVars) == 0
    ensures IndexIn("LLM_MODEL", ServiceVars) == 1
    ensures IndexIn("TIKA_URL", ServiceVars) == 2
  {
    assert ServiceVars[1..] == ["LLM_MODEL", "TIKA_URL"];
    assert ServiceVars[1..][1..] == ["TIKA_URL"];
  }

  /** The position of `x` in `xs`, or |xs| when absent. */
  function IndexIn(x: Str, xs: seq<Str>): (i: nat)
    ensures i <= |xs|
    ensures i < |xs| ==> xs[i] == x
    ensures x in xs ==> i < |xs|
  {
    if |xs| == 0 then 0 else if xs[0] == x then 0 else 1 + IndexIn(x, xs[1..])
  }

  /** Go's `%v` rendering of a string slice: "[a b c]". */
  function FormatList(items: seq<Str>): Str {
    "[" + Join(items, ' ') + "]"
  }

  /** Every variable of `keys` is set to a non-empty value. */
  predicate AllSet(env: Env, keys: seq<Str>) {
    forall i :: 0 <= i < |keys| ==> Getenv(env, keys[i]) != ""
  }

  lemma AllSetDatabase(env: Env)
    ensures AllSet(env, DatabaseVars)
        <==> Getenv(env, "DB_HOST") != "" && Getenv(env, "DB_PORT") != "" && Getenv(env, "DB_USER") != ""
             && Getenv(env, "DB_PASSWORD") != "" && Getenv(env, "DB_NAME") != ""
  {
    assert DatabaseVars[0] == "DB_HOST" && DatabaseVars[1] == "DB_PORT" && DatabaseVars[2] == "DB_USER";
    assert DatabaseVars[3] == "DB_PASSWORD" && DatabaseVars[4] == "DB_NAME";
  }

  lemma AllSetService(env: Env)
    ensures AllSet(env, ServiceVars) <==> MissingServiceVars(env) == []
  {
    if !AllSet(env, ServiceVars) {
      var i :| 0 <= i < |ServiceVars| && Getenv(env, ServiceVars[i]) == "";
      assert ServiceVars[i] in MissingServiceVars(env);
    } else {
      assert Getenv(env, ServiceVars[0]) != "" && Getenv(env, ServiceVars[1]) != "" && Getenv(env, ServiceVars[2]) != "";
    }
  }

  /** `Load`. `dotenv` is the error from reading the `.env` file, if any. */
  function Load(dotenv: Option<Str>, env: Env): (r: Result<Config, Str>)
    ensures dotenv.Some? ==> r == Err("error loading .env file: " + dotenv.value)
    ensures dotenv.None? && !AllSet(env, DatabaseVars) ==> r == Err("missing required environment variables")
    ensures r.Ok? <==> dotenv.None? && AllSet(env, DatabaseVars) && AllSet(env, ServiceVars)
    ensures r.Ok? ==> && r.value.groqApiKey == Getenv(env, "GROQ_API_KEY") != ""
                      && r.value.llmModel == Getenv(env, "LLM_MODEL") != ""
                      && r.value.tikaUrl == Getenv(env, "TIKA_URL") != ""
    ensures r.Ok? ==> r.value.origin == (if Getenv(env, "ORIGIN") != "" then Getenv(env, "ORIGIN") else DefaultOrigin)
    ensures r.Ok? ==> r.value.dbUrl == DbUrl(Getenv(env, "DB_HOST"), Getenv(env, "DB_PORT"), Getenv(env, "DB_USER"),
                                             Getenv(env, "DB_PASSWORD"), Getenv(env, "DB_NAME"), SslMode(env))
  {
    AllSetDatabase(env);
    AllSetService(env);
    if dotenv.Some? then Err("error loading .env file: " + dotenv.value)
    else if Getenv(env, "DB_HOST") == "" || Getenv(env, "DB_PORT") == "" || Getenv(env, "DB_USER") == ""
         || Getenv(env, "DB_PASSWORD") == "" || Getenv(env, "DB_NAME") == "" then
      Err("missing required environment variables")
    else
      var dbUrl := DbUrl(Getenv(env, "DB_HOST"), Getenv(env, "DB_PORT"), Getenv(env, "DB_USER"),
                         Getenv(env, "DB_PASSWORD"), Getenv(env, "DB_NAME"), SslMode(env));
      var origin := if Getenv(env, "ORIGIN") == "" then DefaultOrigin else Getenv(env, "ORIGIN");
      var cfg := Config(Getenv(env, "GROQ_API_KEY"), Getenv(env, "LLM_MODEL"), dbUrl, Getenv(env, "TIKA_URL"), origin);
      var missing := MissingServiceVars(env);
      if |missing| > 0 then
        Err("missing required environment variables: " + FormatList(missing))
      else
        Ok(cfg)
  }

  /** The error for missing service variables names exactly the empty ones. */
  lemma LoadReportsMissing(env: Env)
    requires AllSet(env, DatabaseVars)
    requires !AllSet(env, ServiceVars)
    ensures Load(None, env) == Err("missing required environment variables: " + FormatList(MissingServiceVars(env)))
  {
    AllSetDatabase(env);
    AllSetService(env);
  }
}
