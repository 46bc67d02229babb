/**
 * Configuration loading from the process environment, modelled as a map from
 * variable names to values (an unset variable is absent from the map).
 */
module Config {
  import opened Wrappers
  import Strings
  import Strconv

  type Env = map<string, string>

  /** The origin allowed when ALLOWED_ORIGINS is unset or empty. */
  const DefaultOrigin: string := "http://localhost:3000"

  datatype Config = Config(
    databaseUrl: string,
    port: int,
    allowedOrigins: seq<string>,
    clerkSecretKey: string,
    env: string)

  /** `os.Getenv`: "" for an unset variable. */
  function Getenv(env: Env, key: string): string
  {
    if key in env then env[key] else ""
  }

  /** `getEnv`: the variable's value if non-empty, else the default; set-but-empty counts as unset. */
  function GetEnv(env: Env, key: string, default: string): (v: string)
    ensures key in env && env[key] != "" ==> v == env[key]
    ensures key !in env || env[key] == "" ==> v == default
  {
    var value := Getenv(env, key);
    if value == "" then default else value
  }

  /** `Load`, after the optional `.env` file has been merged into the environment. */
  function Load(env: Env): (r: Result<Config, string>)
    ensures r.Err? <==> Getenv(env, "DATABASE_URL") == ""
    ensures r.Err? ==> r.error == "DATABASE_URL environment variable is required"
    ensures r.Ok? ==> r.value.databaseUrl == env["DATABASE_URL"]
    ensures r.Ok? ==> r.value.clerkSecretKey == GetEnv(env, "CLERK_SECRET_KEY", "")
    ensures r.Ok? ==> r.value.env == GetEnv(env, "ENV", "development")
  {
    var dbUrl := Getenv(env, "DATABASE_URL");
    if dbUrl == "" then Err("DATABASE_URL environment variable is required")
    else
      // the conversion error is discarded: the value Atoi returns with it is kept
      var port := Strconv.Atoi(GetEnv(env, "PORT", "8080")).value;
      var origins := Strings.Split(GetEnv(env, "ALLOWED_ORIGINS", DefaultOrigin), ',');
      Ok(Config(dbUrl, port, origins, GetEnv(env, "CLERK_SECRET_KEY", ""), GetEnv(env, "ENV", "development")))
  }

  /** PORT: a numeral in the int64 range gives its value, an unset or empty PORT gives 8080,
      an out-of-range numeral gives the int64 bound of its sign, and anything else gives 0
      silently. */
  lemma LoadPort(env: Env)
    requires Load(env).Ok?
    ensures var p := GetEnv(env, "PORT", "8080");
      && (Strconv.IsDecimalInt64(p) ==> Load(env).value.port == Strconv.DecimalValue(p))
      && (Strconv.OutOfRange(p) ==> Load(env).value.port == Strconv.SignedBound(p))
      && (!Strconv.IsDecimalInt64(p) && !Strconv.OutOfRange(p) ==> Load(env).value.port == 0)
    ensures Getenv(env, "PORT") == "" ==> Load(env).value.port == 8080
  {
    Strconv.AtoiSpec(GetEnv(env, "PORT", "8080"));
    if Getenv(env, "PORT") == "" {
      Strconv.ItoaAtoi(8080);
      assert Strconv.Itoa(8080) == "8080";
    }
  }

  /** ALLOWED_ORIGINS: split on ',' with no trimming; the pieces contain no ',' and re-joined
      give back the variable (or the default "http://localhost:3000", a single origin). */
  lemma LoadOrigins(env: Env)
    requires Load(env).Ok?
    ensures var o := Load(env).value.allowedOrigins;
      && |o| >= 1
      && (forall i :: 0 <= i < |o| ==> ',' !in o[i])
      && Strings.Join(o, [',']) == GetEnv(env, "ALLOWED_ORIGINS", DefaultOrigin)
  {
    var v := GetEnv(env, "ALLOWED_ORIGINS", DefaultOrigin);
    assert Load(env).value.allowedOrigins == Strings.Split(v, ',');
    Strings.JoinSplit(v, ',');
  }

  /** With ALLOWED_ORIGINS unset or empty the single default origin is allowed. */
  lemma LoadOriginsDefault(env: Env)
    requires Load(env).Ok?
    requires Getenv(env, "ALLOWED_ORIGINS") == ""
    ensures Load(env).value.allowedOrigins == [DefaultOrigin]
  {
    assert Load(env).value.allowedOrigins == Strings.Split(GetEnv(env, "ALLOWED_ORIGINS", DefaultOrigin), ',');
    assert GetEnv(env, "ALLOWED_ORIGINS", DefaultOrigin) == DefaultOrigin;
    DefaultOriginSingle();
  }

  lemma DefaultOriginSingle()
    ensures Strings.Split(DefaultOrigin, ',') == [DefaultOrigin]
  {
    assert forall i :: 0 <= i < |DefaultOrigin| ==> DefaultOrigin[i] != ',';
    Strings.SplitNoSeparator(DefaultOrigin, ',');
  }
}
