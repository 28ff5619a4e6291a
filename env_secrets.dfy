/** The layered secret lookup of the library's build script: an optional
    `.env` file is loaded once into a `Properties` table, and `getEnv` asks
    that table first and the process environment second. */
module EnvSecrets {
  import opened Wrappers

  /** The `.env` file at the root of the project. Its text is given here
      already parsed into key/value pairs, as `Properties.load` leaves it. */
  datatype EnvFile = Missing | Present(parsed: map<string, string>)

  /** The mutable `java.util.Properties` table the build script fills. */
  class Properties {
    var table: map<string, string>

    /** `Properties()`: a new, empty table. */
    constructor ()
      ensures table == map[]
    {
      table := map[];
    }

    /** `properties.load(stream)`: every pair read from the stream is put into
        the table, replacing an earlier value for the same key. */
    method Load(parsed: map<string, string>)
      modifies this
      ensures table == old(table) + parsed
    {
      table := table + parsed;
    }

    /** `getProperty(key)`: the stored value, or `null` for a key never put. */
    function GetProperty(key: string): (r: Option<string>)
      reads this
      ensures r.Some? <==> key in table
      ensures r.Some? ==> r.value == table[key]
    {
      Lookup(table, key)
    }
  }

  /** `loadEnv()`: a fresh table holding the `.env` pairs, or an empty one
      when the file does not exist; a missing file is not an error. */
  method LoadEnv(envFile: EnvFile) returns (env: Properties)
    ensures fresh(env)
    ensures envFile.Missing? ==> env.table == map[]
    ensures envFile.Present? ==> env.table == envFile.parsed
  {
    env := new Properties();
    if envFile.Present? {
      env.Load(envFile.parsed);
    }
  }

  /** `getEnv(key)`: `env.getProperty(key) ?: System.getenv(key)`. The elvis
      operator falls back only on `null`, so a key the `.env` table holds
      hides the environment whatever its value, the empty string included. */
  function GetEnv(env: Properties, environment: map<string, string>, key: string): (r: Option<string>)
    reads env
    ensures key in env.table ==> r == Some(env.table[key])
    ensures key !in env.table && key in environment ==> r == Some(environment[key])
    ensures r == None <==> key !in env.table && key !in environment
  {
    match env.GetProperty(key)
    case Some(v) => Some(v)
    case None => Lookup(environment, key)
  }

  /** A chain of providers asked in order; the first one that holds the key
      answers. The reference the two-layer lookup is measured against. */
  function ResolveChain(layers: seq<map<string, string>>, key: string): (r: Option<string>)
  {
    if layers == [] then None
    else if key in layers[0] then Some(layers[0][key])
    else ResolveChain(layers[1..], key)
  }

  /** The chain answers with the value of the first layer that holds the key. */
  lemma {:induction false} ResolveChainFirst(layers: seq<map<string, string>>, key: string, i: nat)
    requires i < |layers| && key in layers[i]
    requires forall j :: 0 <= j < i ==> key !in layers[j]
    ensures ResolveChain(layers, key) == Some(layers[i][key])
  {
    if i > 0 {
      assert key !in layers[0];
      ResolveChainFirst(layers[1..], key, i - 1);
    }
  }

  /** The chain answers `null` exactly when no layer holds the key. */
  lemma {:induction false} ResolveChainNone(layers: seq<map<string, string>>, key: string)
    ensures ResolveChain(layers, key) == None <==> forall j :: 0 <= j < |layers| ==> key !in layers[j]
  {
    if layers != [] {
      ResolveChainNone(layers[1..], key);
      if key !in layers[0] {
        assert forall j :: 1 <= j < |layers| ==> layers[j] == layers[1..][j - 1];
      }
    }
  }

  /** `getEnv` is the two-layer chain: the `.env` table, then the environment. */
  lemma GetEnvIsChain(env: Properties, environment: map<string, string>, key: string)
    ensures GetEnv(env, environment, key) == ResolveChain([env.table, environment], key)
  {
    var layers := [env.table, environment];
    if key in env.table {
      ResolveChainFirst(layers, key, 0);
    } else if key in environment {
      ResolveChainFirst(layers, key, 1);
    } else {
      ResolveChainNone(layers, key);
    }
  }

  /** `val env = loadEnv()` followed by `getEnv(key)`: the `.env` pairs win;
      without a `.env` file the lookup is the plain environment lookup. */
  method Resolve(envFile: EnvFile, environment: map<string, string>, key: string) returns (r: Option<string>)
    ensures envFile.Missing? ==> r == Lookup(environment, key)
    ensures envFile.Present? && key in envFile.parsed ==> r == Some(envFile.parsed[key])
    ensures envFile.Present? && key !in envFile.parsed ==> r == Lookup(environment, key)
  {
    var env := LoadEnv(envFile);
    r := GetEnv(env, environment, key);
  }

  /** An empty `.env` value still hides a non-empty environment value. */
  method EmptyValueShadowsEnvironment()
  {
    var env := new Properties();
    env.Load(map["GITHUB_TOKEN" := ""]);
    var r := GetEnv(env, map["GITHUB_TOKEN" := "xyz789"], "GITHUB_TOKEN");
    assert r == Some("");
  }

  /** The `.env` value wins over the environment; without the file, the
      environment answers. */
  method LayeringScenarios()
  {
    var fromFile := Resolve(Present(map["GITHUB_TOKEN" := "abc123"]), map["GITHUB_TOKEN" := "xyz789"], "GITHUB_TOKEN");
    assert fromFile == Some("abc123");
    var fromEnvironment := Resolve(Missing, map["GITHUB_USERNAME" := "bob"], "GITHUB_USERNAME");
    assert fromEnvironment == Some("bob");
    var unset := Resolve(Missing, map[], "GITHUB_USERNAME");
    assert unset == None;
  }
}
