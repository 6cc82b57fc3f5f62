/**
 * The `Template` wrapper of template/template.go without its rendering: the
 * name and body, the variable store that callers fill before rendering and
 * the snapshot of the process environment taken at construction.
 */
module Template {
  import opened Wrappers
  import Text
  import KeyValue

  /**
   * A variable's value. Go stores `interface{}`; the values that reach the
   * store are strings (`--var`), 64-bit floats (`--num`, kept as their bits)
   * and whatever a vars file decodes to: integers, or other values told
   * apart only by identity.
   */
  datatype Value = Str(s: string) | Int(i: int) | Float(bits: bv64) | Other(id: nat)

  /** The errors `Var` and `Env` return for a key that is not set and has no default. */
  datatype LookupError = UnsetVariable(key: string) | UnsetEnv(key: string)

  /** The text of the error, as `fmt.Errorf` formats it. */
  function Message(e: LookupError): string
  {
    match e
    case UnsetVariable(key) => "template variable `" + key + "` is unset and no default is provided"
    case UnsetEnv(key) => "template env variable `" + key + "` is unset and no default is provided"
  }

  /** The error message names the key that was missing. */
  lemma MessageNamesKey(e: LookupError)
    ensures Text.Contains(Message(e), e.key)
  {
    var prefix := if e.UnsetVariable? then "template variable `" else "template env variable `";
    var m := Message(e);
    assert m[|prefix|..|prefix| + |e.key|] == e.key;
    assert Text.OccursAt(m, e.key, |prefix|);
  }

  /** The name `Name` falls back to. */
  const DefaultName: string := "template"

  /**
   * The lookup shared by `Var` and `Env`: the stored value, else the first
   * default, else the error for the key.
   */
  function Lookup<V>(m: map<string, V>, key: string, defaults: seq<V>, unset: LookupError): Result<V, LookupError>
  {
    if key in m then Success(m[key])
    else if |defaults| > 0 then Success(defaults[0])
    else Failure(unset)
  }

  /** The environment snapshot `parseEnvVars` builds from `KEY=VALUE` entries. */
  function EnvSnapshot(envVars: seq<string>): map<string, string>
  {
    KeyValue.Assign(envVars, KeyValue.EnvPair)
  }

  /**
   * `parseEnvVars`: every entry split on `=`; entries without `=` are skipped,
   * the others map the text before the first `=` to the text between the first
   * and the second `=`, and a later entry overwrites an earlier one.
   */
  method ParseEnvVars(envVars: seq<string>) returns (vars: map<string, string>)
    ensures vars == EnvSnapshot(envVars)
  {
    vars := map[];
    for n := 0 to |envVars|
      invariant KeyValue.AssignFrom(vars, envVars[n..], KeyValue.EnvPair) == EnvSnapshot(envVars)
    {
      var parts := Text.Split(envVars[n], '=');
      if |parts| > 1 {
        vars := vars[parts[0] := parts[1]];
      }
      assert envVars[n..][1..] == envVars[n + 1..];
    }
  }

  /** Every key of the snapshot comes from some entry, and its value from the last entry with that key. */
  lemma EnvSnapshotLastWins(envVars: seq<string>, i: nat)
    requires i < |envVars| && '=' in envVars[i]
    requires forall j :: i < j < |envVars| ==>
               !KeyValue.Defines(envVars[j], KeyValue.EnvPair, KeyValue.EnvPair(envVars[i]).value.0)
    ensures var kv := KeyValue.EnvPair(envVars[i]).value;
            kv.0 in EnvSnapshot(envVars) && EnvSnapshot(envVars)[kv.0] == kv.1
  {
    KeyValue.AssignFromLastWins(map[], envVars, KeyValue.EnvPair, i);
  }

  /** A key is in the snapshot exactly when some entry with an `=` has it before its first `=`. */
  lemma EnvSnapshotKeys(envVars: seq<string>, key: string)
    ensures key in EnvSnapshot(envVars)
            <==> exists i :: 0 <= i < |envVars| && KeyValue.Defines(envVars[i], KeyValue.EnvPair, key)
  {
    KeyValue.AssignFromKeys(map[], envVars, KeyValue.EnvPair, key);
  }

  /** An environment value is cut at its second `=`. */
  lemma EnvValueStopsAtSecondEquals()
    ensures EnvSnapshot(["OPTS=a=b"]) == map["OPTS" := "a"]
  {
    KeyValue.EnvAndFlagPairsDiffer();
    KeyValue.AssignSingle("OPTS=a=b", KeyValue.EnvPair);
  }

  class Template {
    var name: string
    var body: string
    var vars: map<string, Value>
    var env: map<string, string>

    /** `New`: no name, an empty body and no variables; the environment is read once, here. */
    constructor New(environ: seq<string>)
      ensures name == "" && body == "" && vars == map[]
      ensures env == EnvSnapshot(environ)
    {
      var snapshot := ParseEnvVars(environ);
      name := "";
      body := "";
      vars := map[];
      env := snapshot;
    }

    /** `NewFromFile` once the file is read: named after its path, with its contents as the body. */
    constructor FromFile(filepath: string, contents: string, environ: seq<string>)
      ensures name == filepath && body == contents && vars == map[]
      ensures env == EnvSnapshot(environ)
    {
      var snapshot := ParseEnvVars(environ);
      name := filepath;
      body := contents;
      vars := map[];
      env := snapshot;
    }

    /** `WithName`: sets the name and nothing else, and returns this same template. */
    method WithName(newName: string) returns (t: Template)
      modifies this
      ensures t == this
      ensures name == newName && body == old(body) && vars == old(vars) && env == old(env)
    {
      name := newName;
      t := this;
    }

    /** `Name`: the name if it is set, else `"template"`; never empty. */
    function Name(): (r: string)
      reads this
      ensures r != []
      ensures |name| > 0 ==> r == name
      ensures |name| == 0 ==> r == DefaultName
    {
      if |name| > 0 then name else DefaultName
    }

    /** `WithBody`: sets the body and nothing else, and returns this same template. */
    method WithBody(newBody: string) returns (t: Template)
      modifies this
      ensures t == this
      ensures body == newBody && Body() == newBody
      ensures name == old(name) && vars == old(vars) && env == old(env)
    {
      body := newBody;
      t := this;
    }

    /** `Body`. */
    function Body(): string
      reads this
    {
      body
    }

    /** `WithVar`: `SetVar`, then returns this same template. */
    method WithVar(key: string, value: Value) returns (t: Template)
      modifies this
      ensures t == this
      ensures vars == old(vars)[key := value]
      ensures name == old(name) && body == old(body) && env == old(env)
    {
      SetVar(key, value);
      t := this;
    }

    /**
     * `SetVar`: an upsert. Afterwards the key is set and `Var` returns the new
     * value whatever defaults it is given; every other key is as it was.
     */
    method SetVar(key: string, value: Value)
      modifies this
      ensures vars == old(vars)[key := value]
      ensures HasVar(key) && forall defaults :: Var(key, defaults) == Success(value)
      ensures forall k :: k != key ==> HasVar(k) == old(HasVar(k))
      ensures forall k, defaults :: k != key ==> Var(k, defaults) == old(Var(k, defaults))
      ensures name == old(name) && body == old(body) && env == old(env)
    {
      vars := vars[key := value];
    }

    /** `HasVar`: whether the key is set. */
    function HasVar(key: string): (r: bool)
      reads this
      ensures r <==> key in vars
    {
      key in vars
    }

    /**
     * `Var`: the stored value; for a key that is not set, the first default
     * (later ones are ignored); with no default either, an error naming the key.
     */
    function Var(key: string, defaults: seq<Value>): (r: Result<Value, LookupError>)
      reads this
      ensures key in vars ==> r == Success(vars[key])
      ensures key !in vars && |defaults| > 0 ==> r == Success(defaults[0])
      ensures key !in vars && |defaults| == 0 ==> r == Failure(UnsetVariable(key))
    {
      Lookup(vars, key, defaults, UnsetVariable(key))
    }

    /** `Env`: as `Var`, over the environment snapshot. */
    function Env(key: string, defaults: seq<string>): (r: Result<string, LookupError>)
      reads this
      ensures key in env ==> r == Success(env[key])
      ensures key !in env && |defaults| > 0 ==> r == Success(defaults[0])
      ensures key !in env && |defaults| == 0 ==> r == Failure(UnsetEnv(key))
    {
      Lookup(env, key, defaults, UnsetEnv(key))
    }
  }
}
