/** The variable-binding chain used for top-level definitions: a list of frames,
    innermost first, each binding one name to one value. It is extended, never updated. */
module Env {
  import opened Results
  import opened Lang

  datatype Frame = Frame(name: string, val: Value)

  type Env = seq<Frame>

  function EmptyEnv(): (env: Env)
    ensures |env| == 0
  {
    []
  }

  /** Extends `env` with a new innermost frame binding `name` to `v`. */
  function MakeEnv(name: string, v: Value, env: Env): (r: Env)
    ensures |r| == |env| + 1 && r[0] == Frame(name, v) && r[1..] == env
  {
    [Frame(name, v)] + env
  }

  /** Looks `name` up, innermost frame first. */
  function ApplyEnv(env: Env, name: string): (r: Result<Value>)
    ensures r.Failure? ==> r.error == UnboundVariable
  {
    if env == [] then Failure(UnboundVariable)
    else if env[0].name == name then Ok(env[0].val)
    else ApplyEnv(env[1..], name)
  }

  /** Frame `i` is the innermost frame that binds `name`. */
  ghost predicate InnermostBinding(env: Env, name: string, i: int)
  {
    0 <= i < |env| && env[i].name == name &&
    forall j :: 0 <= j < i ==> env[j].name != name
  }

  /** Lookup returns the value of the innermost frame binding the name, and fails
      exactly when no frame binds it. */
  lemma {:induction false} ApplyEnvInnermost(env: Env, name: string)
    ensures forall i :: InnermostBinding(env, name, i) ==> ApplyEnv(env, name) == Ok(env[i].val)
    ensures ApplyEnv(env, name).Failure? <==> forall i :: 0 <= i < |env| ==> env[i].name != name
  {
    if env != [] && env[0].name != name {
      ApplyEnvInnermost(env[1..], name);
      forall i | InnermostBinding(env, name, i)
        ensures InnermostBinding(env[1..], name, i - 1)
      {
      }
      if ApplyEnv(env, name).Failure? {
        forall i | 0 <= i < |env|
          ensures env[i].name != name
        {
          if i > 0 { assert env[1..][i - 1] == env[i]; }
        }
      }
    }
  }

  /** A new frame shadows every outer binding of its name and hides no other name. */
  lemma MakeEnvShadows(name: string, v: Value, env: Env, other: string)
    ensures ApplyEnv(MakeEnv(name, v, env), name) == Ok(v)
    ensures other != name ==> ApplyEnv(MakeEnv(name, v, env), other) == ApplyEnv(env, other)
  {
  }
}
