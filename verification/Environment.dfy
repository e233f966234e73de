/** The environment of a process, as `getenv` and `setenv` see it. */
module Environment {
  import opened Bytes

  type Env = map<seq<byte>, seq<byte>>

  function Get(env: Env, name: seq<byte>): Option<seq<byte>> {
    if name in env then Some(env[name]) else None
  }

  class Process {
    var env: Env

    constructor (env: Env)
      ensures this.env == env
    {
      this.env := env;
    }

    method GetEnv(name: seq<byte>) returns (value: Option<seq<byte>>)
      ensures value == Get(env, name)
    {
      value := if name in env then Some(env[name]) else None;
    }

    method SetEnv(name: seq<byte>, value: seq<byte>)
      modifies this
      ensures env == old(env)[name := value]
    {
      env := env[name := value];
    }
  }
}
