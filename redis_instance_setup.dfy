/** `RedisInstanceSetup`: the endpoint configuration (host name, port,
    password) kept in a process-wide singleton. Java's static `instance`
    field becomes the field of a `SetupRegistry` object. */
module InstanceSetup {
  import opened Model

  const NotInitializedMessage: string := "RedisInstanceSetup wasn't properly initialized"

  /** One endpoint configuration. No field is validated: a null (None) or
      empty host name or password and any `int` port are kept as given. */
  class RedisInstanceSetup {
    var hostname: Option<string>
    var port: Int32
    var password: Option<string>

    constructor (hostname: Option<string>, port: Int32, password: Option<string>)
      ensures this.hostname == hostname && this.port == port && this.password == password
    {
      this.hostname := hostname;
      this.port := port;
      this.password := password;
    }

    /** `getHostname`: the host name as configured, null included. */
    function GetHostname(): (r: Option<string>)
      reads this
      ensures r == hostname
    {
      hostname
    }

    /** `getPort`: the port as configured, unchecked. */
    function GetPort(): (r: Int32)
      reads this
      ensures r == port
    {
      port
    }

    /** `getPassword`: the password as configured, null included. */
    function GetPassword(): (r: Option<string>)
      reads this
      ensures r == password
    {
      password
    }
  }

  /** The static part of `RedisInstanceSetup`: the single instance, null
      until `createInstance` is first called. */
  class SetupRegistry {
    var instance: RedisInstanceSetup?

    constructor ()
      ensures instance == null
    {
      instance := null;
    }

    /** `createInstance`: allocates the instance on the first call; every
        later call overwrites the fields of that same object, so the last
        call wins. The instance is returned. */
    method CreateInstance(hostname: Option<string>, port: Int32, password: Option<string>)
      returns (r: RedisInstanceSetup)
      modifies this, instance
      ensures instance == r
      ensures r.GetHostname() == hostname && r.GetPort() == port && r.GetPassword() == password
      ensures old(instance) != null ==> r == old(instance)
      ensures old(instance) == null ==> fresh(r)
    {
      if instance == null {
        instance := new RedisInstanceSetup(hostname, port, password);
      } else {
        instance.hostname := hostname;
        instance.password := password;
        instance.port := port;
      }
      r := instance;
    }

    /** `getInstance`: the instance, or a RuntimeException before the first
        `createInstance`. */
    method GetInstance() returns (r: Result<RedisInstanceSetup, Exception>)
      ensures r.Failure? <==> instance == null
      ensures r.Failure? ==> r.error == RuntimeFailure(NotInitializedMessage)
      ensures r.Success? ==> r.value == instance
    {
      if instance == null {
        return Failure(RuntimeFailure(NotInitializedMessage));
      }
      return Success(instance);
    }
  }

  /** A reconfiguration after the first: the caller's earlier reference sees
      the new endpoint, and `getInstance` returns that same object. */
  method Reconfigure(registry: SetupRegistry, hostname: Option<string>, port: Int32, password: Option<string>)
    returns (r: Result<RedisInstanceSetup, Exception>)
    requires registry.instance != null
    modifies registry, registry.instance
    ensures r == Success(old(registry.instance))
    ensures r.value.GetHostname() == hostname && r.value.GetPort() == port && r.value.GetPassword() == password
  {
    var created := registry.CreateInstance(hostname, port, password);
    r := registry.GetInstance();
  }
}
