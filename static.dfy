/**
 * The static backend (pkg/providers/asg/static/static.go): the members are the
 * initial-cluster descriptor's, computed once at configuration time.
 */
module Static {
  import opened Wrappers
  import opened Providers
  import opened Asg

  /** The backend's configuration, bound from the keys `name`, `size` and `initial-cluster`. */
  datatype Config = Config(name: string, size: int, initialCluster: string)

  /** The zero configuration the parameters are bound onto. */
  const Zero := Config("", 0, "")

  /** Binding the parameter map onto `c`, field by field. */
  function Bind(params: map<string, Param>, c: Config): Bound<Config> {
    var name := BindString(params, "name", c.name);
    var size := BindInt(params, "size", c.size);
    var cluster := BindString(params, "initial-cluster", c.initialCluster);
    Bound(Config(name.value, size.value, cluster.value), name.ok && size.ok && cluster.ok)
  }

  class StaticProvider {
    var config: Config
    var self: Option<Instance>
    var instances: seq<Instance>

    /** The registered provider before configuration: zero configuration, no members, no self. */
    constructor ()
      ensures config == Zero && self == None && instances == []
    {
      config := Zero;
      self := None;
      instances := [];
    }

    /**
     * `Configure`. The configuration is reset and rebound in every case. On a decode
     * error, a descriptor that does not parse or a size mismatch, the error is returned
     * and the members and `self` are left as they were. Otherwise the members become one
     * instance per descriptor entry, as many as the declared size, and `self` becomes the
     * entry named as configured; when no entry has that name, `self` is not reset and
     * keeps its previous value.
     */
    method Configure(params: map<string, Param>, hostOf: string -> Option<string>) returns (err: Option<Error>)
      modifies this
      ensures config == Bind(params, Zero).value
      ensures !Bind(params, Zero).ok ==> err == Some(InvalidConfiguration) && instances == old(instances) && self == old(self)
      ensures Bind(params, Zero).ok ==>
        match ValidatedCluster(config.initialCluster, config.size, hostOf)
        case Failure(e) => err == Some(e) && instances == old(instances) && self == old(self)
        case Success(m) =>
          && err == None
          && ListsEntries(instances, m)
          && |instances| == config.size
          && self == if config.name in m then Some(Instance(config.name, m[config.name])) else old(self)
    {
      config := Zero;
      var bound := Bind(params, config);
      config := bound.value;
      if !bound.ok {
        return Some(InvalidConfiguration);
      }
      var parsed := ParseCluster(config.initialCluster, hostOf);
      if parsed.Failure? {
        return Some(parsed.error);
      }
      var m := parsed.value;
      if |m| != config.size {
        return Some(SizeMismatch(config.initialCluster, config.size, |m|));
      }
      instances, self := Enumerate(m, config.name, self);
      return None;
    }

    /** `AutoScalingGroupStatus`: the stored members and `self`, their count as the size, and no error. */
    function Status(): (r: StatusReport<Instance>)
      reads this
      ensures r.instances == instances && r.self == self && r.size == |instances| && r.err == None
    {
      StatusReport(instances, self, |instances|, None)
    }

    /** `UID`: the backend's fixed identifier. */
    function UID(): (u: string)
      ensures u == "static"
    {
      "static"
    }

    /** `Refresh`: accepts any string map, does nothing and never fails. */
    function Refresh(values: map<string, string>): (err: Option<Error>)
      ensures err == None
    {
      None
    }
  }
}
