/**
 * The kubernetes backend (pkg/providers/asg/kubernetes/lib.go): the members and the
 * expected size are read from a membership file that describes an etcd cluster
 * resource, and the local host is recognised by its hostname occurring in a member's
 * name.
 */
module Kubernetes {
  import opened Wrappers
  import opened Strings
  import opened Providers
  import opened Asg

  /** One member as the membership file lists it. */
  datatype EtcdInstance = EtcdInstance(name: string, address: string)

  /** The `spec` part of the cluster resource: the members and the expected size. */
  datatype ClusterSpec = ClusterSpec(instances: seq<EtcdInstance>, size: int)

  /** The decoded membership file. */
  datatype EtcdCluster = EtcdCluster(spec: ClusterSpec)

  /** The key the local host is recognised by: the member's name. */
  function InstanceName(i: EtcdInstance): string {
    i.name
  }

  /** The backend's configuration, bound from the key `membership-file`. */
  datatype Config = Config(membershipFile: string)

  /** The zero configuration the parameters are bound onto. */
  const Zero := Config("")

  /** Binding the parameter map onto `c`. */
  function Bind(params: map<string, Param>, c: Config): Bound<Config> {
    var file := BindString(params, "membership-file", c.membershipFile);
    Bound(Config(file.value), file.ok)
  }

  /**
   * The merge law for the one key: a string parameter sets the membership file, an
   * absent or null one leaves it empty, and any other shape fails the binding.
   */
  lemma BindMembershipFile(params: map<string, Param>)
    ensures var b := Bind(params, Zero);
      && (b.ok <==> (Given(params, "membership-file") ==> params["membership-file"].PString?))
      && (!Given(params, "membership-file") ==> b.value.membershipFile == "")
      && (b.ok && Given(params, "membership-file") ==> b.value.membershipFile == params["membership-file"].s)
  {
  }

  class KubernetesProvider {
    var config: Config

    /** The registered provider before configuration: zero configuration. */
    constructor ()
      ensures config == Zero
    {
      config := Zero;
    }

    /** `Configure`: the configuration is reset and the parameters bound onto it. */
    method Configure(params: map<string, Param>) returns (err: Option<Error>)
      modifies this
      ensures config == Bind(params, Zero).value
      ensures err == if Bind(params, Zero).ok then None else Some(InvalidConfiguration)
    {
      config := Zero;
      var bound := Bind(params, config);
      config := bound.value;
      if !bound.ok {
        return Some(InvalidConfiguration);
      }
      return None;
    }

    /**
     * `Members`. `load` stands for reading the membership file at the given path and
     * decoding it, and `hostname` for the local hostname (empty when it cannot be
     * read). A failed read or decode fails the whole query. Otherwise the members are
     * the file's instances in file order, `self` is the last one whose name contains
     * the hostname, and the size is the file's declared size, whatever the number of
     * instances.
     */
    method Members(hostname: string, load: string -> Result<EtcdCluster, Error>)
      returns (r: StatusReport<EtcdInstance>)
      ensures load(config.membershipFile).Failure? ==> r == Failed(load(config.membershipFile).error)
      ensures load(config.membershipFile).Success? ==>
        var spec := load(config.membershipFile).value.spec;
        && r.instances == spec.instances
        && r.self == SelfOf(spec.instances, InstanceName, hostname)
        && r.size == spec.size
        && r.err == None
    {
      var loaded := load(config.membershipFile);
      if loaded.Failure? {
        return Failed(loaded.error);
      }
      var cluster := loaded.value;
      var instances: seq<EtcdInstance> := [];
      var self: Option<EtcdInstance> := None;
      var i := 0;
      while i < |cluster.spec.instances|
        invariant 0 <= i <= |cluster.spec.instances|
        invariant instances == cluster.spec.instances[..i]
        invariant self == SelfOf(instances, InstanceName, hostname)
      {
        var member := cluster.spec.instances[i];
        if Contains(member.name, hostname) {
          self := Some(member);
        }
        SelfOfAppend(instances, member, InstanceName, hostname);
        instances := instances + [member];
        i := i + 1;
      }
      assert instances == cluster.spec.instances;
      return StatusReport(instances, self, cluster.spec.size, None);
    }
  }
}
