/**
 * The docker backend (pkg/providers/asg/docker/docker.go): the members are the running
 * containers whose names match a filter, and the local host is recognised by its
 * hostname occurring in a container's identifier.
 */
module Docker {
  import opened Wrappers
  import opened Strings
  import opened Providers
  import opened Asg

  /** The backend's configuration, bound from the keys `size` and `name-filter`. */
  datatype Config = Config(size: int, nameFilter: string)

  /** The defaults the parameters are bound onto. */
  const Defaults := Config(3, "eco-")

  /** Binding the parameter map onto `c`, field by field. */
  function Bind(params: map<string, Param>, c: Config): Bound<Config> {
    var size := BindInt(params, "size", c.size);
    var filter := BindString(params, "name-filter", c.nameFilter);
    Bound(Config(size.value, filter.value), size.ok && filter.ok)
  }

  /**
   * The merge law: a parameter that is given with the right shape overrides its
   * default, an absent or null one keeps it, and binding fails exactly when a given
   * parameter has the wrong shape.
   */
  lemma BindMergesOntoDefaults(params: map<string, Param>)
    ensures var b := Bind(params, Defaults);
      && (!Given(params, "size") ==> b.value.size == 3)
      && (!Given(params, "name-filter") ==> b.value.nameFilter == "eco-")
      && (b.ok <==> ((Given(params, "size") ==> params["size"].PInt? && MinInt <= params["size"].i <= MaxInt)
                  && (Given(params, "name-filter") ==> params["name-filter"].PString?)))
      && (b.ok && Given(params, "size") ==> b.value.size == params["size"].i)
      && (b.ok && Given(params, "name-filter") ==> b.value.nameFilter == params["name-filter"].s)
  {
  }

  /** Overriding only the size keeps the default name filter. */
  lemma BindSizeOnly()
    ensures Bind(map["size" := PInt(5)], Defaults) == Bound(Config(5, "eco-"), true)
  {
  }

  /** A size key left without a value keeps the default size, and binding succeeds. */
  lemma BindNullSize()
    ensures Bind(map["size" := PNull], Defaults) == Bound(Defaults, true)
  {
  }

  /** A container as the runtime's inspection reports it. */
  datatype Container = Container(id: string, name: string, address: string)

  /** The key the local host is recognised by: the container's identifier. */
  function ContainerId(c: Container): string {
    c.id
  }

  /**
   * Inspecting every listed name in order, stopping at the first inspection that
   * fails.
   */
  function InspectAll(names: seq<string>, inspect: string -> Result<Container, Error>): Result<seq<Container>, Error> {
    if names == [] then Success([])
    else match inspect(names[0])
      case Failure(e) => Failure(e)
      case Success(c) => Prefixed([c], InspectAll(names[1..], inspect))
  }

  /**
   * Inspecting all names succeeds exactly when every inspection does, and then yields
   * the inspected containers in list order; otherwise it yields the error of the first
   * inspection that fails.
   */
  lemma {:induction false} InspectAllMeaning(names: seq<string>, inspect: string -> Result<Container, Error>)
    ensures var r := InspectAll(names, inspect);
      && (r.Success? <==> forall i :: 0 <= i < |names| ==> inspect(names[i]).Success?)
      && (r.Success? ==> |r.value| == |names| && forall i :: 0 <= i < |names| ==> inspect(names[i]) == Success(r.value[i]))
      && (r.Failure? ==> exists i :: 0 <= i < |names| && inspect(names[i]) == Failure(r.error)
                                  && forall j :: 0 <= j < i ==> inspect(names[j]).Success?)
  {
    if names != [] {
      InspectAllMeaning(names[1..], inspect);
      var r := InspectAll(names, inspect);
      if inspect(names[0]).Success? {
        var tail := InspectAll(names[1..], inspect);
        if tail.Failure? {
          var i :| 0 <= i < |names| - 1 && inspect(names[1..][i]) == Failure(tail.error)
                   && forall j :: 0 <= j < i ==> inspect(names[1..][j]).Success?;
          assert inspect(names[i + 1]) == Failure(r.error);
          forall j | 0 <= j < i + 1 ensures inspect(names[j]).Success? {
            if j > 0 {
              assert names[j] == names[1..][j - 1];
            }
          }
        } else {
          forall i | 0 <= i < |names| ensures inspect(names[i]) == Success(r.value[i]) {
            if i > 0 {
              assert names[i] == names[1..][i - 1];
            }
          }
        }
        assert r.Success? ==> forall i :: 0 <= i < |names| ==> inspect(names[i]).Success?;
        assert (forall i :: 0 <= i < |names| ==> inspect(names[i]).Success?) ==> tail.Success? by {
          if forall i :: 0 <= i < |names| ==> inspect(names[i]).Success? {
            forall i | 0 <= i < |names| - 1 ensures inspect(names[1..][i]).Success? {
              assert names[1..][i] == names[i + 1];
            }
          }
        }
      }
    }
  }

  /** `r` with `prefix` put in front of its containers. */
  function Prefixed(prefix: seq<Container>, r: Result<seq<Container>, Error>): Result<seq<Container>, Error> {
    match r
    case Failure(e) => Failure(e)
    case Success(cs) => Success(prefix + cs)
  }

  /** Inspecting from position `i` on, after the containers before `i` have been inspected successfully. */
  lemma InspectStep(names: seq<string>, i: nat, inspect: string -> Result<Container, Error>)
    requires i < |names|
    ensures InspectAll(names[i..], inspect) == match inspect(names[i])
      case Failure(e) => Failure(e)
      case Success(c) => Prefixed([c], InspectAll(names[i + 1..], inspect))
  {
    assert names[i..][1..] == names[i + 1..];
  }

  class DockerProvider {
    var config: Config

    /** The registered provider before configuration: zero configuration. */
    constructor ()
      ensures config == Config(0, "")
    {
      config := Config(0, "");
    }

    /** `Configure`: the defaults (size 3, name filter `eco-`) with the parameters bound over them. */
    method Configure(params: map<string, Param>) returns (err: Option<Error>)
      modifies this
      ensures config == Bind(params, Defaults).value
      ensures err == if Bind(params, Defaults).ok then None else Some(InvalidConfiguration)
    {
      config := Defaults;
      var bound := Bind(params, config);
      config := bound.value;
      if !bound.ok {
        return Some(InvalidConfiguration);
      }
      return None;
    }

    /**
     * `AutoScalingGroupStatus`. `list` stands for listing the containers whose names
     * match the filter, `inspect` for inspecting one, and `hostname` for the local
     * hostname (empty when it cannot be read). A failed listing or inspection fails
     * the whole query. Otherwise the members are the inspected containers in list
     * order, `self` is the last one whose identifier contains the hostname, and the
     * size is the configured one, whatever the number of containers.
     */
    method Status(hostname: string, list: string -> Result<seq<string>, Error>, inspect: string -> Result<Container, Error>)
      returns (r: StatusReport<Container>)
      ensures list(config.nameFilter).Failure? ==> r == Failed(list(config.nameFilter).error)
      ensures list(config.nameFilter).Success? ==>
        match InspectAll(list(config.nameFilter).value, inspect)
        case Failure(e) => r == Failed(e)
        case Success(cs) =>
          && r.instances == cs
          && r.self == SelfOf(cs, ContainerId, hostname)
          && r.size == config.size
          && r.err == None
    {
      var listed := list(config.nameFilter);
      if listed.Failure? {
        return Failed(listed.error);
      }
      var names := listed.value;
      var instances: seq<Container> := [];
      var self: Option<Container> := None;
      var i := 0;
      assert names[0..] == names;
      match InspectAll(names, inspect) {
        case Failure(_) =>
        case Success(cs) => assert instances + cs == cs;
      }
      while i < |names|
        invariant 0 <= i <= |names|
        invariant InspectAll(names, inspect) == Prefixed(instances, InspectAll(names[i..], inspect))
        invariant self == SelfOf(instances, ContainerId, hostname)
      {
        var container := inspect(names[i]);
        InspectStep(names, i, inspect);
        if container.Failure? {
          return Failed(container.error);
        }
        ghost var rest := InspectAll(names[i + 1..], inspect);
        match rest {
          case Failure(_) =>
          case Success(cs) => assert instances + ([container.value] + cs) == (instances + [container.value]) + cs;
        }
        if Contains(container.value.id, hostname) {
          self := Some(container.value);
        }
        SelfOfAppend(instances, container.value, ContainerId, hostname);
        instances := instances + [container.value];
        i := i + 1;
      }
      assert names[|names|..] == [] && instances + [] == instances;
      return StatusReport(instances, self, config.size, None);
    }
  }
}
