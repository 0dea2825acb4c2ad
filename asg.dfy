/**
 * The contract every membership backend answers (the `asg` package's Provider and
 * Instance): a status query returns the expected members, the one that is the local
 * host, and the expected cluster size.
 */
module Asg {
  import opened Wrappers
  import opened Strings
  import opened Providers

  /** One cluster member as a backend sees it. */
  datatype Instance = Instance(name: string, address: string)

  /**
   * The answer of a status query: `(instances, self, size, err)`. `self` is `None` when
   * no instance is the local host, which is not an error.
   */
  datatype StatusReport<I> = StatusReport(instances: seq<I>, self: Option<I>, size: int, err: Option<Error>)

  /** The answer when a query fails: `(nil, nil, 0, err)`. */
  function Failed<I>(e: Error): (r: StatusReport<I>)
    ensures r.instances == [] && r.self == None && r.size == 0 && r.err == Some(e)
  {
    StatusReport([], None, 0, Some(e))
  }

  /**
   * `instances` lists the entries of `m` in some order: each entry exactly once, as an
   * instance carrying its name and address, and nothing else.
   */
  ghost predicate ListsEntries(instances: seq<Instance>, m: map<string, string>) {
    && |instances| == |m|
    && (forall x :: x in instances <==> x.name in m && m[x.name] == x.address)
    && (forall i, j :: 0 <= i < j < |instances| ==> instances[i].name != instances[j].name)
  }

  /**
   * Turning a name-to-address map into instances, visiting the entries in an unspecified
   * order (Go's map iteration), and picking as `self` the entry whose name equals `name`;
   * `self` keeps the value `self0` it had before when no entry has that name.
   */
  method Enumerate(m: map<string, string>, name: string, self0: Option<Instance>)
    returns (instances: seq<Instance>, self: Option<Instance>)
    ensures ListsEntries(instances, m)
    ensures self == if name in m then Some(Instance(name, m[name])) else self0
  {
    instances := [];
    self := self0;
    var rest := m.Keys;
    while rest != {}
      invariant rest <= m.Keys
      invariant |instances| + |rest| == |m|
      invariant forall x :: x in instances <==> x.name in m && x.name !in rest && m[x.name] == x.address
      invariant forall i, j :: 0 <= i < j < |instances| ==> instances[i].name != instances[j].name
      invariant self == if name in m && name !in rest then Some(Instance(name, m[name])) else self0
      decreases rest
    {
      var k :| k in rest;
      var i := Instance(k, m[k]);
      if i.name == name {
        self := Some(i);
      }
      instances := instances + [i];
      rest := rest - {k};
    }
  }

  /** The only instance of `instances` named `name`, given that they list the entries of `m`. */
  lemma ListedByName(instances: seq<Instance>, m: map<string, string>, name: string)
    requires ListsEntries(instances, m)
    ensures name in m <==> exists i :: 0 <= i < |instances| && instances[i].name == name
    ensures forall i :: 0 <= i < |instances| && instances[i].name == name ==> instances[i] == Instance(name, m[name])
  {
    if name in m {
      assert Instance(name, m[name]) in instances;
    }
  }

  /** Index of the last element of `s` whose `key` contains `host`, if there is one. */
  function LastMatch<T>(s: seq<T>, key: T -> string, host: string): (r: Option<nat>)
    ensures r.Some? ==> r.value < |s| && Contains(key(s[r.value]), host)
    ensures r.Some? ==> forall j :: r.value < j < |s| ==> !Contains(key(s[j]), host)
    ensures r.None? <==> forall j :: 0 <= j < |s| ==> !Contains(key(s[j]), host)
  {
    if s == [] then None
    else if Contains(key(s[|s| - 1]), host) then Some(|s| - 1)
    else LastMatch(s[..|s| - 1], key, host)
  }

  /** The element of `s` that the hostname-substring heuristic selects as the local host. */
  function SelfOf<T>(s: seq<T>, key: T -> string, host: string): Option<T> {
    match LastMatch(s, key, host)
    case None => None
    case Some(i) => Some(s[i])
  }

  /** Appending one element: it becomes the selection if it matches, otherwise the selection stays. */
  lemma SelfOfAppend<T>(s: seq<T>, x: T, key: T -> string, host: string)
    ensures SelfOf(s + [x], key, host) == if Contains(key(x), host) then Some(x) else SelfOf(s, key, host)
  {
    assert (s + [x])[..|s|] == s;
  }

  /** With an empty hostname every key matches, so the last element is selected. */
  lemma SelfOfEmptyHost<T>(s: seq<T>, key: T -> string)
    requires s != []
    ensures SelfOf(s, key, "") == Some(s[|s| - 1])
  {
    ContainsEmpty(key(s[|s| - 1]));
  }
}
