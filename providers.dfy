/**
 * Shared helpers of the providers package (pkg/providers/providers.go):
 * binding a loosely typed parameter map onto a pre-set configuration, and
 * parsing an initial-cluster descriptor `name=url,name=url,...`.
 */
module Providers {
  import opened Wrappers
  import opened Strings

  /** Every error the providers report. */
  datatype Error =
    | InvalidConfiguration                     // a parameter's value does not fit the configuration field
    | InvalidInput(initialCluster: string)     // an empty or odd token stream
    | InvalidUrl(url: string, name: string)    // an address that is not a URL
    | DuplicateName(name: string)              // a member named twice
    | SizeMismatch(initialCluster: string, expected: int, found: int)
    | External(message: string)               // a failure reported by the file system or the container runtime

  // ---------------------------------------------------------------------------
  // ParseParams: the parameter map is merged onto a configuration that already
  // holds its defaults.

  /**
   * A parameter value, by the shape that matters to the configuration fields. `PNull`
   * is a key given without a value, which the decoder leaves without effect.
   */
  datatype Param = PString(s: string) | PInt(i: int) | PNull | POther

  /** Whether `key` carries a value, that is, is present and not null. */
  predicate Given(params: map<string, Param>, key: string) {
    key in params && !params[key].PNull?
  }

  const MinInt: int := -0x8000_0000_0000_0000
  const MaxInt: int := 0x7fff_ffff_ffff_ffff

  /** The value a field takes when the parameters are decoded onto it, and whether decoding it succeeded. */
  datatype Bound<T> = Bound(value: T, ok: bool)

  /**
   * Decoding parameter `key` onto a string field holding `current`: an absent or null
   * key keeps the field's value, a string value replaces it, any other value is a
   * decode error that leaves the field as it was.
   */
  function BindString(params: map<string, Param>, key: string, current: string): (r: Bound<string>)
    ensures !Given(params, key) ==> r == Bound(current, true)
    ensures Given(params, key) ==> (r.ok <==> params[key].PString?)
    ensures key in params && params[key].PString? ==> r.value == params[key].s
    ensures key in params && !params[key].PString? ==> r.value == current
  {
    if key !in params then Bound(current, true)
    else match params[key]
      case PString(s) => Bound(s, true)
      case PNull => Bound(current, true)
      case _ => Bound(current, false)
  }

  /**
   * Decoding parameter `key` onto a Go `int` field (64 bits) holding `current`: an
   * absent or null key keeps the field, an integer in range replaces it, anything else
   * is a decode error that leaves the field as it was.
   */
  function BindInt(params: map<string, Param>, key: string, current: int): (r: Bound<int>)
    ensures !Given(params, key) ==> r == Bound(current, true)
    ensures Given(params, key) ==> (r.ok <==> params[key].PInt? && MinInt <= params[key].i <= MaxInt)
    ensures r.ok && Given(params, key) ==> r.value == params[key].i
    ensures !r.ok ==> r.value == current
  {
    if key !in params then Bound(current, true)
    else match params[key]
      case PInt(i) => if MinInt <= i <= MaxInt then Bound(i, true) else Bound(current, false)
      case PNull => Bound(current, true)
      case _ => Bound(current, false)
  }

  // ---------------------------------------------------------------------------
  // ParseCluster.

  /** The separators of the descriptor: both `,` and `=`. */
  predicate IsClusterSeparator(c: char) {
    c == ',' || c == '='
  }

  /** The descriptor's flat token stream. */
  function Tokens(initialCluster: string): (parts: seq<string>)
    ensures forall j :: 0 <= j < |parts| ==> IsToken(parts[j])
  {
    FieldsFunc(initialCluster, IsClusterSeparator)
  }

  /** A token: non-empty and free of separators. */
  predicate IsToken(t: string) {
    t != [] && forall i :: 0 <= i < |t| ==> !IsClusterSeparator(t[i])
  }

  /**
   * Pairing the tokens from index `i` on into `acc`: the name at `i` is trimmed, the
   * address at `i + 1` must parse as a URL (an invalid URL is reported before a
   * duplicate name), and only the URL's hostname is kept.
   */
  function Pairs(parts: seq<string>, i: nat, acc: map<string, string>, hostOf: string -> Option<string>)
    : Result<map<string, string>, Error>
    requires i <= |parts| && i % 2 == 0 && |parts| % 2 == 0
    decreases |parts| - i
  {
    if i == |parts| then Success(acc)
    else
      EvenStep(|parts|, i);
      var name := TrimSpace(parts[i]);
      match hostOf(parts[i + 1])
      case None => Failure(InvalidUrl(parts[i + 1], name))
      case Some(host) =>
        if name in acc then Failure(DuplicateName(name))
        else Pairs(parts, i + 2, acc[name := host], hostOf)
  }

  /**
   * What parsing a descriptor yields; `hostOf` stands for Go's `url.Parse` followed by
   * `Hostname`, `None` when the URL does not parse.
   */
  function ParsedCluster(initialCluster: string, hostOf: string -> Option<string>): Result<map<string, string>, Error> {
    var parts := Tokens(initialCluster);
    if |parts| == 0 || |parts| % 2 != 0 then Failure(InvalidInput(initialCluster))
    else Pairs(parts, 0, map[], hostOf)
  }

  /** `ParseCluster`, which pairs the tokens in a loop stepping by two. */
  method ParseCluster(initialCluster: string, hostOf: string -> Option<string>)
    returns (r: Result<map<string, string>, Error>)
    ensures r == ParsedCluster(initialCluster, hostOf)
  {
    var parts := Tokens(initialCluster);
    var n := |parts|;
    if n == 0 || n % 2 != 0 {
      return Failure(InvalidInput(initialCluster));
    }
    ghost var parsed := Pairs(parts, 0, map[], hostOf);
    assert parsed == ParsedCluster(initialCluster, hostOf);
    var instances: map<string, string> := map[];
    var i := 0;
    while i < n
      invariant 0 <= i <= n && i % 2 == 0
      invariant Pairs(parts, i, instances, hostOf) == parsed
    {
      EvenStep(n, i);
      var name := TrimSpace(parts[i]);
      var u := hostOf(parts[i + 1]);
      if u.None? {
        return Failure(InvalidUrl(parts[i + 1], name));
      }
      if name in instances {
        return Failure(DuplicateName(name));
      }
      instances := instances[name := u.value];
      i := i + 2;
    }
    return Success(instances);
  }

  /** Stepping from one even index to the next stays within an even-length stream. */
  lemma EvenStep(n: int, i: int)
    requires 0 <= i < n && n % 2 == 0 && i % 2 == 0
    ensures i + 2 <= n && (i + 1) % 2 == 1 && (i + 2) % 2 == 0
    ensures (n - i) / 2 == (n - (i + 2)) / 2 + 1
  {
  }

  /** Every address token from `i` on parses as a URL. */
  ghost predicate AddressesParse(parts: seq<string>, i: nat, hostOf: string -> Option<string>) {
    forall k :: i <= k < |parts| && k % 2 == 1 ==> hostOf(parts[k]).Some?
  }

  /** The trimmed names from `i` on are pairwise different. */
  ghost predicate NamesDistinct(parts: seq<string>, i: nat) {
    forall k, l :: i <= k < l < |parts| && k % 2 == 0 && l % 2 == 0 ==> TrimSpace(parts[k]) != TrimSpace(parts[l])
  }

  /** None of the trimmed names from `i` on is already a key of `acc`. */
  ghost predicate NamesFresh(parts: seq<string>, i: nat, acc: map<string, string>) {
    forall k :: i <= k < |parts| && k % 2 == 0 ==> TrimSpace(parts[k]) !in acc
  }

  /** The trimmed names from `i` on. */
  ghost function NameSet(parts: seq<string>, i: nat): set<string> {
    set k | i <= k < |parts| && k % 2 == 0 :: TrimSpace(parts[k])
  }

  /** Pairing succeeds exactly when every address parses and no name repeats, within the tokens or against `acc`. */
  lemma {:induction false} PairsSucceedsIff(parts: seq<string>, i: nat, acc: map<string, string>, hostOf: string -> Option<string>)
    requires i <= |parts| && i % 2 == 0 && |parts| % 2 == 0
    ensures Pairs(parts, i, acc, hostOf).Success?
        <==> AddressesParse(parts, i, hostOf) && NamesDistinct(parts, i) && NamesFresh(parts, i, acc)
    decreases |parts| - i
  {
    if i < |parts| {
      var name := TrimSpace(parts[i]);
      EvenStep(|parts|, i);
      match hostOf(parts[i + 1])
      case None =>
        assert !AddressesParse(parts, i, hostOf);
      case Some(host) =>
        if name in acc {
          assert !NamesFresh(parts, i, acc);
        } else {
          var acc' := acc[name := host];
          PairsSucceedsIff(parts, i + 2, acc', hostOf);
          assert AddressesParse(parts, i, hostOf) <==> AddressesParse(parts, i + 2, hostOf) by {
            forall k | i <= k < i + 2 && k % 2 == 1 ensures k == i + 1 {}
          }
          assert NamesDistinct(parts, i) && NamesFresh(parts, i, acc)
             <==> NamesDistinct(parts, i + 2) && NamesFresh(parts, i + 2, acc') by {
            forall k | i <= k < i + 2 && k % 2 == 0 ensures k == i {}
            if NamesDistinct(parts, i + 2) && NamesFresh(parts, i + 2, acc') {
              forall k, l | i <= k < l < |parts| && k % 2 == 0 && l % 2 == 0
                ensures TrimSpace(parts[k]) != TrimSpace(parts[l])
              {
                if k == i {
                  assert TrimSpace(parts[l]) !in acc';
                }
              }
            }
          }
        }
    }
  }

  /** A successful pairing step: the address parses, the name is new, and pairing goes on with that entry added. */
  lemma PairsUnfold(parts: seq<string>, i: nat, acc: map<string, string>, hostOf: string -> Option<string>)
    requires i < |parts| && i % 2 == 0 && |parts| % 2 == 0
    requires Pairs(parts, i, acc, hostOf).Success?
    ensures i + 2 <= |parts| && (i + 2) % 2 == 0
    ensures hostOf(parts[i + 1]).Some? && TrimSpace(parts[i]) !in acc
    ensures Pairs(parts, i, acc, hostOf) == Pairs(parts, i + 2, acc[TrimSpace(parts[i]) := hostOf(parts[i + 1]).value], hostOf)
  {
    EvenStep(|parts|, i);
  }

  /** The trimmed names from an even index `i` on: the one at `i`, then those from `i + 2` on. */
  lemma NameSetStep(parts: seq<string>, i: nat)
    requires i + 2 <= |parts| && i % 2 == 0
    ensures NameSet(parts, i) == {TrimSpace(parts[i])} + NameSet(parts, i + 2)
  {
    forall k | i <= k < i + 2 && k % 2 == 0 ensures k == i {}
  }

  /** On success, pairing adds exactly the trimmed names to `acc`. */
  lemma {:induction false} PairsKeys(parts: seq<string>, i: nat, acc: map<string, string>, hostOf: string -> Option<string>)
    requires i <= |parts| && i % 2 == 0 && |parts| % 2 == 0
    requires Pairs(parts, i, acc, hostOf).Success?
    ensures Pairs(parts, i, acc, hostOf).value.Keys == acc.Keys + NameSet(parts, i)
    decreases |parts| - i
  {
    if i < |parts| {
      PairsUnfold(parts, i, acc, hostOf);
      PairsKeys(parts, i + 2, acc[TrimSpace(parts[i]) := hostOf(parts[i + 1]).value], hostOf);
      NameSetStep(parts, i);
    } else {
      assert NameSet(parts, i) == {};
    }
  }

  /** On success, pairing adds one new entry to `acc` per pair of tokens. */
  lemma {:induction false} PairsSize(parts: seq<string>, i: nat, acc: map<string, string>, hostOf: string -> Option<string>)
    requires i <= |parts| && i % 2 == 0 && |parts| % 2 == 0
    requires Pairs(parts, i, acc, hostOf).Success?
    ensures 2 * |Pairs(parts, i, acc, hostOf).value| == 2 * |acc| + |parts| - i
    decreases |parts| - i
  {
    if i < |parts| {
      PairsUnfold(parts, i, acc, hostOf);
      var acc' := acc[TrimSpace(parts[i]) := hostOf(parts[i + 1]).value];
      PairsSize(parts, i + 2, acc', hostOf);
      assert |acc'| == |acc| + 1;
    }
  }

  /**
   * On success, pairing keeps what `acc` held and maps each trimmed name to the
   * hostname of the token after it.
   */
  lemma {:induction false} PairsValues(parts: seq<string>, i: nat, acc: map<string, string>, hostOf: string -> Option<string>)
    requires i <= |parts| && i % 2 == 0 && |parts| % 2 == 0
    requires Pairs(parts, i, acc, hostOf).Success?
    ensures forall key :: key in acc ==> key in Pairs(parts, i, acc, hostOf).value && Pairs(parts, i, acc, hostOf).value[key] == acc[key]
    ensures forall k :: i <= k < |parts| - 1 && k % 2 == 0 ==>
      TrimSpace(parts[k]) in Pairs(parts, i, acc, hostOf).value &&
      hostOf(parts[k + 1]) == Some(Pairs(parts, i, acc, hostOf).value[TrimSpace(parts[k])])
    decreases |parts| - i
  {
    if i < |parts| {
      PairsUnfold(parts, i, acc, hostOf);
      var acc' := acc[TrimSpace(parts[i]) := hostOf(parts[i + 1]).value];
      PairsValues(parts, i + 2, acc', hostOf);
      forall k | i <= k < i + 2 && k % 2 == 0 ensures k == i {}
    }
  }

  /**
   * Name `n` recurs from index `i` on: some name at an even index `l` trims to `n`, and
   * `n` was already in `acc` or an earlier name from `i` on also trims to `n`.
   */
  ghost predicate RepeatedFrom(parts: seq<string>, i: nat, acc: map<string, string>, n: string) {
    exists l :: i <= l < |parts| && l % 2 == 0 && TrimSpace(parts[l]) == n
      && (n in acc || exists k :: i <= k < l && k % 2 == 0 && TrimSpace(parts[k]) == n)
  }

  /** When every address parses, pairing can only fail on a name that recurs, and reports that name. */
  lemma {:induction false} PairsDuplicateError(parts: seq<string>, i: nat, acc: map<string, string>, hostOf: string -> Option<string>)
    requires i <= |parts| && i % 2 == 0 && |parts| % 2 == 0
    requires AddressesParse(parts, i, hostOf)
    requires Pairs(parts, i, acc, hostOf).Failure?
    ensures Pairs(parts, i, acc, hostOf).error.DuplicateName?
    ensures RepeatedFrom(parts, i, acc, Pairs(parts, i, acc, hostOf).error.name)
    decreases |parts| - i
  {
    EvenStep(|parts|, i);
    var name := TrimSpace(parts[i]);
    assert hostOf(parts[i + 1]).Some?;
    if name !in acc {
      var acc' := acc[name := hostOf(parts[i + 1]).value];
      assert Pairs(parts, i, acc, hostOf) == Pairs(parts, i + 2, acc', hostOf);
      assert AddressesParse(parts, i + 2, hostOf);
      PairsDuplicateError(parts, i + 2, acc', hostOf);
      var n := Pairs(parts, i, acc, hostOf).error.name;
      var l :| i + 2 <= l < |parts| && l % 2 == 0 && TrimSpace(parts[l]) == n
        && (n in acc' || exists k :: i + 2 <= k < l && k % 2 == 0 && TrimSpace(parts[k]) == n);
      if n !in acc && n == name {
        assert i < l && TrimSpace(parts[i]) == n;
      }
    } else {
      assert TrimSpace(parts[i]) == name;
    }
  }

  /** Address `k` is the first address from `i` on that does not parse. */
  ghost predicate FirstBadAddress(parts: seq<string>, i: nat, hostOf: string -> Option<string>, k: int) {
    && i < k < |parts| && k % 2 == 1 && hostOf(parts[k]).None?
    && forall j :: i < j < k && j % 2 == 1 ==> hostOf(parts[j]).Some?
  }

  /** `e` is the invalid-URL error for the first address from `i` on that does not parse, naming the trimmed name before it. */
  ghost predicate FirstBadUrl(parts: seq<string>, i: nat, hostOf: string -> Option<string>, e: Error) {
    exists k :: FirstBadAddress(parts, i, hostOf, k)
      && e.InvalidUrl? && e.url == parts[k] && e.name == TrimSpace(parts[k - 1])
  }


  /** One pairing step on the tokens at `i` and `i + 1`, by what the address and the name are. */
  lemma PairsStep(parts: seq<string>, i: nat, acc: map<string, string>, hostOf: string -> Option<string>)
    requires i < |parts| && i % 2 == 0 && |parts| % 2 == 0
    ensures i + 2 <= |parts| && (i + 2) % 2 == 0
    ensures hostOf(parts[i + 1]).None? ==>
      Pairs(parts, i, acc, hostOf) == Failure(InvalidUrl(parts[i + 1], TrimSpace(parts[i])))
    ensures hostOf(parts[i + 1]).Some? && TrimSpace(parts[i]) in acc ==>
      Pairs(parts, i, acc, hostOf) == Failure(DuplicateName(TrimSpace(parts[i])))
    ensures hostOf(parts[i + 1]).Some? && TrimSpace(parts[i]) !in acc ==>
      Pairs(parts, i, acc, hostOf) == Pairs(parts, i + 2, acc[TrimSpace(parts[i]) := hostOf(parts[i + 1]).value], hostOf)
  {
    EvenStep(|parts|, i);
  }

  /** Distinct fresh names stay fresh after the first of them is added to `acc`. */
  lemma NamesFreshStep(parts: seq<string>, i: nat, acc: map<string, string>, host: string)
    requires i + 2 <= |parts| && i % 2 == 0
    requires NamesDistinct(parts, i) && NamesFresh(parts, i, acc)
    ensures NamesDistinct(parts, i + 2) && NamesFresh(parts, i + 2, acc[TrimSpace(parts[i]) := host])
  {
    forall k | i + 2 <= k < |parts| && k % 2 == 0 ensures TrimSpace(parts[k]) != TrimSpace(parts[i]) {
      assert TrimSpace(parts[i]) != TrimSpace(parts[k]);
    }
  }

  /** An address at `i + 1` that does not parse is the first bad one from `i` on. */
  lemma FirstBadUrlHere(parts: seq<string>, i: nat, hostOf: string -> Option<string>)
    requires i + 2 <= |parts| && i % 2 == 0
    requires hostOf(parts[i + 1]).None?
    ensures FirstBadUrl(parts, i, hostOf, InvalidUrl(parts[i + 1], TrimSpace(parts[i])))
  {
    assert FirstBadAddress(parts, i, hostOf, i + 1);
    assert (i + 1) - 1 == i;
  }

  /** Behind an address at `i + 1` that parses, the first bad address from `i + 2` on is the first from `i` on. */
  lemma FirstBadUrlLater(parts: seq<string>, i: nat, hostOf: string -> Option<string>, e: Error)
    requires i + 2 <= |parts| && i % 2 == 0
    requires hostOf(parts[i + 1]).Some?
    requires FirstBadUrl(parts, i + 2, hostOf, e)
    ensures FirstBadUrl(parts, i, hostOf, e)
  {
    var k :| FirstBadAddress(parts, i + 2, hostOf, k)
      && e.InvalidUrl? && e.url == parts[k] && e.name == TrimSpace(parts[k - 1]);
    forall j | i < j < k && j % 2 == 1 ensures hostOf(parts[j]).Some? {
      if j < i + 2 {
        assert j == i + 1;
      }
    }
    assert FirstBadAddress(parts, i, hostOf, k);
  }

  /** When no name repeats, pairing can only fail on the first address that does not parse. */
  lemma {:induction false} PairsUrlError(parts: seq<string>, i: nat, acc: map<string, string>, hostOf: string -> Option<string>)
    requires i <= |parts| && i % 2 == 0 && |parts| % 2 == 0
    requires NamesDistinct(parts, i) && NamesFresh(parts, i, acc)
    requires Pairs(parts, i, acc, hostOf).Failure?
    ensures FirstBadUrl(parts, i, hostOf, Pairs(parts, i, acc, hostOf).error)
    decreases |parts| - i
  {
    PairsStep(parts, i, acc, hostOf);
    assert TrimSpace(parts[i]) !in acc;
    if hostOf(parts[i + 1]).None? {
      FirstBadUrlHere(parts, i, hostOf);
    } else {
      var acc' := acc[TrimSpace(parts[i]) := hostOf(parts[i + 1]).value];
      NamesFreshStep(parts, i, acc, hostOf(parts[i + 1]).value);
      PairsUrlError(parts, i + 2, acc', hostOf);
      FirstBadUrlLater(parts, i, hostOf, Pairs(parts, i, acc, hostOf).error);
    }
  }

  /** Trimmed name `n` belongs to two different members of the token stream. */
  ghost predicate NamedTwice(parts: seq<string>, n: string) {
    exists k, l :: 0 <= k < l < |parts| && k % 2 == 0 && l % 2 == 0 && TrimSpace(parts[k]) == n && TrimSpace(parts[l]) == n
  }

  /**
   * A well-formed token stream whose addresses all parse can only be rejected for a
   * duplicate, and the error names a trimmed name that two members share.
   */
  lemma ParseClusterDuplicateError(initialCluster: string, hostOf: string -> Option<string>)
    requires |Tokens(initialCluster)| > 0 && |Tokens(initialCluster)| % 2 == 0
    requires AddressesParse(Tokens(initialCluster), 0, hostOf)
    requires ParsedCluster(initialCluster, hostOf).Failure?
    ensures ParsedCluster(initialCluster, hostOf).error.DuplicateName?
    ensures NamedTwice(Tokens(initialCluster), ParsedCluster(initialCluster, hostOf).error.name)
  {
    var parts := Tokens(initialCluster);
    PairsDuplicateError(parts, 0, map[], hostOf);
    var n := ParsedCluster(initialCluster, hostOf).error.name;
    var l :| 0 <= l < |parts| && l % 2 == 0 && TrimSpace(parts[l]) == n
      && exists k :: 0 <= k < l && k % 2 == 0 && TrimSpace(parts[k]) == n;
    var k :| 0 <= k < l && k % 2 == 0 && TrimSpace(parts[k]) == n;
    assert TrimSpace(parts[k]) == n && TrimSpace(parts[l]) == n;
  }

  /**
   * A well-formed token stream whose trimmed names are distinct can only be rejected
   * for an address, and the error is that of the first address that does not parse.
   */
  lemma ParseClusterUrlError(initialCluster: string, hostOf: string -> Option<string>)
    requires |Tokens(initialCluster)| > 0 && |Tokens(initialCluster)| % 2 == 0
    requires NamesDistinct(Tokens(initialCluster), 0)
    requires ParsedCluster(initialCluster, hostOf).Failure?
    ensures FirstBadUrl(Tokens(initialCluster), 0, hostOf, ParsedCluster(initialCluster, hostOf).error)
  {
    var parts := Tokens(initialCluster);
    assert NamesFresh(parts, 0, map[]);
    PairsUrlError(parts, 0, map[], hostOf);
  }

  /** The token stream of `a=http://h1,a=http://h2`. */
  lemma TokensOfDuplicateExample()
    ensures Tokens("a=http://h1,a=http://h2") == ["a", "http://h1", "a", "http://h2"]
  {
    var entries := [("a", "http://h1"), ("a", "http://h2")];
    assert Render(entries) == "a=http://h1,a=http://h2";
    TokensOfRender(entries);
  }

  /** `a=http://h1,a=http://h2` names member `a` twice and is rejected for that. */
  lemma ParseDuplicateExample(hostOf: string -> Option<string>)
    requires hostOf("http://h1").Some? && hostOf("http://h2").Some?
    ensures ParsedCluster("a=http://h1,a=http://h2", hostOf) == Failure(DuplicateName("a"))
  {
    TrimSpaceUnspaced("a");
    TokensOfDuplicateExample();
    var parts := ["a", "http://h1", "a", "http://h2"];
    PairsStep(parts, 0, map[], hostOf);
    PairsStep(parts, 2, map["a" := hostOf("http://h1").value], hostOf);
  }

  /** `a=bad` whose address does not parse is rejected naming the address and the member. */
  lemma ParseBadUrlExample(hostOf: string -> Option<string>)
    requires hostOf("bad").None?
    ensures ParsedCluster("a=bad", hostOf) == Failure(InvalidUrl("bad", "a"))
  {
    var entries := [("a", "bad")];
    assert Render(entries) == "a=bad";
    TokensOfRender(entries);
    assert Tokens("a=bad") == ["a", "bad"];
    TrimSpaceUnspaced("a");
  }

  /** An empty token stream or an odd number of tokens is rejected as invalid input. */
  lemma ParseClusterRejectsMalformedStream(initialCluster: string, hostOf: string -> Option<string>)
    requires |Tokens(initialCluster)| == 0 || |Tokens(initialCluster)| % 2 != 0
    ensures ParsedCluster(initialCluster, hostOf) == Failure(InvalidInput(initialCluster))
  {
  }

  /**
   * A descriptor parses exactly when its token stream is non-empty and even, every
   * address token parses as a URL, and no two trimmed names are equal.
   */
  lemma ParseClusterSucceedsIff(initialCluster: string, hostOf: string -> Option<string>)
    ensures ParsedCluster(initialCluster, hostOf).Success?
        <==> var parts := Tokens(initialCluster);
             && |parts| > 0 && |parts| % 2 == 0
             && AddressesParse(parts, 0, hostOf)
             && NamesDistinct(parts, 0)
  {
    var parts := Tokens(initialCluster);
    if |parts| > 0 && |parts| % 2 == 0 {
      PairsSucceedsIff(parts, 0, map[], hostOf);
    }
  }

  /**
   * A parsed descriptor maps exactly the trimmed names to the hostnames of the
   * addresses following them, with one entry per pair of tokens.
   */
  lemma ParseClusterContents(initialCluster: string, hostOf: string -> Option<string>)
    requires ParsedCluster(initialCluster, hostOf).Success?
    ensures var parts, m := Tokens(initialCluster), ParsedCluster(initialCluster, hostOf).value;
      && m.Keys == NameSet(parts, 0)
      && (forall k :: 0 <= k < |parts| - 1 && k % 2 == 0 ==>
            TrimSpace(parts[k]) in m && hostOf(parts[k + 1]) == Some(m[TrimSpace(parts[k])]))
      && |m| == |parts| / 2
  {
    PairsKeys(Tokens(initialCluster), 0, map[], hostOf);
    PairsSize(Tokens(initialCluster), 0, map[], hostOf);
    PairsValues(Tokens(initialCluster), 0, map[], hostOf);
  }

  /**
   * The descriptor check that the etcd and static backends run at configuration time:
   * the descriptor must parse and name exactly `size` members.
   */
  function ValidatedCluster(initialCluster: string, size: int, hostOf: string -> Option<string>)
    : Result<map<string, string>, Error>
  {
    match ParsedCluster(initialCluster, hostOf)
    case Failure(e) => Failure(e)
    case Success(m) =>
      if |m| != size then Failure(SizeMismatch(initialCluster, size, |m|)) else Success(m)
  }

  /**
   * A descriptor passes the check exactly when it parses to `size` members, which are
   * then the parsed map; a parse error is passed on unchanged, and a parsed map of
   * another size is a size mismatch.
   */
  lemma ValidatedClusterIff(initialCluster: string, size: int, hostOf: string -> Option<string>)
    ensures var p, v := ParsedCluster(initialCluster, hostOf), ValidatedCluster(initialCluster, size, hostOf);
      && (v.Success? <==> p.Success? && |p.value| == size)
      && (v.Success? ==> v.value == p.value)
      && (p.Failure? ==> v == Failure(p.error))
      && (p.Success? && |p.value| != size ==> v == Failure(SizeMismatch(initialCluster, size, |p.value|)))
  {
  }

  /** A validated descriptor names members with distinct trimmed names, as many as declared, and at least one. */
  lemma ValidatedClusterSize(initialCluster: string, size: int, hostOf: string -> Option<string>)
    requires ValidatedCluster(initialCluster, size, hostOf).Success?
    ensures var m := ValidatedCluster(initialCluster, size, hostOf).value;
      && m.Keys == NameSet(Tokens(initialCluster), 0)
      && |m| == size == |Tokens(initialCluster)| / 2
      && size >= 1
  {
    ParseClusterSucceedsIff(initialCluster, hostOf);
    ParseClusterContents(initialCluster, hostOf);
    var parts := Tokens(initialCluster);
    EvenStep(|parts|, 0);
  }

  // ---------------------------------------------------------------------------
  // Writing a descriptor, so that parsing can be checked against it.

  /** The descriptor `name=url,name=url,...` listing `entries` in order. */
  function Render(entries: seq<(string, string)>): string
    requires |entries| > 0
  {
    var e := entries[0];
    if |entries| == 1 then e.0 + "=" + e.1
    else e.0 + "=" + e.1 + "," + Render(entries[1..])
  }

  /** The names and addresses of `entries`, alternating. */
  function Flatten(entries: seq<(string, string)>): (r: seq<string>)
    ensures |r| == 2 * |entries|
  {
    if entries == [] then [] else [entries[0].0, entries[0].1] + Flatten(entries[1..])
  }

  /** The tokens at positions `2j` and `2j + 1` are the name and the address of entry `j`. */
  lemma {:induction false} FlattenAt(entries: seq<(string, string)>, j: nat)
    requires j < |entries|
    ensures Flatten(entries)[2 * j] == entries[j].0 && Flatten(entries)[2 * j + 1] == entries[j].1
  {
    if j > 0 {
      FlattenAt(entries[1..], j - 1);
    }
  }

  /** Twice a number is even, one more is odd, and halving gives the number back. */
  lemma EvenDouble(j: int)
    ensures (2 * j) % 2 == 0 && (2 * j + 1) % 2 == 1 && (2 * j) / 2 == j
  {
  }

  /** An even position is twice its half, an odd one one more. */
  lemma Halves(k: nat)
    ensures k % 2 == 0 ==> 2 * (k / 2) == k
    ensures k % 2 == 1 ==> 2 * (k / 2) + 1 == k
    ensures (2 * (k / 2)) % 2 == 0
  {
  }

  /** The tokens of one written entry `a=b`, followed by `,` and further text when there is more. */
  lemma FieldsOfEntry(a: string, b: string, rest: string)
    requires IsToken(a) && IsToken(b)
    ensures FieldsFunc(a + ['='] + b, IsClusterSeparator) == [a, b]
    ensures FieldsFunc(a + ['='] + (b + [','] + rest), IsClusterSeparator) == [a, b] + FieldsFunc(rest, IsClusterSeparator)
  {
    FieldsFuncOfField(a, IsClusterSeparator);
    FieldsFuncOfField(b, IsClusterSeparator);
    FieldsFuncSplit(a, '=', b, IsClusterSeparator);
    FieldsFuncSplit(a, '=', b + [','] + rest, IsClusterSeparator);
    FieldsFuncSplit(b, ',', rest, IsClusterSeparator);
  }

  /** Tokenising a descriptor written from well-formed names and addresses gives them back, in order. */
  lemma {:induction false} TokensOfRender(entries: seq<(string, string)>)
    requires |entries| > 0
    requires forall j :: 0 <= j < |entries| ==> IsToken(entries[j].0) && IsToken(entries[j].1)
    ensures Tokens(Render(entries)) == Flatten(entries)
  {
    var e := entries[0];
    if |entries| == 1 {
      assert Render(entries) == e.0 + ['='] + e.1;
      FieldsOfEntry(e.0, e.1, []);
      assert Flatten(entries) == [e.0, e.1];
    } else {
      var rest := Render(entries[1..]);
      assert Render(entries) == e.0 + ['='] + (e.1 + [','] + rest);
      FieldsOfEntry(e.0, e.1, rest);
      TokensOfRender(entries[1..]);
      assert Flatten(entries) == [e.0, e.1] + Flatten(entries[1..]);
    }
  }

  /**
   * Round trip: a descriptor written from well-formed entries whose trimmed names are
   * distinct and whose addresses all parse is accepted; it has one entry per written
   * entry and maps each trimmed name to its address's hostname.
   */
  lemma ParseRenderedCluster(entries: seq<(string, string)>, hostOf: string -> Option<string>)
    requires |entries| > 0
    requires forall j :: 0 <= j < |entries| ==> IsToken(entries[j].0) && IsToken(entries[j].1)
    requires forall j :: 0 <= j < |entries| ==> hostOf(entries[j].1).Some?
    requires forall j, l :: 0 <= j < l < |entries| ==> TrimSpace(entries[j].0) != TrimSpace(entries[l].0)
    ensures ParsedCluster(Render(entries), hostOf).Success?
    ensures var m := ParsedCluster(Render(entries), hostOf).value;
      && |m| == |entries|
      && forall j :: 0 <= j < |entries| ==> TrimSpace(entries[j].0) in m && hostOf(entries[j].1) == Some(m[TrimSpace(entries[j].0)])
  {
    var s := Render(entries);
    TokensOfRender(entries);
    var parts := Tokens(s);
    assert AddressesParse(parts, 0, hostOf) by {
      forall k | 0 <= k < |parts| && k % 2 == 1 ensures hostOf(parts[k]).Some? {
        Halves(k);
        FlattenAt(entries, k / 2);
      }
    }
    assert NamesDistinct(parts, 0) by {
      forall k, l | 0 <= k < l < |parts| && k % 2 == 0 && l % 2 == 0
        ensures TrimSpace(parts[k]) != TrimSpace(parts[l])
      {
        Halves(k);
        Halves(l);
        FlattenAt(entries, k / 2);
        FlattenAt(entries, l / 2);
      }
    }
    EvenDouble(|entries|);
    ParseClusterSucceedsIff(s, hostOf);
    ParseMembers(s, entries, hostOf);
  }

  /** The members of a parsed rendered descriptor, entry by entry. */
  lemma ParseMembers(s: string, entries: seq<(string, string)>, hostOf: string -> Option<string>)
    requires |entries| > 0 && Tokens(s) == Flatten(entries)
    requires ParsedCluster(s, hostOf).Success?
    ensures var m := ParsedCluster(s, hostOf).value;
      && |m| == |entries|
      && forall j :: 0 <= j < |entries| ==> TrimSpace(entries[j].0) in m && hostOf(entries[j].1) == Some(m[TrimSpace(entries[j].0)])
  {
    ParseClusterContents(s, hostOf);
    EvenDouble(|entries|);
    forall j | 0 <= j < |entries|
      ensures (2 * j) % 2 == 0 && 2 * j < |Tokens(s)| - 1
    {
      EvenDouble(j);
    }
    forall j | 0 <= j < |entries|
      ensures Tokens(s)[2 * j] == entries[j].0 && Tokens(s)[2 * j + 1] == entries[j].1
    {
      FlattenAt(entries, j);
    }
  }
}
