# Membership discovery of etcd-cloud-operator, modelled in Dafny

etcd-cloud-operator runs one etcd member per machine of an auto-scaling group. Each
machine has to find out who the other members are, which of them is itself, and how
large the cluster is meant to be. A *membership backend* answers that query. This
project models the shared helpers of the `providers` package and the four backends
that depend on no cloud SDK:

- `providers.ParseParams` binds a loosely typed parameter map onto a configuration
  that already holds its defaults. It is modelled field by field: an absent key or a
  key given without a value (null) keeps the field, a value of the right shape
  replaces it, and a value of the wrong shape is a decode error.
- `providers.ParseCluster` parses an initial-cluster descriptor `name=url,name=url,...`
  into a map from trimmed member name to the URL's hostname.
- The **etcd** backend checks the descriptor against the declared size once, at
  configuration time. It seeds a cache from the descriptor, overlays a cache file on it
  and reports the cache on every query.
- The **static** backend also checks the descriptor at configuration time. It turns the
  descriptor into a fixed list of members.
- The **docker** backend lists the containers whose names match a filter and inspects
  each of them. The local host is the last container whose identifier contains the
  hostname.
- The **kubernetes** backend reads its members and the expected size from a membership
  file. The local host is the last member whose name contains the hostname.

The modules and what they hold:

| module | file | contents |
|---|---|---|
| `Wrappers` | `wrappers.dfy` | `Option`, `Result` |
| `Strings` | `strings.dfy` | the Go `strings` functions the core calls: `FieldsFunc`, `TrimSpace` (Unicode white space), `Contains` |
| `Providers` | `providers.dfy` | the parameter binder, `ParseCluster` and its specification, and a round trip with a descriptor writer |
| `Asg` | `asg.dfy` | what every backend reports (`Instance`, `StatusReport`), turning a map into instances, and the hostname-substring choice of `self` |
| `Etcd`, `Static`, `Docker`, `Kubernetes` | one file each | one class per backend, holding the fields the Go struct updates |

Go's map iteration order is unspecified. Every loop over a map picks its next key with
a nondeterministic choice, so every contract about such a loop holds for any order.

Calls into code that is not part of this model are function-typed parameters:

- `hostOf` stands for `url.Parse` followed by `Hostname()`. It yields `None` where
  `url.Parse` fails.
- `readCache` stands for reading and decoding the etcd cache file. It yields `None`
  where either step fails.
- `list` and `inspect` stand for docker's `containerList` and `containerInspect`.
- `load` stands for reading and decoding the kubernetes membership file.
- `hostname` stands for `os.Hostname()`. Its error is ignored by the source, so it is
  the empty string when the hostname cannot be read.

## Model

| member | source | states |
|---|---|---|
| Providers.BindString | pkg/providers/providers.go:27-39 | an absent or null key keeps the field and succeeds; any other key succeeds exactly when it is a string, which then replaces the field; a wrong shape keeps the field |
| Providers.BindInt | pkg/providers/providers.go:27-39 | an absent or null key keeps the field and succeeds; any other key succeeds exactly when it is an integer in the 64-bit range, which then replaces the field; on failure the field keeps its value |
| Providers.Tokens | pkg/providers/providers.go:42 | every token of the descriptor is non-empty and holds neither `,` nor `=` |
| Providers.ParseCluster | pkg/providers/providers.go:41-61 | the loop stepping by two yields exactly the specification `ParsedCluster`, errors included |
| Providers.ParseClusterRejectsMalformedStream | pkg/providers/providers.go:43-46 | an empty or odd token stream is an invalid-input error carrying the descriptor |
| Providers.PairsSucceedsIff | pkg/providers/providers.go:49-58 | pairing from any even index succeeds exactly when every address from there on parses, no name repeats and no name is already in the map |
| Providers.PairsUnfold | pkg/providers/providers.go:50-58 | a successful pairing step has a parseable address and a new name, and goes on with that entry added |
| Providers.PairsKeys | pkg/providers/providers.go:55-58 | a successful pairing holds exactly the names already in the map plus the trimmed names from here on |
| Providers.PairsSize | pkg/providers/providers.go:55-58 | a successful pairing grows the map by exactly one entry per pair of tokens |
| Providers.PairsValues | pkg/providers/providers.go:50-58 | a successful pairing keeps the entries already in the map and maps each trimmed name to its address's hostname |
| Providers.ParseClusterSucceedsIff | pkg/providers/providers.go:41-61 | a descriptor parses exactly when its token stream is non-empty and even, every address parses and the trimmed names are distinct |
| Providers.PairsStep | pkg/providers/providers.go:50-58 | one pairing step: an address that does not parse is an invalid-URL error naming the address and the trimmed name; a parseable address with a name already seen is a duplicate-name error; otherwise pairing goes on with the entry added |
| Providers.NamesFreshStep | pkg/providers/providers.go:55-58 | when the names ahead are distinct and unseen, they stay so after the current one is added |
| Providers.PairsDuplicateError | pkg/providers/providers.go:55-57 | when every address parses, a failed pairing is a duplicate-name error, and the name it reports recurs among the names or was already seen |
| Providers.FirstBadUrlHere | pkg/providers/providers.go:51-54 | an address that does not parse right after the current name is the first bad address |
| Providers.FirstBadUrlLater | pkg/providers/providers.go:49-54 | behind a parseable address, the first bad address further on is the first bad one from here |
| Providers.PairsUrlError | pkg/providers/providers.go:51-54 | when no name repeats, a failed pairing is the invalid-URL error of the first address that does not parse, naming the trimmed name before it |
| Providers.ParseClusterDuplicateError | pkg/providers/providers.go:55-57 | a well-formed descriptor whose addresses all parse can only be rejected as a duplicate, naming a trimmed name two members share |
| Providers.ParseClusterUrlError | pkg/providers/providers.go:51-54 | a well-formed descriptor with distinct trimmed names can only be rejected for the first address that does not parse |
| Providers.TokensOfDuplicateExample | pkg/providers/providers.go:42 | `a=http://h1,a=http://h2` tokenises to `a`, `http://h1`, `a`, `http://h2` |
| Providers.ParseDuplicateExample | pkg/providers/providers.go:55-57 | `a=http://h1,a=http://h2` with both URLs parseable is rejected as a duplicate of `a` |
| Providers.ParseBadUrlExample | pkg/providers/providers.go:51-54 | `a=bad` with an unparseable address is rejected as an invalid URL `bad` for member `a` |
| Providers.ParseClusterContents | pkg/providers/providers.go:48-60 | a parsed descriptor maps exactly the trimmed names, each to the hostname of the address after it, with one entry per pair |
| Providers.ValidatedClusterIff | pkg/providers/asg/etcd/etcd.go:57-63 | the configuration-time check passes exactly when the descriptor parses to `size` members; a parse error is passed on, another size is a size mismatch carrying both counts |
| Providers.ValidatedClusterSize | pkg/providers/asg/static/static.go:43-49 | a checked descriptor has distinct names, exactly `size` members, half as many as tokens, and at least one |
| Providers.TokensOfRender | pkg/providers/providers.go:42 | tokenising a written descriptor gives back its names and addresses in order |
| Providers.ParseRenderedCluster | pkg/providers/providers.go:41-61 | writing distinct, separator-free names with parseable addresses and parsing the result recovers every name with its address's hostname, one entry per member |
| Providers.ParseMembers | pkg/providers/providers.go:49-58 | when the token stream is a list of name/address pairs, the parsed map holds each trimmed name with its address's hostname |
| Providers.Flatten | pkg/providers/providers.go:42 | a written descriptor has two tokens per member |
| Providers.FieldsOfEntry | pkg/providers/providers.go:42 | a written entry `a=b`, alone or followed by `,` and more text, tokenises to its name and address followed by the tokens of the rest |
| Providers.FlattenAt | pkg/providers/providers.go:42 | member `j`'s name and address are tokens `2j` and `2j+1` |
| Strings.RunEnd | pkg/providers/providers.go:42 | the end of the leading field is the first separator, or the end of the string |
| Strings.FieldsFunc | pkg/providers/providers.go:42 | every field is non-empty and free of separators |
| Strings.FieldsFuncOfField | pkg/providers/providers.go:42 | a non-empty separator-free string is one field |
| Strings.FieldsFuncSplit | pkg/providers/providers.go:42 | splitting at a separator splits the field list at that point |
| Strings.RunEndUnique | pkg/providers/providers.go:42 | the leading field's end is determined by the separators |
| Strings.TrimLeftShape | pkg/providers/providers.go:50 | left trimming removes a prefix made only of white space and leaves no white space in front |
| Strings.TrimRightShape | pkg/providers/providers.go:50 | right trimming removes a suffix made only of white space and leaves no white space at the end |
| Strings.TrimLeftDrops | pkg/providers/providers.go:50 | left trimming drops exactly the leading white-space run |
| Strings.TrimSpaceEdges | pkg/providers/providers.go:50 | a trimmed name neither starts nor ends with white space |
| Strings.TrimSpaceCuts | pkg/providers/providers.go:50 | a trimmed name is the slice of the original between its leading and trailing white-space runs |
| Strings.TrimSpaceUnspaced | pkg/providers/providers.go:50 | a string that neither starts nor ends with white space is its own trimming |
| Strings.TrimSpaceIdempotent | pkg/providers/providers.go:50 | trimming twice is trimming once |
| Strings.Contains | pkg/providers/asg/docker/docker.go:61 | true exactly when the substring occurs at some position |
| Strings.ContainsEmpty | pkg/providers/asg/kubernetes/lib.go:71 | every string contains the empty string |
| Asg.Failed | pkg/providers/asg/docker/docker.go:52-54 | a failed query reports no instances, no self, size 0 and the error |
| Asg.Enumerate | pkg/providers/asg/etcd/etcd.go:87-97 | for any iteration order, the instances list every map entry exactly once and nothing else, and `self` is the entry with the given name, or is left as it was when no entry has it |
| Asg.ListedByName | pkg/providers/asg/static/static.go:52-61 | in such a list a name occurs exactly when the map has it, and names only that entry |
| Asg.LastMatch | pkg/providers/asg/docker/docker.go:56-65 | the index chosen is the last whose key contains the hostname, and there is none exactly when no key does |
| Asg.SelfOfAppend | pkg/providers/asg/kubernetes/lib.go:69-74 | appending an element makes it `self` when it matches, and otherwise keeps the previous `self` |
| Asg.SelfOfEmptyHost | pkg/providers/asg/docker/docker.go:48 | with an empty hostname, as when it cannot be read, the last element is `self` |
| Etcd.OverlayMissingFile | pkg/providers/asg/etcd/etcd.go:71-78 | without a readable cache file the cache is the descriptor's map |
| Etcd.OverlayFileWins | pkg/providers/asg/etcd/etcd.go:65-78 | the cache holds the names of both, the file's address where the file has the name, and the descriptor's address otherwise |
| Etcd.OverlayIgnoresFileSize | pkg/providers/asg/etcd/etcd.go:74-76 | the cache file's declared size plays no part |
| Etcd.OverlayCanOutgrowSize | pkg/providers/asg/etcd/etcd.go:61-78 | the overlaid cache can hold more members than the descriptor that passed the size check |
| Etcd.EtcdProvider.constructor | pkg/providers/asg/etcd/etcd.go:13-15 | the registered provider starts with the zero configuration and an empty cache |
| Etcd.EtcdProvider.Configure | pkg/providers/asg/etcd/etcd.go:48-81 | the configuration is rebound from zero; a decode error, a parse error or a size mismatch is returned with the cache untouched; otherwise the cache is the descriptor's map overlaid by the cache file |
| Etcd.EtcdProvider.Store | pkg/providers/asg/etcd/etcd.go:66-68 | writing the entries one at a time, in any order, leaves the old cache updated by all of them |
| Etcd.EtcdProvider.Status | pkg/providers/asg/etcd/etcd.go:83-100 | one instance per cache entry and nothing else, `self` is the entry named exactly as configured (none otherwise), and the size is the configured one |
| Static.StaticProvider.constructor | pkg/providers/asg/static/static.go:9-11 | the registered provider starts with the zero configuration, no members and no self |
| Static.StaticProvider.Configure | pkg/providers/asg/static/static.go:37-63 | the configuration is rebound from zero; errors leave members and self untouched; otherwise the members list the descriptor's entries, as many as the declared size, and self is the configured name's entry or keeps its old value |
| Static.StaticProvider.Status | pkg/providers/asg/static/static.go:65-67 | the stored members and self, with the number of members as the size and no error |
| Static.StaticProvider.UID | pkg/providers/asg/static/static.go:69-71 | the identifier is `static` |
| Static.StaticProvider.Refresh | pkg/providers/asg/static/static.go:73-75 | refreshing never fails |
| Docker.BindMergesOntoDefaults | pkg/providers/asg/docker/docker.go:39-45 | absent or null parameters keep the defaults size 3 and filter `eco-`; binding succeeds exactly when the given parameters have the right shape, and then they override the defaults |
| Docker.BindSizeOnly | pkg/providers/asg/docker/docker.go:40-41 | overriding only the size keeps the default filter |
| Docker.BindNullSize | pkg/providers/asg/docker/docker.go:40-44 | a size key given without a value keeps the default size, and configuration succeeds |
| Docker.InspectAllMeaning | pkg/providers/asg/docker/docker.go:56-65 | inspecting succeeds exactly when every inspection does, and then yields the containers in list order; otherwise it yields the first failing inspection's error |
| Docker.InspectStep | pkg/providers/asg/docker/docker.go:57-60 | inspecting from position `i` inspects name `i` first and stops on its error |
| Docker.DockerProvider.constructor | pkg/providers/asg/docker/docker.go:26-28 | the registered provider starts with the zero configuration |
| Docker.DockerProvider.Configure | pkg/providers/asg/docker/docker.go:39-45 | the configuration is the defaults with the parameters bound over them, and the error is reported exactly when binding fails |
| Docker.DockerProvider.Status | pkg/providers/asg/docker/docker.go:47-69 | a failed listing or inspection fails the query; otherwise the instances are the inspected containers in list order, self is the last whose identifier contains the hostname, and the size is the configured one |
| Kubernetes.BindMembershipFile | pkg/providers/asg/kubernetes/lib.go:42-52 | binding succeeds exactly when the membership file parameter is absent, null or a string, and then it is the configured path, empty when absent or null |
| Kubernetes.KubernetesProvider.constructor | pkg/providers/asg/kubernetes/lib.go:14-16 | the registered provider starts with the zero configuration |
| Kubernetes.KubernetesProvider.Configure | pkg/providers/asg/kubernetes/lib.go:46-52 | the configuration is rebound from zero, and the error is reported exactly when binding fails |
| Kubernetes.KubernetesProvider.Members | pkg/providers/asg/kubernetes/lib.go:54-77 | a failed read or decode fails the query; otherwise the instances are the file's in file order, self is the last whose name contains the hostname, and the size is the file's declared size |

## Left out

- The osm snapshot backend (`pkg/providers/snapshot/osm/osm.go`) is not part of this model. It stores backups, not membership.
- The backend registry (`asg.Register`, the `init` functions) is not modelled. Each class's constructor stands for the registered zero value.
- The etcd backend's `sync.RWMutex` is left out. The model is sequential, so every method runs under the lock.
- The YAML round trip inside `ParseParams` is left out: JSON keys are matched case-sensitively, and ghodss/yaml's scalar coercions are not modelled. A parameter is only a string, an integer, null (a key left without a value) or something else (`Param`). Null leaves the field as it was and is no error, as Go's JSON decoder does for string and integer fields.
- Decoding a wrong-shaped parameter is modelled as an error that leaves that field as it was. The fields bound after it are still bound, as Go's JSON decoder does.
- `url.Parse`, `Hostname`, `ioutil.ReadFile`, YAML decoding, `os.Hostname`, `containerList` and `containerInspect` are not modelled. They are the parameters named at the top of this file.
- The kubernetes backend's read error and decode error are merged into the one `load` parameter. Both fail the query the same way.
- Instances are values, not pointers. Go returns pointers into the backend's own slice, and that sharing is not modelled.
- The docker `container` type is not in the modelled source. The model assumes an identifier, a name and an address.
- Go's 64-bit `int` wrap-around plays no part: sizes are only compared and copied. Binding rejects integers outside the 64-bit range.
- Etcd.EtcdProvider.Status: requires a non-negative configured size. Go's `make` with a negative capacity panics, and the model does not represent that panic.
- Strings.TrimSpace: Unicode white space is the fixed set of code points Go's `unicode.IsSpace` accepts. Invalid UTF-8 is not modelled, because strings are sequences of code points.
- Strings.Contains: code points are compared, not UTF-8 bytes. For valid strings the two agree.
