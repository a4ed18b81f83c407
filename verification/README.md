# RHDH operator: verified model

A Dafny model of the parts of the RHDH operator that decide what ends up in a
Backstage instance: how dynamic-plugin sources and plugin configurations are
merged, how references between plugin packages are resolved, how the pod is
assembled, how shared external configuration objects are labelled and hashed,
and how generated objects reach the cluster. `dafny verify dfyconfig.toml`
checks everything.

| file | module | what it holds |
|---|---|---|
| config_tree.dfy | PluginConfigTree | plugin configuration as a tree, the deep merge, its path laws |
| marked_config.dfy | MarkedConfigs | the same with the maps marked that cannot be converted; when the merge panics |
| config_heap.dfy | PluginConfigHeap | the same merge on a heap of Go maps, in place |
| dyna_plugin.dfy, plugin_refs.dfy | DynaPlugins, PluginReferences | package URLs, plugin names, `ref://` and `{{inherit}}` |
| plugin_merge.dfy, plugin_fold.dfy | PluginMerge, PluginFold | merging two sources, folding all of them |
| plugin_activation.dfy, flavours.dfy | PluginActivation, Flavours | enabled plugins and dependencies, flavour selection and order |
| mounts.dfy, pod.dfy, deployment.dfy | Mounts, Pods, Deployments | mount lists, pod assembly as steps, the mutable deployment |
| pod_clashes.dfy, pod_served.dfy | PodClashes, PodServed | when volume names and mount paths stay distinct, which volume serves a path |
| ext_config.dfy | ExtConfigProtocol | labelling of a shared object by concurrent reconciles |
| hash_bytes.dfy | HashBytes | the bytes hashed over the watched objects |
| reconcile.dfy | ReconcileRuns | applying generated objects, the create-only database secret |
| rfc1123.dfy | Rfc1123 | the label sanitiser |
| go_strings.dfy, go_path.dfy | GoStrings, GoPath | Go's `strings` and `filepath.Join` |

## How the source is read

- A Go map is iterated in an arbitrary order: the methods serve the keys with a
  nondeterministic choice, and the specifications fix contents, not order.
- A pointer, map or slice field of a plugin entry is an `Option`. `None` is nil,
  `Some` of an empty collection is an explicitly empty value. Printing to YAML
  with `omitempty` forgets the difference; this is `PluginMerge.Erase`.
- Strings are sequences of characters. Apart from the Unicode white space that
  `strings.TrimSpace` removes, the characters that the code looks for are ASCII,
  so bytes and characters cannot be confused.
- A panic of the Go runtime is a result (`panics`) of the method that causes it.
- Environment variables, file contents, API-server answers, random passwords and
  the table of lower-case letters beyond ASCII are parameters that the laws
  quantify over.

Where the code and its comments disagree, the model follows the code: flavours
are merged in map order, not in spec order (pkg/model/default-config.go:55,
pkg/model/flavour.go:64); when some but not all requested mount paths are taken,
the requested mounts at new paths are dropped (pkg/model/deployment.go:445); the
first non-blank plugin source is taken over without resolving references or
removing duplicates (pkg/model/dynamic-plugins.go:296).

Several properties that one might expect do not hold as such; each is stated with
the exact condition under which it does and an example where it fails:

- the order of the flavours, which is Go's map order, is irrelevant only if at
  most one source has data, or all of them parse and, with reference resolution
  on, all flavour packages have a supported URL format
  (`FlavourOrderIrrelevantIff`); when the base is missing, one order of the same
  flavours can be merged and another not (`OneOrderThenAllIff`,
  `FlavourOrderMatters`);
- merging plugin configurations panics on a map with a key that is not a string,
  but only when it gets to convert that map; `PanicsIff` says exactly when, and
  `SafeInEveryOrderIff` when no plugin order can make it happen, since the order
  decides (`PanicOrderMatters`);
- merging plugin configurations is associative only if nothing resurfaces under
  a map that replaces a scalar (`AssociativeIff`, `MapScalarMapRegroups`), and
  independent of the plugin order only if the configurations agree pairwise
  (`OrderIndependentIffAgree`, `MapScalarMapReorders`);
- reference resolution is independent of the order of the base list only if no
  two base packages share a plugin name (`BaseOrderIrrelevantIff`), and an
  `{{inherit}}` with a new `!path` creates such a pair (`NewPathCreatesAmbiguity`,
  `AmbiguityExample`);
- the plugin name of a versioned archive is found only if the version has no
  second `-<digit>` (`HttpNameRoundTrip`, `RevisionExample`);
- a mount step leaves all requested mounts in place only if their paths were all
  new or all taken (`AllRequestedPresentIff`, `PartialOverlapDrops`);
- volume names stay distinct only if the mounted objects' names give different
  labels (`VolumesDistinctIff`, `OneNameTwoSources`), and mount paths only if no
  PVC is mounted at a taken path (`RunDistinctIff`, `PvcAtTakenPath`);
- an app-config file comes from its own ConfigMap only if no later step asks for
  the same path (`AppConfigServedIff`, `SameKeyServesSecond`);
- the database password stays only if no plugin dependency is a Secret of that
  name (`DbSecretStable`, `DependencyReplacesPassword`);
- the first CR stays in the annotation of a shared object only while the
  auto-sync setting stays (`ChangedSettingRewrites`, `TwoSettingsTwoWriters`).

Names of generated multi-objects of two CRs can coincide; `MultiObjectNamesClashIff`
says exactly when.

## Model

| member | source | states |
|---|---|---|
| PluginConfigTree.OverlayAt | pkg/model/appconfig.go:178-196 | one merge, path by path: the source wins where it has a value, hides what is under its scalars, leaves the rest of the destination in place |
| PluginConfigTree.Extensional | pkg/model/appconfig.go:178-196 | configurations that look the same at every path are equal, so the path laws determine the result |
| PluginConfigTree.MergeAllAt | pkg/model/appconfig.go:80-83 | a scalar or map is at a path of the n-plugin merge iff some source has it there and no later source has a value there or a scalar above it |
| PluginConfigTree.MergeAllKeys | pkg/model/appconfig.go:84-86 | the merged config is empty, so that no ConfigMap is added, iff every plugin config is empty |
| PluginConfigTree.OrderIndependentIffAgree | pkg/model/appconfig.go:80-83 | every permutation of the plugins merges to the same config iff the plugin configs agree pairwise |
| PluginConfigTree.AssociativeIff | pkg/model/appconfig.go:178-196 | the merge of three configs is associative iff no value of the first resurfaces under a map that replaces a scalar of the second |
| PluginConfigTree.MapScalarMapRegroups | pkg/model/appconfig.go:178-196 | map, scalar, map: another grouping gives another config |
| PluginConfigTree.MapScalarMapReorders | pkg/model/appconfig.go:178-196 | map, scalar, map: another order gives another config |
| MarkedConfigs.PlainOverlay | pkg/model/appconfig.go:178-196 | forgetting the marks of unconvertible maps commutes with the merge |
| MarkedConfigs.PlainMergeAll | pkg/model/appconfig.go:80-83 | and with the fold over the plugins |
| MarkedConfigs.PanicsIff | pkg/model/appconfig.go:178-212 | a merge panics iff, at some path where both sides have a map, the source has a key under which one of the two has a map with a key that is not a string |
| MarkedConfigs.SafeInEveryOrderIff | pkg/model/appconfig.go:80-83 | no plugin order makes the fold panic iff no plugin has such a map directly at the top, or below a path where another plugin has a map |
| MarkedConfigs.PanicOrderMatters | pkg/model/appconfig.go:178-212 | three configs whose fold panics in one order and not in another |
| PluginConfigHeap.ToStringKeyedMap | pkg/model/appconfig.go:200-212 | a string-keyed map is returned as is (shared), an interface-keyed map as a fresh copy with the same contents, anything else as nil; it panics iff an interface-keyed map has a key that is not a string |
| PluginConfigHeap.StringKeys | pkg/model/appconfig.go:205-207 | the conversion loop keeps every entry, or panics iff some key is not a string |
| PluginConfigHeap.MergePluginConfigs | pkg/model/appconfig.go:178-196 | the in-place recursive merge computes the pure merge for every iteration order, terminates on nesting depth, and writes only to maps owned by the destination, to which only new maps and nested string-keyed maps of the source are added; it panics iff the two configs make it (`Panics`) |
| PluginConfigHeap.MergeKey | pkg/model/appconfig.go:179-195 | one iteration: deep merge if both sides are maps, assignment otherwise; it writes only the destination and what is at the key, and panics iff one of the two values cannot be converted or merging them panics |
| PluginConfigHeap.AddPluginsAppConfig | pkg/model/appconfig.go:69-106 | the fold over the plugins yields a config equal to the pure merge, writes to no top-level and no interface-keyed map of any source (to none at all when the sources come from yaml.v2), and asks for a ConfigMap iff it is non-empty; it panics iff one of its merges does |
| PluginReferences.StripVersionSuffix | pkg/model/dynamic-plugins-reference.go:233-241 | cuts at the last dash that a digit follows, or changes nothing when there is none |
| PluginReferences.StartsVersionIff | pkg/model/dynamic-plugins-reference.go:233-241 | a version starts at a dash that one of the ten digits follows |
| PluginReferences.NoVersionStays | pkg/model/dynamic-plugins-reference.go:233-241 | a name without such a dash stays as it is |
| PluginReferences.NamedIsDirect | pkg/model/dynamic-plugins-reference.go:155-229 | only direct links have a plugin name |
| PluginReferences.OciNameRoundTrip | pkg/model/dynamic-plugins-reference.go:155-191 | the name of an assembled `oci://` URL is the name it was assembled from, with ports, tag, digest and path |
| PluginReferences.RegistryHasNoName | pkg/model/dynamic-plugins-reference.go:155-191 | an `oci://` URL without a slash behind the scheme has no name |
| PluginReferences.OpenPathHasNoName | pkg/model/dynamic-plugins-reference.go:155-191 | neither has one that ends with a slash |
| PluginReferences.HttpNameRoundTrip | pkg/model/dynamic-plugins-reference.go:193-241 | the same for versioned archives at `http://` and `https://` URLs, iff the version has no further dash before a digit; otherwise the name keeps the part of the version before the last one |
| PluginReferences.RevisionLeavesVersion | pkg/model/dynamic-plugins-reference.go:233-241 | of a version with a revision only the revision is cut off |
| PluginReferences.RevisionExample | pkg/model/dynamic-plugins-reference.go:233-241 | `p-1.0.0-1.tgz` is taken for the plugin `p-1.0.0` |
| PluginReferences.HostlessArchive | pkg/model/dynamic-plugins-reference.go:193-217 | an archive directly behind the scheme is named by its file |
| PluginReferences.LocalNameRoundTrip | pkg/model/dynamic-plugins-reference.go:219-225 | the name of `./dir/name[!path]` is `name`, also below several directories |
| PluginReferences.BareLocalNameRoundTrip | pkg/model/dynamic-plugins-reference.go:219-225 | the name of `./name[!path]` is `name` |
| PluginReferences.InheritNameRoundTrip | pkg/model/dynamic-plugins-reference.go:82-98 | an assembled `oci://registry/name:{{inherit}}[!path]` looks up `name` |
| PluginReferences.ResolveReferences | pkg/model/dynamic-plugins-reference.go:34-66 | resolves every entry and changes nothing but packages, keeping the length, or reports the first entry that cannot be resolved |
| PluginReferences.LookupFinds | pkg/model/dynamic-plugins-reference.go:99-121 | the search by name finds a non-empty base package of that name, or there is none |
| PluginReferences.RefTakesFirst | pkg/model/dynamic-plugins-reference.go:125-147 | `ref://name` resolves iff the name is not empty and some non-empty base package has it, to the first such package; otherwise the error says which of the two was missing |
| PluginReferences.InheritTakesFirst | pkg/model/dynamic-plugins-reference.go:82-121 | the same for an inherit and the name of its image, with its own `!path` in the place of the base's |
| PluginReferences.OthersAreKept | pkg/model/dynamic-plugins-reference.go:46-58 | what is no reference stays when it is empty or starts with one of the four schemes, and is an error otherwise |
| PluginReferences.NewPathKeepsName | pkg/model/dynamic-plugins-reference.go:108-115 | a user's `!path` replaces the base's path and leaves image and name |
| PluginReferences.MarkerSurvivesIff | pkg/model/dynamic-plugins-reference.go:82-147 | the inherit marker is in a resolved reference iff it was in the part taken from the base or in the user's `!path`; it cannot straddle the join |
| PluginReferences.ResolutionIsFinal | pkg/model/dynamic-plugins-reference.go:34-147 | without markers in the base and the user's `!path`, a result is empty or a direct link without the marker, and resolving it again against any base is the identity |
| PluginReferences.ResolvedListIsFinal | pkg/model/dynamic-plugins-reference.go:34-66 | the same for whole lists, with the length kept |
| PluginReferences.PlainReferencesStayInBase | pkg/model/dynamic-plugins-reference.go:82-147 | `ref://` and path-less `{{inherit}}` resolve to a package of the base |
| PluginReferences.BaseOrderIrrelevantIff | pkg/model/dynamic-plugins-reference.go:100-144 | resolution gives the same outcome for every order of the base iff no two different base packages share a name |
| PluginReferences.NewPathCreatesAmbiguity | pkg/model/dynamic-plugins-reference.go:108-115 | an inherit with a `!path` gives a package of the same name, a different one iff the path differs from the base's, and then the order of the extended base matters |
| PluginReferences.InheritMakesAmbiguous | pkg/model/dynamic-plugins-reference.go:82-115 | the same for every assembled package and inherit with two different paths, with the resolved package |
| PluginReferences.AmbiguityExample | pkg/model/dynamic-plugins-reference.go:82-115 | `oci://r/p:1!a` and an inherited `!b` make such a pair |
| PluginMerge.MergePluginsData | pkg/model/dynamic-plugins.go:294-387 | passes a blank side through, fails exactly on unparsable data or an unresolvable reference, otherwise yields distinct packages with the overlaid and printed entries and the united or cleared includes |
| PluginMerge.MergeLists | pkg/model/dynamic-plugins.go:324-356 | the two loops that fill the plugin map: last entry of the first list, then overlay by overlay |
| PluginMerge.List | pkg/model/dynamic-plugins.go:357-360 | lists each package once, in any order, with its printed entry |
| PluginMerge.Includes | pkg/model/dynamic-plugins.go:362-378 | union of the includes, empty when the second list is explicitly empty |
| PluginMerge.EraseBelow | pkg/model/dynamic-plugins.go:330-352 | forgetting empty values on the accumulated side never shows after the next merge |
| PluginMerge.EraseAboveIff | pkg/model/dynamic-plugins.go:330-352 | forgetting them on the overlay side is invisible iff no explicitly empty config or dependency list of the overlay clears a non-empty one |
| PluginMerge.MergeExists | pkg/model/dynamic-plugins.go:315-387 | two parsed sources have a merge whenever the second one resolves |
| PluginFold.MergeDynamicPlugins | pkg/model/default-config.go:89-130 | the loop over the sources reaches an outcome of the fold, or stops at a source that cannot be merged into what the sources before it gave: one of the two does not parse, or a package cannot be resolved against that very base; unless a package is unresolved, it reports unparsable data iff two sources have data and one does not parse; without references it succeeds iff the sources are mergeable |
| PluginFold.SucceedsIff | pkg/model/dynamic-plugins.go:294-322 | without references the fold has an outcome iff at most one source has data or all parse, and, with resolution on, every source after the first one with data has only empty or direct packages |
| PluginFold.ReachesFolded | pkg/model/default-config.go:98-124 | printing and parsing between the merges loses nothing: the fold equals one merge of all later entries into the first source, printed once |
| PluginFold.FoldLaw | pkg/model/dynamic-plugins.go:294-387 | for two or more sources: a package is in the result iff some source has it; its config and dependencies are the last ones set (cleared by an explicitly empty value), its integrity the last non-empty one; the last entry that sets `enabled` or `disabled: true` decides the activation and replaces both fields, which otherwise are the bottom entry's |
| PluginFold.MergeConservesPackages | pkg/model/dynamic-plugins.go:315-360 | no package is lost, duplicated or invented; plain references add none that the first source lacks |
| PluginFold.IncludesLaw | pkg/model/dynamic-plugins.go:362-378 | an include is in the result iff some source lists it and no later source clears the list |
| PluginActivation.Dependencies | pkg/model/dynamic-plugins.go:228-246 | concatenates the dependencies of the plugins that are not disabled; unparsable data is an error |
| PluginActivation.EnabledPlugins | pkg/model/dynamic-plugins.go:144-150 | keeps the plugins that are not disabled, in order, with their packages |
| PluginActivation.EnabledInOrder | pkg/model/dynamic-plugins.go:144-150 | they are the plugins at increasing positions of the list, and all other positions are disabled |
| PluginActivation.DependenciesInOrder | pkg/model/dynamic-plugins.go:228-246 | dependencies are listed plugin by plugin, in order and with repetitions |
| PluginActivation.EnabledPackagesLaw | pkg/model/dynamic-plugins.go:220-225 | after a merge a package is installed iff its last entry that sets `enabled` or `disabled: true` leaves it enabled; with a single source iff some entry of it is not disabled |
| PluginActivation.DependencyLaw | pkg/model/dynamic-plugins.go:228-246 | a dependency is listed iff a package that this law calls enabled has it among its last set dependencies; with a single source iff an entry that is not disabled has it |
| Flavours.GetEnabledFlavours | pkg/model/flavour.go:32-74 | a flavour is selected iff its last spec entry enables it, or, without an entry, its default does; an explicitly empty list disables all; an unknown name is an error |
| Flavours.CollectEnabled | pkg/model/flavour.go:62-71 | each enabled flavour once, in any order |
| Flavours.PackageOutcome | pkg/model/default-config.go:89-130 | what the fold gives a package depends only on the package's entries and on whether more than one source has data |
| Flavours.FlavourOrderIrrelevantIff | pkg/model/default-config.go:56-130 | base first, then flavours: when sources name packages once, flavours share none and nothing is a reference, every flavour order succeeds with the same plugin map iff at most one source has data, or all parse and, with resolution on, every flavour package is empty or direct |
| Flavours.OneOrderThenAllIff | pkg/model/dynamic-plugins.go:296-322 | if one order succeeds, every order succeeds with the same plugin map iff references are not resolved, at most one source has data, the base has data, or every flavour package is empty or direct |
| Flavours.FlavourOrderMatters | pkg/model/dynamic-plugins-reference.go:46-58 | without a base, flavours `foo` and `./b` can be merged in this order and not in the other |
| Mounts.ReplaceOrAppend | pkg/model/deployment.go:430-448 | the loop that replaces mounts at taken paths in place and appends the requested ones only if nothing was replaced |
| Mounts.MountsToAdd | pkg/model/deployment.go:414-428 | the mounts requested for a directory, for each wanted key, or for a named file |
| Mounts.FileMountsIff | pkg/model/deployment.go:418-425 | exactly the wanted keys are mounted, each read-only under its own name |
| Mounts.RequestedIff | pkg/model/deployment.go:414-428 | the requested mounts, one by one, with path, sub-path and access: the directory, the wanted keys, or the named file |
| Mounts.RequestedDistinct | pkg/model/deployment.go:414-428 | distinct keys ask for distinct paths |
| Mounts.RemountPaths | pkg/model/deployment.go:430-448 | the taken paths afterwards: the old ones, plus the requested ones iff none of them was taken |
| Mounts.RemountKeepsPositions | pkg/model/deployment.go:430-444 | mounts at other paths stay in place and unchanged, taken paths hold a requested mount |
| Mounts.RemountDistinct | pkg/model/deployment.go:430-448 | distinct paths stay distinct |
| Mounts.RemountIdempotent | pkg/model/deployment.go:430-448 | repeating a step leaves the mount list as it is |
| Mounts.RequestedPresentIff | pkg/model/deployment.go:430-448 | a requested mount is there afterwards iff its path was taken or no requested path was |
| Mounts.AllRequestedPresentIff | pkg/model/deployment.go:445-447 | all requested mounts are there afterwards iff their paths were all taken or all new |
| Mounts.PartialOverlapDrops | pkg/model/deployment.go:445-447 | an example with a partial overlap that loses a mount |
| Pods.ParseCommaSeparated | pkg/utils/utils.go:262-271 | the trimmed non-empty parts in order |
| Pods.TrimSpaceCuts | pkg/utils/utils.go:265-265 | trimming cuts nothing but white space, off the two ends |
| Pods.TrimmedEnds | pkg/utils/utils.go:265-265 | and all of it |
| Pods.PartsInOrder | pkg/utils/utils.go:264-269 | part by part, in order, empty ones dropped |
| GoStrings.SplitRejoin | pkg/utils/utils.go:264-264 | the parts with the separator between them give the text back |
| Pods.SelectLaw | pkg/model/containers-filter.go:27-46 | which positions a list of names selects: the Backstage container, one for every position, or the first of each name; an error iff a name is missing |
| Pods.StepKeeps | pkg/model/deployment.go:383-452 | a mount, PVC or app-config step keeps mounts declared, loses no volume and no path, and changes only selected containers |
| Pods.PvcKeeps | pkg/model/pvcs.go:105-125 | the same for `addPvc`, which adds its volume even when it then fails |
| Pods.RunKeeps | pkg/model/pvcs.go:105-125 | over every sequence of steps, failing ones included: every mount names a declared volume, no container loses a path, unselected containers are untouched |
| PodClashes.RunVolumes | pkg/model/deployment.go:408-408 | a run appends the volume of every step that adds one, also when the name is taken |
| PodClashes.FailedSteps | pkg/model/pvcs.go:105-125 | which steps fail; a failing step changes nothing, except that `addPvc` has added its volume already |
| PodClashes.VolumesDistinctIff | pkg/model/deployment.go:390-408 | volume names are distinct after a run iff they were before, the names of the mounted objects give different labels, and none of these is taken by the pod |
| PodClashes.LabelledVolumesDistinctIff | pkg/model/deployment.go:390-408 | when the objects' names are labels, iff the objects' names are distinct |
| PodClashes.MountsNameOneVolume | pkg/model/pvcs.go:113-114 | with distinct volume names every mount names exactly one volume after a run |
| PodClashes.RunDistinctIff | pkg/model/pvcs.go:119-123 | the exact mount paths of a container after a run, by the pod and the steps alone; they are distinct iff they were before, no PVC is mounted at a path taken by then or twice in one step, and no file step asks for new paths twice |
| PodClashes.PvcAtTakenPath | pkg/model/pvcs.go:119-123 | two PVCs at one path give a container two mounts there |
| PodClashes.FilesNeverClash | pkg/model/deployment.go:410-449 | app-configs and file steps with distinct keys never make a mount path double |
| Pods.ConfigFilesReachable | pkg/model/appconfig.go:158-175 | after every sequence of steps the Backstage arguments are the original ones plus the appended `--config` files, and each of these is at or under a mount path of the final Backstage container |
| PodServed.LastAskedServes | pkg/model/deployment.go:430-448 | after every sequence of steps a taken path is served by the mount of the last step that asked for it, or by the one that was there |
| PodServed.AppConfigServedIff | pkg/model/appconfig.go:158-175 | an app-config file is served by its own step's volume iff no later step asks for its path, or the last one that does uses a volume of the same name |
| PodServed.SameKeyServesSecond | pkg/model/appconfig.go:158-175 | two app-configs with the same key in one directory: the file is passed twice and both times it is the second one's |
| PodServed.OneMountServes | pkg/model/deployment.go:414-428 | a step without keys leaves the directory, or the named file read-only under its name, at its path in every selected container |
| PodServed.PvcIsMounted | pkg/model/pvcs.go:119-123 | a PVC comes behind the other mounts, with its sub-path and writable, once for each time the container is named |
| Pods.FlagsAt | pkg/model/appconfig.go:169-173 | every file comes behind its own `--config` |
| Pods.ConfigFilesIff | pkg/model/appconfig.go:169-173 | the files are the wanted keys below the mount path |
| GoPath.JoinUnder | pkg/model/appconfig.go:171-171 | a key joined to a directory is exactly one element below it |
| GoPath.CleanShape | pkg/model/appconfig.go:171-171 | how a clean path is written |
| GoPath.CleanCanonical | pkg/model/appconfig.go:171-171 | clean paths are equal iff they denote the same |
| GoPath.JoinIsClean | pkg/model/deployment.go:421-427 | a joined path is clean |
| GoPath.UpAgain | pkg/model/appconfig.go:171-171 | `..` takes back the element before it |
| Deployments.BackstageDeployment.ContainerByName | pkg/model/deployment.go:186-198 | the first container of that name, main containers before init containers, or nil |
| Deployments.BackstageDeployment.GetContainers | pkg/model/containers-filter.go:20-46 | the annotation wins over the names; none gives the first main container called `backstage-backend`, `*` for every position the first container of its name (all of them when names differ), other names the first container of each; an unknown name is an error |
| Deployments.BackstageDeployment.MountFilesFrom | pkg/model/deployment.go:383-452 | changes the deployment in place exactly as the mount step does |
| Deployments.BackstageDeployment.AddPvc | pkg/model/pvcs.go:105-125 | changes the deployment in place exactly as the PVC step does |
| Deployments.BackstageDeployment.UpdatePodWithAppConfig | pkg/model/appconfig.go:158-175 | changes the deployment in place exactly as the app-config step does |
| Deployments.ConfigArgs | pkg/model/appconfig.go:169-173 | the arguments appended for the wanted files |
| Deployments.LabelsKeepVolumesApart | pkg/utils/utils.go:218-242 | objects whose names are labels have different volume names |
| Deployments.DotAndDashClash | pkg/utils/utils.go:218-242 | names that differ in a dot and a dash have the same volume name |
| Deployments.OneNameTwoSources | pkg/model/deployment.go:390-408 | mounting two such ConfigMaps declares one volume name twice with different sources |
| ExtConfigProtocol.AtMostOneUpdate | internal/controller/spec_preprocessor.go:166-211 | under every interleaving of calls, stale reads, conflicts, errors and outside changes of the content, at most one operator update succeeds, none if the object was tagged, and the writer's CR is in the annotation |
| ExtConfigProtocol.FirstWriterStays | internal/controller/spec_preprocessor.go:195-204 | once an update succeeded, no later one does and its CR's name stays |
| ExtConfigProtocol.CompletedMeansTagged | internal/controller/spec_preprocessor.go:195-206 | a call that ends without error leaves the current version with the auto-sync label and a CR name |
| ExtConfigProtocol.NoLostEdit | internal/controller/spec_preprocessor.go:176-208 | the current content is always that of the last outside change |
| ExtConfigProtocol.TwoAttempts | internal/controller/spec_preprocessor.go:176-208 | with fresh reads and no outside changes every retry loop ends within two attempts |
| ExtConfigProtocol.ConflictRetries | internal/controller/spec_preprocessor.go:174-208 | a conflict changes nothing in the cluster and the call reads again, up to its fifth attempt |
| ExtConfigProtocol.FiveConflictsFail | internal/controller/spec_preprocessor.go:174-208 | over every run: a call's attempts are its conflicts, and without other errors it fails iff it met five of them |
| ExtConfigProtocol.NeverFails | internal/controller/spec_preprocessor.go:174-208 | with fresh reads, no outside changes and no errors no call ever fails |
| ExtConfigProtocol.UpdateWrites | internal/controller/spec_preprocessor.go:195-204 | an update of the current version writes label and CR name, keeps the content and ends the call |
| ExtConfigProtocol.ReadsAndErrors | internal/controller/spec_preprocessor.go:176-206 | a read may see any version so far; an error ends the call; with nothing to update it ends without one |
| ExtConfigProtocol.ChangedSettingRewrites | internal/controller/spec_preprocessor.go:176-208 | on any tagged object, an undisturbed call of any CR under any setting keeps the annotation and makes no update iff the label equals the setting, and otherwise writes its own name |
| ExtConfigProtocol.TwoSettingsTwoWriters | internal/controller/spec_preprocessor.go:189-199 | with the setting switched in between, two CRs both update the object |
| HashBytes.SortedUnique | internal/controller/spec_preprocessor.go:245-256 | a set of keys has one sorted list, so map order cannot show |
| HashBytes.LessIff | internal/controller/spec_preprocessor.go:245-256 | keys are ordered by their first difference, a prefix first |
| HashBytes.ConcatData | internal/controller/spec_preprocessor.go:231-269 | appends keys and values in key order whatever the map order |
| HashBytes.WatchedIff | internal/controller/spec_preprocessor.go:79-154 | which objects of a spec are watched, both ways: environments, dynamic plugins, and files without mount path or with a key while watching is enabled |
| HashBytes.ReferencesInOrder | internal/controller/spec_preprocessor.go:79-154 | the order in which the objects are visited and hashed |
| HashBytes.PreprocessSpec | internal/controller/spec_preprocessor.go:79-158 | the hashed bytes of a whole spec depend only on the contents of the watched objects; an unreadable object is an error |
| HashBytes.OneChangeShows | internal/controller/spec_preprocessor.go:231-269 | changing exactly one value of one watched object changes the bytes, however often the object is referenced |
| HashBytes.SameLengthChangesShow | internal/controller/spec_preprocessor.go:231-269 | any number of changes that keep the keys and the lengths of the values: the bytes of the whole spec are the same iff the watched objects are |
| HashBytes.UnwatchedIsSilent | internal/controller/spec_preprocessor.go:170-172 | an object that no reference watches contributes nothing |
| HashBytes.TwoChangesCanCollide | internal/controller/spec_preprocessor.go:258-266 | two changes at once can give the same bytes |
| ReconcileRuns.Cluster.ApplyPayload | internal/controller/backstage_controller.go:160-178 | creates the database secret only if absent, overwrites otherwise; a refused call changes nothing |
| ReconcileRuns.ApplyLaw | internal/controller/backstage_controller.go:160-178 | what the store holds after each kind of request, and that nothing else changes |
| ReconcileRuns.KeyLaw | pkg/model/db-secret.go:30-32 | which object a request writes, by kind and name |
| ReconcileRuns.RequestsIff | internal/controller/backstage_controller.go:127-150 | every item of every object is asked for, and nothing else |
| ReconcileRuns.LastRequestStays | internal/controller/backstage_controller.go:127-178 | after a run a generated object has the content of the last request for it |
| ReconcileRuns.Cluster.ApplyObjects | internal/controller/backstage_controller.go:127-150 | applies single and multiple objects in order and stops at the first failure, having done exactly the requests before it |
| ReconcileRuns.Cluster.Reconciles | internal/controller/backstage_controller.go:127-178 | any number of reconciles in a row, each cut off by its own first failure, never remove an object and keep the content of every existing database secret, unless a plugin dependency is a Secret of that very name |
| ReconcileRuns.DbSecretStable | internal/controller/backstage_controller.go:127-178 | the same over every sequence of writes of any reconciles, interleaved and cut short anywhere; if there is such a plugin dependency, the last one decides the content |
| ReconcileRuns.FirstPasswordStays | pkg/model/db-secret.go:64-88 | the database secret holds, entry by entry, password, user, host and port of the CR's first successful request, whatever later runs draw, unless a plugin dependency is a Secret of that very name |
| ReconcileRuns.DependencyReplacesPassword | internal/controller/backstage_controller.go:160-178 | such a plugin dependency does replace the content |
| ReconcileRuns.DbSecretNameInjective | pkg/model/db-secret.go:30-32 | two CRs never share a database secret |
| ReconcileRuns.MultiObjectIsNoDbSecret | pkg/model/default-config.go:163-165 | no generated file or environment secret is named like a database secret |
| ReconcileRuns.MultiObjectNamesClashIff | pkg/model/default-config.go:163-165 | exactly when generated names of two CRs coincide |
| ReconcileRuns.MultiObjectNamesCanClash | pkg/model/default-config.go:163-165 | an example of two CRs with the same generated name |
| Rfc1123.ToRFC1123Label | pkg/utils/utils.go:218-242 | the staged rewrite with its trim loop computes `Label` and returns the empty text or a label |
| Rfc1123.LabelIsValid | pkg/utils/utils.go:218-242 | the output is empty or 1 to 63 characters over `[a-z0-9-]` without leading, trailing or doubled dash (section 2.1 of RFC 1123, section 2.3.4 of RFC 1035) |
| Rfc1123.SanitizeLaw | pkg/utils/utils.go:221-225 | letters in lower case, digits and dashes stay, every other ASCII character becomes a dash |
| Rfc1123.CollapseTwo | pkg/utils/utils.go:227-229 | two dashes in a row are worth one |
| Rfc1123.LabelKeeps | pkg/utils/utils.go:218-242 | the label is the collapsed text, cut after 63 characters, without the dashes at its ends |
| Rfc1123.LabelIdentity | pkg/utils/utils.go:218-242 | labels and the empty text are left as they are |
| Rfc1123.LabelIdempotent | pkg/utils/utils.go:218-242 | a second application changes nothing |
| Rfc1123.LabelEmptyIff | pkg/utils/utils.go:231-239 | the output is empty iff the input has no alphanumeric character |

## Left out

- PluginConfigHeap.MergePluginConfigs: an interface-keyed map holds no string-keyed map; yaml.v2 yields none, and the merge creates none.
- ReconcileRuns.Cluster.ApplyPayload: server-side apply is an overwrite; field ownership of other managers is not modelled.
- ExtConfigProtocol.AtMostOneUpdate: outside changes of the label or the annotation itself are not modelled.
- HashBytes.PreprocessSpec: covers the objects whose contents are hashed; the existence checks for raw configuration and PVCs and the ingress domain are not modelled, nor is sha256.
- Pods.ConfigFilesReachable: assumes that ConfigMap keys are ordinary file names, as the API server requires.
- Deployments.BackstageDeployment.ContainerByName: main and init containers are kept in one list, main containers first.
- Reading the flavour directory, its metadata files and the default-config files; a source file without the expected ConfigMap or key.
- Environment variables of containers, images, replicas, deployment patches and the conversion between Deployment and StatefulSet.
- `mountPath` and `getDefConfigMountPath`, which choose the arguments of the mount steps; the steps are modelled for all arguments.
- Reconcile stages before the apply loop and the status conditions, which would only add single-branch members.
- The watchers: the content hash is written on the pod template but compared with the workload's own annotation, so no claim is made that unchanged events are suppressed.
- Routes and base URLs, monitoring, plugin dependency files, the plugin-installer script and the API types.
- Reading and printing YAML, apart from what `omitempty` forgets; kustomize merges.
