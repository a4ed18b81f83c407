/** An entry of dynamic-plugins.yaml (`DynaPlugin`, pkg/model/dynamic-plugins.go). */
module DynaPlugins {
  import opened GoStrings
  import opened PluginConfigTree

  /** A pointer, map or slice of the Go struct is an `Option`: `None` is nil
      (the YAML key is absent), `Some` of an empty collection is a key that is
      explicitly set to an empty value. */
  datatype Plugin = Plugin(
    package: string,
    integrity: string,
    enabled: Option<bool>,
    disabled: bool,
    config: Option<Tree>,
    dependencies: Option<seq<string>>)

  /** The effective state: `enabled` takes precedence over `disabled`. */
  predicate IsDisabled(p: Plugin) {
    if p.enabled.Some? then !p.enabled.value else p.disabled
  }

  function Packages(ps: seq<Plugin>): (r: seq<string>)
    ensures |r| == |ps| && forall i :: 0 <= i < |ps| ==> r[i] == ps[i].package
  {
    seq(|ps|, i requires 0 <= i < |ps| => ps[i].package)
  }
}
