/**
 * The icon-set resolver: a registry of custom icon sets that shadows a fixed
 * table of built-in icon families, each backed by an optional vector-icon
 * package that may or may not be installed.
 *
 * The process-wide registry of the original becomes an explicit `IconState`
 * threaded through the calls, `require` becomes a lookup in the map of
 * installed packages, and `console.warn` appends to the state's warning log.
 */
module IconType {
  import opened Basics
  import opened Strings

  /** An icon-set module (a package's exports or a user-supplied component set). */
  datatype IconModule = IconModule(name: string)

  /**
   * A value stored in the custom registry. The resolver only asks whether it
   * is truthy; `Falsy` stands for `null`, `undefined`, `false`, `0` and `""`.
   */
  datatype CustomValue = Falsy | Truthy(icons: IconModule)

  type Registry = map<string, CustomValue>

  /** The packages `require` can load, with the module each one exports. */
  type Installed = map<string, IconModule>

  /** A built-in family: the package that provides it and its display label. */
  datatype IconSet = IconSet(pkg: string, displayLabel: string)

  /** The custom registry and every warning written so far. */
  datatype IconState = IconState(custom: Registry, warnings: seq<string>)

  /** What a resolution returns: the module (or `null`) and the new state. */
  datatype Lookup = Lookup(icon: Option<IconModule>, state: IconState)

  /** The state at process start: nothing registered, nothing logged. */
  const InitialState := IconState(map[], [])

  const MaterialPkg := "@react-native-vector-icons/material-icons"
  const MaterialLabel := "Material"

  /** The built-in family table, aliases included. */
  const IconMap: map<string, IconSet> := map[
    "zocial" := IconSet("@react-native-vector-icons/zocial", "Zocial"),
    "octicon" := IconSet("@react-native-vector-icons/octicons", "Octicons"),
    "material" := IconSet(MaterialPkg, MaterialLabel),
    "material-community" := IconSet("@react-native-vector-icons/material-community", "Material Community"),
    "ionicon" := IconSet("@react-native-vector-icons/ionicons", "Ionicons"),
    "foundation" := IconSet("@react-native-vector-icons/foundation", "Foundation"),
    "evilicon" := IconSet("@react-native-vector-icons/evil-icons", "EvilIcons"),
    "entypo" := IconSet("@react-native-vector-icons/entypo", "Entypo"),
    "font-awesome" := IconSet("@react-native-vector-icons/fontawesome", "FontAwesome"),
    "fa" := IconSet("@react-native-vector-icons/fontawesome", "FontAwesome"),
    "font-awesome-5" := IconSet("@react-native-vector-icons/fontawesome5", "FontAwesome5"),
    "fa-5" := IconSet("@react-native-vector-icons/fontawesome5", "FontAwesome5"),
    "font-awesome-6" := IconSet("@react-native-vector-icons/fontawesome6", "FontAwesome6"),
    "fa-6" := IconSet("@react-native-vector-icons/fontawesome6", "FontAwesome6"),
    "simple-line-icon" := IconSet("@react-native-vector-icons/simple-line-icons", "SimpleLineIcons"),
    "feather" := IconSet("@react-native-vector-icons/feather", "Feather"),
    "antdesign" := IconSet("@react-native-vector-icons/ant-design", "AntDesign"),
    "ant-design" := IconSet("@react-native-vector-icons/ant-design", "AntDesign"),
    "fontisto" := IconSet("@react-native-vector-icons/fontisto", "Fontisto")
  ]

  /** `customIcons[id]` is truthy. A missing key reads as `undefined`. */
  predicate HasCustom(custom: Registry, id: string) {
    id in custom && custom[id].Truthy?
  }

  /** The family the resolver falls back to for an id it does not know. */
  function FamilyFor(id: string): IconSet {
    if id in IconMap then IconMap[id] else IconSet(MaterialPkg, MaterialLabel)
  }

  /** The warning written when a family's package cannot be loaded. */
  function MissingWarning(pkg: string, displayLabel: string): (r: string)
    ensures StartsWith(r, displayLabel + " icon set is not available.")
    ensures Contains(r, "\"" + pkg + "\"")
    ensures Contains(r, displayLabel) && Contains(r, pkg)
  {
    var lead := displayLabel + " icon set is not available.";
    var quoted := "\"" + pkg + "\"";
    var advice := " Please install " + quoted + " to use it.";
    ContainsInfix(" Please install ", quoted, " to use it.");
    ContainsAppendLeft(lead, advice, quoted);
    ContainsInfix("\"", pkg, "\"");
    ContainsTransitive(lead + advice, quoted, pkg);
    assert Contains(lead, displayLabel);
    ContainsAppendRight(lead, advice, displayLabel);
    lead + advice
  }

  /**
   * `registerCustomIconType(id, value)`: stores `value` under `id`,
   * replacing what was there, and touches nothing else.
   */
  function RegisterCustomIconType(st: IconState, id: string, value: CustomValue): (st': IconState)
    ensures id in st'.custom && st'.custom[id] == value
    ensures st'.custom.Keys == st.custom.Keys + {id}
    ensures forall other :: other in st.custom && other != id ==> st'.custom[other] == st.custom[other]
    ensures st'.warnings == st.warnings
  {
    st.(custom := st.custom[id := value])
  }

  /** Registering the same id twice keeps only the second value. */
  lemma RegisterLastWins(st: IconState, id: string, first: CustomValue, second: CustomValue)
    ensures RegisterCustomIconType(RegisterCustomIconType(st, id, first), id, second)
         == RegisterCustomIconType(st, id, second)
  {
  }

  /** Registrations under different ids do not interfere. */
  lemma RegisterDistinctCommute(st: IconState, a: string, va: CustomValue, b: string, vb: CustomValue)
    requires a != b
    ensures RegisterCustomIconType(RegisterCustomIconType(st, a, va), b, vb)
         == RegisterCustomIconType(RegisterCustomIconType(st, b, vb), a, va)
  {
  }

  /**
   * `loadIconSet(pkg, label)`: the package's module when it is installed;
   * otherwise `null` and exactly one warning naming both label and package.
   */
  function LoadIconSet(installed: Installed, pkg: string, displayLabel: string, st: IconState): (r: Lookup)
    ensures r.icon.Some? <==> pkg in installed
    ensures r.icon.Some? ==> r.icon.value == installed[pkg] && r.state == st
    ensures r.icon.None? ==>
              && r.state.custom == st.custom
              && |r.state.warnings| == |st.warnings| + 1
              && r.state.warnings[..|st.warnings|] == st.warnings
              && Contains(r.state.warnings[|st.warnings|], displayLabel)
              && Contains(r.state.warnings[|st.warnings|], pkg)
  {
    if pkg in installed then
      Lookup(Some(installed[pkg]), st)
    else
      var w := MissingWarning(pkg, displayLabel);
      Lookup(None, st.(warnings := st.warnings + [w]))
  }

  /**
   * `getIcon(id)`: a truthy custom entry wins; otherwise a known id loads its
   * own package; otherwise the Material package is loaded.
   */
  function GetIcon(installed: Installed, st: IconState, id: string): (r: Lookup)
    ensures r.state.custom == st.custom
    ensures HasCustom(st.custom, id) ==> r.icon == Some(st.custom[id].icons) && r.state == st
    ensures !HasCustom(st.custom, id) ==>
              && (r.icon.Some? <==> FamilyFor(id).pkg in installed)
              && (r.icon.Some? ==> r.icon.value == installed[FamilyFor(id).pkg] && r.state == st)
              && (r.icon.None? ==>
                    r.state.warnings == st.warnings + [MissingWarning(FamilyFor(id).pkg, FamilyFor(id).displayLabel)])
  {
    if HasCustom(st.custom, id) then
      Lookup(Some(st.custom[id].icons), st)
    else if id in IconMap then
      var config := IconMap[id];
      LoadIconSet(installed, config.pkg, config.displayLabel, st)
    else
      LoadIconSet(installed, MaterialPkg, MaterialLabel, st)
  }

  /** A resolution writes at most one warning, and only when it returns `null`. */
  lemma GetIconWarnsOnlyOnFailure(installed: Installed, st: IconState, id: string)
    ensures var r := GetIcon(installed, st, id);
            && st.warnings <= r.state.warnings
            && (r.icon.Some? ==> r.state.warnings == st.warnings)
            && (r.icon.None? ==> |r.state.warnings| == |st.warnings| + 1)
  {
  }

  /**
   * At process start nothing is registered, so every id resolves through its
   * table entry, or through Material when it has none, and the log holds at
   * most that one warning.
   */
  lemma FreshStartUsesTable(installed: Installed, id: string)
    ensures var r := GetIcon(installed, InitialState, id);
            var family := if id in IconMap then IconMap[id] else IconSet(MaterialPkg, MaterialLabel);
            && r.state.custom == map[]
            && (family.pkg in installed ==> r.icon == Some(installed[family.pkg]) && r.state.warnings == [])
            && (family.pkg !in installed ==>
                  r.icon == None && r.state.warnings == [MissingWarning(family.pkg, family.displayLabel)])
  {
  }

  /** A custom entry shadows the built-in family of the same id, installed or not. */
  lemma CustomShadowsBuiltin(installed: Installed, st: IconState, id: string, m: IconModule)
    requires id in IconMap
    ensures GetIcon(installed, RegisterCustomIconType(st, id, Truthy(m)), id).icon == Some(m)
  {
  }

  /** A falsy registration does not short-circuit: it resolves as if absent. */
  lemma FalsyIsUnregistered(installed: Installed, st: IconState, id: string)
    ensures var withFalsy := GetIcon(installed, RegisterCustomIconType(st, id, Falsy), id);
            var without := GetIcon(installed, st.(custom := st.custom - {id}), id);
            withFalsy.icon == without.icon && withFalsy.state.warnings == without.state.warnings
  {
  }

  /** A known id whose package is missing gives `null`, with no Material fallback. */
  lemma KnownMissingHasNoFallback(installed: Installed, st: IconState, id: string)
    requires id in IconMap && IconMap[id].pkg !in installed
    requires !HasCustom(st.custom, id)
    ensures GetIcon(installed, st, id).icon == None
  {
  }

  /** An id that is neither registered nor known resolves like `material`. */
  lemma UnknownResolvesAsMaterial(installed: Installed, st: IconState, id: string)
    requires id !in IconMap && !HasCustom(st.custom, id) && !HasCustom(st.custom, "material")
    ensures GetIcon(installed, st, id) == GetIcon(installed, st, "material")
  {
  }

  /**
   * An unknown id loads the Material package directly: a custom entry
   * registered under `material` does not reach it.
   */
  lemma UnknownIgnoresCustomMaterial(installed: Installed, st: IconState, id: string, m: IconModule)
    requires id !in IconMap && !HasCustom(st.custom, id)
    ensures var registered := RegisterCustomIconType(st, "material", Truthy(m));
            && GetIcon(installed, registered, "material").icon == Some(m)
            && GetIcon(installed, registered, id).icon
               == if MaterialPkg in installed then Some(installed[MaterialPkg]) else None
  {
    assert "material" in IconMap;
  }

  /** Two unregistered ids with the same table entry resolve identically. */
  lemma SameEntrySameResolution(installed: Installed, st: IconState, a: string, b: string)
    requires a in IconMap && b in IconMap && IconMap[a] == IconMap[b]
    requires !HasCustom(st.custom, a) && !HasCustom(st.custom, b)
    ensures GetIcon(installed, st, a) == GetIcon(installed, st, b)
  {
  }

  /** The alias ids and their full names have the same table entries. */
  lemma AliasEntries()
    ensures "fa" in IconMap && "font-awesome" in IconMap && IconMap["fa"] == IconMap["font-awesome"]
    ensures "fa-5" in IconMap && "font-awesome-5" in IconMap && IconMap["fa-5"] == IconMap["font-awesome-5"]
    ensures "fa-6" in IconMap && "font-awesome-6" in IconMap && IconMap["fa-6"] == IconMap["font-awesome-6"]
    ensures "antdesign" in IconMap && "ant-design" in IconMap && IconMap["antdesign"] == IconMap["ant-design"]
  {
  }

  /** The alias ids resolve through the same package and label as their full names. */
  lemma AliasesAgree(installed: Installed, st: IconState)
    requires !HasCustom(st.custom, "fa") && !HasCustom(st.custom, "font-awesome")
    requires !HasCustom(st.custom, "fa-5") && !HasCustom(st.custom, "font-awesome-5")
    requires !HasCustom(st.custom, "fa-6") && !HasCustom(st.custom, "font-awesome-6")
    requires !HasCustom(st.custom, "antdesign") && !HasCustom(st.custom, "ant-design")
    ensures GetIcon(installed, st, "fa") == GetIcon(installed, st, "font-awesome")
    ensures GetIcon(installed, st, "fa-5") == GetIcon(installed, st, "font-awesome-5")
    ensures GetIcon(installed, st, "fa-6") == GetIcon(installed, st, "font-awesome-6")
    ensures GetIcon(installed, st, "antdesign") == GetIcon(installed, st, "ant-design")
  {
    AliasEntries();
    SameEntrySameResolution(installed, st, "fa", "font-awesome");
    SameEntrySameResolution(installed, st, "fa-5", "font-awesome-5");
    SameEntrySameResolution(installed, st, "fa-6", "font-awesome-6");
    SameEntrySameResolution(installed, st, "antdesign", "ant-design");
  }

  /**
   * `material-community` loads its own package and, when that is installed,
   * writes no warning at all: there is no deprecation notice in the resolver.
   */
  lemma MaterialCommunityLoadsItsOwnPackage(installed: Installed, st: IconState)
    requires !HasCustom(st.custom, "material-community")
    requires "@react-native-vector-icons/material-community" in installed
    ensures GetIcon(installed, st, "material-community")
         == Lookup(Some(installed["@react-native-vector-icons/material-community"]), st)
  {
  }
}
