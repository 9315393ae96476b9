/** The built-in translation of minor version 1.2. */
module TranslateTables {
  import opened Addresses
  import opened Options
  import opened Paths
  import opened GoHeap
  import opened Permutations
  import opened SetTreeSpec
  import opened SetTreeOrder
  import opened Translate
  import opened TranslateCode

  /** Output paths, as their elements. */
  const OUTPUTS: seq<Path> := [
    ["global", "hub"],
    ["global", "tag"],
    ["global", "resources"],
    ["global", "proxy"],
    ["global", "policyCheckFailOpen"],
    ["global", "outboundTrafficPolicy", "mode"],
    ["global", "controlPlaneSecurityEnabled"],
    ["global", "mtls", "enabled"]
  ]

  const API_MAPPINGS: Mappings := map[
    "Hub" := Dotted(OUTPUTS[0]),
    "Tag" := Dotted(OUTPUTS[1]),
    "K8SDefaults" := Dotted(OUTPUTS[2]),
    "TrafficManagement.Components.Proxy.Common.Values" := Dotted(OUTPUTS[3]),
    "PolicyTelemetry.PolicyCheckFailOpen" := Dotted(OUTPUTS[4]),
    "PolicyTelemetry.OutboundTrafficPolicyMode" := Dotted(OUTPUTS[5]),
    "Security.ControlPlaneMtls.Value" := Dotted(OUTPUTS[6]),
    "Security.DataPlaneMtlsStrict.Value" := Dotted(OUTPUTS[7])
  ]

  datatype Row = Row(feature: string, component: string, enabled: Path, namespace: Path)

  const SHARED: Path := ["global", "istioNamespace"]

  const ROWS: seq<Row> := [
    Row("TrafficManagement", "Pilot", ["pilot", "enabled"], SHARED),
    Row("Policy", "Policy", ["mixer", "policy", "enabled"], ["global", "policyNamespace"]),
    Row("ConfigManagement", "Galley", ["galley", "enabled"], []),
    Row("Telemetry", "Telemetry", ["mixer", "telemetry", "enabled"], ["global", "telemetryNamespace"]),
    Row("Security", "NodeAgent", ["nodeagent", "enabled"], SHARED),
    Row("Security", "CertManager", ["certmanager", "enabled"], SHARED),
    Row("Security", "Citadel", ["security", "enabled"], SHARED)
  ]

  function PathsOf(i: nat): ValuePaths
    requires i < |ROWS|
  {
    ValuePaths(Dotted(ROWS[i].enabled), Dotted(ROWS[i].namespace))
  }

  const VALUE_PATHS: Table := map[
    "TrafficManagement" := map["Pilot" := PathsOf(0)],
    "Policy" := map["Policy" := PathsOf(1)],
    "ConfigManagement" := map["Galley" := PathsOf(2)],
    "Telemetry" := map["Telemetry" := PathsOf(3)],
    "Security" := map["NodeAgent" := PathsOf(4), "CertManager" := PathsOf(5), "Citadel" := PathsOf(6)]
  ]

  function PathIn(r: Row, ofNamespace: bool): Path {
    if ofNamespace then r.namespace else r.enabled
  }

  /** Enough of a path to tell the paths of the tables apart. */
  function Mark(p: Path): (nat, nat, char)
    requires |p| >= 2 && p[0] != ""
  {
    (|p[0]|, |p[1]|, p[0][0])
  }

  function RowMark(i: nat, ofNamespace: bool): (nat, nat, char)
    requires i < |ROWS|
  {
    if ofNamespace then (6, if i == 1 then 15 else if i == 3 then 18 else 14, 'g')
    else [(5, 7, 'p'), (5, 6, 'm'), (6, 7, 'g'), (5, 9, 'm'), (9, 7, 'n'), (11, 7, 'c'), (8, 7, 's')][i]
  }

  lemma RowMarked(i: nat, b: bool)
    requires i < |ROWS| && PathIn(ROWS[i], b) != []
    ensures var p := PathIn(ROWS[i], b);
            |p| >= 2 && p[0] != "" && Mark(p) == RowMark(i, b) && (b && i != 1 && i != 3 ==> p == SHARED)
  {
  }

  lemma OutputMarked(k: nat)
    requires k < |OUTPUTS|
    ensures var p := OUTPUTS[k];
            |p| >= 2 && p[0] != "" && Mark(p) == (6, [3, 3, 9, 5, 19, 21, 27, 4][k], 'g')
  {
  }

  lemma MarksDiffer(p: Path, q: Path)
    requires |p| >= 2 && |q| >= 2 && p[0] != "" && q[0] != "" && Mark(p) != Mark(q)
    ensures !PrefixComparable(p, q)
  {
  }

  lemma RowsApart(i: nat, b: bool, j: nat, c: bool)
    requires i < |ROWS| && j < |ROWS| && PathIn(ROWS[i], b) != [] && PathIn(ROWS[j], c) != [] && (i != j || b != c)
    ensures PrefixComparable(PathIn(ROWS[i], b), PathIn(ROWS[j], c))
            <==> PathIn(ROWS[i], b) == PathIn(ROWS[j], c) == SHARED
  {
    hide PathIn;
    RowMarked(i, b);
    RowMarked(j, c);
    if RowMark(i, b) != RowMark(j, c) {
      MarksDiffer(PathIn(ROWS[i], b), PathIn(ROWS[j], c));
    }
  }

  lemma OutputsApart(k: nat, i: nat, b: bool)
    requires k < |OUTPUTS| && i < |ROWS| && PathIn(ROWS[i], b) != []
    ensures !PrefixComparable(OUTPUTS[k], PathIn(ROWS[i], b))
  {
    hide PathIn;
    RowMarked(i, b);
    OutputMarked(k);
    MarksDiffer(OUTPUTS[k], PathIn(ROWS[i], b));
  }

  lemma RowWords()
    ensures PlainElement("pilot") && PlainElement("mixer") && PlainElement("galley") && PlainElement("nodeagent")
    ensures PlainElement("certmanager") && PlainElement("security")
  {
  }

  lemma NamespaceWords()
    ensures PlainElement("global") && PlainElement("istioNamespace") && PlainElement("policyNamespace")
    ensures PlainElement("telemetryNamespace")
  {
  }

  lemma OtherWords()
    ensures PlainElement("enabled") && PlainElement("policy") && PlainElement("telemetry")
  {
  }

  lemma RowsPlain(i: nat, b: bool)
    requires i < |ROWS|
    ensures PlainElements(PathIn(ROWS[i], b))
  {
    hide PlainElement;
    RowWords();
    NamespaceWords();
    OtherWords();
  }

  lemma OutputsPlain(k: nat)
    requires k < |OUTPUTS|
    ensures PlainElements(OUTPUTS[k]) && forall i | 0 <= i < |OUTPUTS[k]| :: 'a' <= OUTPUTS[k][i][0] <= 'z'
  {
  }

  lemma LowerAlready(path: Path)
    requires forall i | 0 <= i < |path| :: path[i] != "" && 'a' <= path[i][0] <= 'z'
    ensures LowerAll(path) == path
  {
    hide LowerAll;
    forall i | 0 <= i < |path|
      ensures LowerAll(path)[i] == path[i]
    {
      assert path[i] == [path[i][0]] + path[i][1..];
    }
  }

  lemma {:induction false} LowerAppends(p: Path, q: Path)
    requires forall i | 0 <= i < |p + q| :: (p + q)[i] != ""
    ensures forall i | 0 <= i < |p| :: p[i] != ""
    ensures LowerAll(p + q)[..|p|] == LowerAll(p)
  {
    forall i | 0 <= i < |p|
      ensures p[i] != "" && LowerAll(p + q)[i] == FirstCharToLower(p[i])
    {
      assert (p + q)[i] == p[i];
    }
  }

  lemma OutputOf(input: string) returns (k: nat)
    requires input in API_MAPPINGS
    ensures k < |OUTPUTS| && API_MAPPINGS[input] == Dotted(OUTPUTS[k])
  {
    k := if input == "Hub" then 0 else if input == "Tag" then 1 else if input == "K8SDefaults" then 2
         else if input == "TrafficManagement.Components.Proxy.Common.Values" then 3
         else if input == "PolicyTelemetry.PolicyCheckFailOpen" then 4
         else if input == "PolicyTelemetry.OutboundTrafficPolicyMode" then 5
         else if input == "Security.ControlPlaneMtls.Value" then 6 else 7;
  }

  /** A leaf is never set at, above or below a path of the table. */
  lemma LeafApart(ins: Insertion, x: Setting)
    requires x in AllSettings(VALUE_PATHS) && OpOf(API_MAPPINGS, ins).Some?
    ensures OpOf(API_MAPPINGS, ins).value.path != []
    ensures !PrefixComparable(OpOf(API_MAPPINGS, ins).value.path, Parse(PathOf(VALUE_PATHS, x)))
  {
    hide LongestMapped, LowerAll, Parse, AllSettings, PlainElements;
    var i := SettingParsed(x);
    var n := LongestMapped(API_MAPPINGS, ins.path);
    var k := OutputOf(Dotted(ins.path[..n]));
    OutputsApart(k, i, x.ofNamespace);
    OutputStays(OUTPUTS[k], ins.path[n..], k);
    assert OUTPUTS[k] <= OpOf(API_MAPPINGS, ins).value.path;
  }

  lemma SettingParsed(x: Setting) returns (i: nat)
    requires x in AllSettings(VALUE_PATHS)
    ensures i < |ROWS| && x.feature == ROWS[i].feature && x.component == ROWS[i].component
    ensures Parse(PathOf(VALUE_PATHS, x)) == PathIn(ROWS[i], x.ofNamespace) != []
  {
    i := RowOf(x);
    RowsPlain(i, x.ofNamespace);
    ParseUndoesJoin(PathIn(ROWS[i], x.ofNamespace));
  }

  lemma OutputStays(output: Path, suffix: Path, k: nat)
    requires k < |OUTPUTS| && output == OUTPUTS[k]
    ensures var parsed := Parse(Appended(Dotted(output), suffix));
            (forall i | 0 <= i < |parsed| :: parsed[i] != "") && output <= LowerAll(parsed)
  {
    OutputsPlain(k);
    var parsed := Parse(Appended(Dotted(output), suffix));
    NonEmptyPieces(SplitOn(Appended(Dotted(output), suffix), PATH_SEPARATOR));
    ParseOfJoined(Dotted(output), Dotted(suffix));
    ParseUndoesJoin(output);
    LowerAppends(output, Parse(Dotted(suffix)));
    LowerAlready(output);
  }

  lemma RowOf(x: Setting) returns (i: nat)
    requires x in AllSettings(VALUE_PATHS)
    ensures i < |ROWS| && x.feature == ROWS[i].feature && x.component == ROWS[i].component
    ensures PathOf(VALUE_PATHS, x) == Dotted(PathIn(ROWS[i], x.ofNamespace)) && PathIn(ROWS[i], x.ofNamespace) != []
  {
    i := if x.feature == "TrafficManagement" then 0 else if x.feature == "Policy" then 1
         else if x.feature == "ConfigManagement" then 2 else if x.feature == "Telemetry" then 3
         else if x.component == "NodeAgent" then 4 else if x.component == "CertManager" then 5 else 6;
  }

  /** The tables meet what a translator asks of them. */
  lemma BuiltInSlashless()
    ensures Translator.Slashless(API_MAPPINGS, VALUE_PATHS)
  {
    forall input | input in API_MAPPINGS
      ensures '/' !in API_MAPPINGS[input]
    {
      var k := OutputOf(input);
      OutputsPlain(k);
      SlashlessDotted(OUTPUTS[k]);
    }
    forall x | x in AllSettings(VALUE_PATHS)
      ensures '/' !in PathOf(VALUE_PATHS, x)
    {
      var i := RowOf(x);
      RowsPlain(i, x.ofNamespace);
      SlashlessDotted(PathIn(ROWS[i], x.ofNamespace));
    }
  }

  // ---- Two orders

  lemma {:induction false} LeafOf(leaves: seq<Insertion>, op: Op) returns (ins: Insertion)
    requires op in OpsOf(API_MAPPINGS, leaves)
    ensures OpOf(API_MAPPINGS, ins) == Some(op)
    decreases |leaves|
  {
    ins := leaves[0];
    if OpOf(API_MAPPINGS, ins) != Some(op) {
      ins := LeafOf(leaves[1..], op);
    }
  }

  lemma SettingBehind(tr: Translator, settings: seq<Setting>, op: Op) returns (x: Setting)
    requires op in tr.SettingOps(settings)
    ensures x in settings && op == tr.SettingOp(x)
  {
    var i :| 0 <= i < |settings| && tr.SettingOps(settings)[i] == op;
    x := settings[i];
  }

  /** Two sets of a translation are at incomparable paths, or the same, or both at the shared path. */
  lemma BuiltInApart(tr: Translator, leaves: seq<Insertion>, settings: seq<Setting>, a: Op, b: Op)
    requires tr.mappings == API_MAPPINGS && tr.table == VALUE_PATHS
    requires AllConsistent(OpsOf(API_MAPPINGS, leaves)) && forall x | x in settings :: x in AllSettings(VALUE_PATHS)
    requires a in tr.AllOps(leaves, settings) && b in tr.AllOps(leaves, settings)
    ensures a.path != [] && (Consistent(a, b) || a.path == b.path == SHARED)
  {
    hide AllSettings, OpOf, OpsOf, SettingsIn;
    var la, lb := a in OpsOf(API_MAPPINGS, leaves), b in OpsOf(API_MAPPINGS, leaves);
    if la {
      if !lb {
        var ins := LeafOf(leaves, a);
        var y := SettingBehind(tr, settings, b);
        LeafApart(ins, y);
      }
    } else {
      var x := SettingBehind(tr, settings, a);
      var i := SettingParsed(x);
      if lb {
        var ins := LeafOf(leaves, b);
        LeafApart(ins, x);
      } else {
        var y := SettingBehind(tr, settings, b);
        var j := SettingParsed(y);
        if x != y {
          assert i == j && x.ofNamespace == y.ofNamespace ==> x == y;
          RowsApart(i, x.ofNamespace, j, y.ofNamespace);
        }
      }
    }
  }

  lemma BuiltInOverridden(tr: Translator, leaves: seq<Insertion>, settings: seq<Setting>, v: Tree)
    requires tr.mappings == API_MAPPINGS && tr.table == VALUE_PATHS
    requires AllConsistent(OpsOf(API_MAPPINGS, leaves)) && forall x | x in settings :: x in AllSettings(VALUE_PATHS)
    ensures AllApart(tr.AllOps(leaves, settings)) && AllMapsAlong(EMPTY_MAP, tr.AllOps(leaves, settings))
    ensures AllConsistent(Overridden(tr.AllOps(leaves, settings), SHARED, v) + [Op(SHARED, v)])
  {
    hide AllSettings, OpsOf, SettingsIn;
    var ops := tr.AllOps(leaves, settings);
    forall a, b | a in ops && b in ops
      ensures a.path != [] && (Consistent(a, b) || a.path == b.path == SHARED)
    {
      BuiltInApart(tr, leaves, settings, a, b);
    }
    forall op | op in ops
      ensures op.path == SHARED || !PrefixComparable(op.path, SHARED)
    {
      ApartFromShared(tr, leaves, settings, op);
    }
    OverriddenConsistent(ops, SHARED, v);
  }

  lemma ApartFromShared(tr: Translator, leaves: seq<Insertion>, settings: seq<Setting>, op: Op)
    requires tr.mappings == API_MAPPINGS && tr.table == VALUE_PATHS
    requires AllConsistent(OpsOf(API_MAPPINGS, leaves)) && forall x | x in settings :: x in AllSettings(VALUE_PATHS)
    requires op in tr.AllOps(leaves, settings)
    ensures op.path == SHARED || !PrefixComparable(op.path, SHARED)
  {
    var x := PilotNamespace();
    hide AllSettings, OpsOf, SettingsIn;
    tr.SettingOpsAppends(settings, [x]);
    assert tr.SettingOp(x) in tr.SettingOps([x]);
    BuiltInApart(tr, leaves, settings + [x], op, tr.SettingOp(x));
  }

  lemma PilotNamespace() returns (x: Setting)
    ensures x in AllSettings(VALUE_PATHS) && Parse(PathOf(VALUE_PATHS, x)) == SHARED
  {
    x := Setting("TrafficManagement", "Pilot", true);
    RowsPlain(0, true);
    ParseUndoesJoin(SHARED);
    EmptyParses();
    assert x in SettingsOf(VALUE_PATHS, "TrafficManagement", {"Pilot"});
    assert x in SettingsOf(VALUE_PATHS, "TrafficManagement", VALUE_PATHS["TrafficManagement"].Keys);
  }

  /** Sets that may only disagree at `path` are consistent once they are overridden there. */
  lemma OverriddenConsistent(ops: seq<Op>, path: Path, v: Tree)
    requires path != [] && forall op | op in ops :: op.path == path || !PrefixComparable(op.path, path)
    requires forall a, b | a in ops && b in ops :: a.path != [] && (Consistent(a, b) || a.path == b.path == path)
    ensures AllApart(ops) && AllMapsAlong(EMPTY_MAP, ops)
    ensures AllConsistent(Overridden(ops, path, v) + [Op(path, v)])
  {
    hide Overridden, MapsAlong;
    OverriddenMembers(ops, path, v);
    EmptyTakesAll(ops);
    var last := Op(path, v);
    var over := Overridden(ops, path, v) + [last];
    forall a, b | a in over && b in over
      ensures a.path != [] && Consistent(a, b)
    {
      if a != last && b != last {
        assert a in ops && b in ops;
      }
    }
  }

  lemma EmptyTakesAll(ops: seq<Op>)
    requires forall op | op in ops :: op.path != []
    ensures AllMapsAlong(EMPTY_MAP, ops)
  {
  }

  lemma OverriddenMembers(ops: seq<Op>, path: Path, v: Tree)
    ensures forall a | a in Overridden(ops, path, v) + [Op(path, v)] :: a == Op(path, v) || (a in ops && a.path != path)
  {
    hide Overridden;
    forall a | a in Overridden(ops, path, v)
      ensures a == Op(path, v) || (a in ops && a.path != path)
    {
      var i :| 0 <= i < |ops| && Overridden(ops, path, v)[i] == a;
      assert ops[i] in ops;
    }
  }

  /**
   With the built-in tables, two translations of a spec whose own leaves are consistent both succeed, and setting
   `global.istioNamespace` once more makes their results equal: they can differ only there.
   */
  lemma OrdersDifferOnlyAtShared(tr: Translator, leaves: seq<Insertion>, settings: seq<Setting>,
                                 leaves': seq<Insertion>, settings': seq<Setting>, v: Tree)
    requires tr.Valid() && tr.mappings == API_MAPPINGS && tr.table == VALUE_PATHS
    requires multiset(leaves) == multiset(leaves') && AllConsistent(OpsOf(API_MAPPINGS, leaves))
    requires multiset(settings) == multiset(settings') == multiset(AllSettings(VALUE_PATHS))
    ensures var r := RunOps(tr.first, EMPTY_MAP, tr.AllOps(leaves, settings));
            var r' := RunOps(tr.first, EMPTY_MAP, tr.AllOps(leaves', settings'));
            && r.errors == r'.errors == []
            && Insert(r.tree, SHARED, v) == Insert(r'.tree, SHARED, v)
  {
    hide AllSettings, OpsOf, SettingsIn, RunOps, AllConsistent, AllApart, AllMapsAlong, Insert, Overridden;
    var ops, ops' := tr.AllOps(leaves, settings), tr.AllOps(leaves', settings');
    OpsOfReordered(API_MAPPINGS, leaves, leaves');
    OrderIsImmaterial(EMPTY_MAP, OpsOf(API_MAPPINGS, leaves), OpsOf(API_MAPPINGS, leaves'));
    OnlySettings(settings);
    OnlySettings(settings');
    BuiltInOverridden(tr, leaves, settings, v);
    BuiltInOverridden(tr, leaves', settings', v);
    OpsApartInsert(tr.first, EMPTY_MAP, ops);
    OpsApartInsert(tr.first, EMPTY_MAP, ops');
    SettingsReordered(tr, settings, settings');
    OrdersDifferOnlyAt(EMPTY_MAP, ops, ops', SHARED, v);
  }

  lemma OnlySettings(settings: seq<Setting>)
    requires multiset(settings) == multiset(AllSettings(VALUE_PATHS))
    ensures forall x | x in settings :: x in AllSettings(VALUE_PATHS)
  {
    forall x | x in settings
      ensures x in AllSettings(VALUE_PATHS)
    {
      assert x in multiset(settings);
    }
  }

  lemma SettingsReordered(tr: Translator, xs: seq<Setting>, ys: seq<Setting>)
    requires multiset(xs) == multiset(ys)
    ensures multiset(tr.SettingOps(xs)) == multiset(tr.SettingOps(ys))
  {
    tr.SettingOpsSum(xs);
    tr.SettingOpsSum(ys);
    SumReordered(tr.OpsOfSetting(), xs, ys);
  }

  /** The mappings, as texts. */
  lemma BuiltInMappings()
    ensures API_MAPPINGS == map[
              "Hub" := "global.hub",
              "Tag" := "global.tag",
              "K8SDefaults" := "global.resources",
              "TrafficManagement.Components.Proxy.Common.Values" := "global.proxy",
              "PolicyTelemetry.PolicyCheckFailOpen" := "global.policyCheckFailOpen",
              "PolicyTelemetry.OutboundTrafficPolicyMode" := "global.outboundTrafficPolicy.mode",
              "Security.ControlPlaneMtls.Value" := "global.controlPlaneSecurityEnabled",
              "Security.DataPlaneMtlsStrict.Value" := "global.mtls.enabled"]
  {
    hide Dotted;
    ShortOutputs();
    PolicyOutput();
    SecurityOutput();
    ThreeOutputs();
  }

  lemma ShortOutputs()
    ensures Dotted(["global", "hub"]) == "global.hub" && Dotted(["global", "tag"]) == "global.tag"
    ensures Dotted(["global", "resources"]) == "global.resources" && Dotted(["global", "proxy"]) == "global.proxy"
  {
    hide Dotted;
    DottedTwo("global", "hub");
    DottedTwo("global", "tag");
    DottedTwo("global", "resources");
    DottedTwo("global", "proxy");
  }

  lemma PolicyOutput()
    ensures Dotted(["global", "policyCheckFailOpen"]) == "global.policyCheckFailOpen"
  {
    hide Dotted;
    DottedTwo("global", "policyCheckFailOpen");
  }

  lemma SecurityOutput()
    ensures Dotted(["global", "controlPlaneSecurityEnabled"]) == "global.controlPlaneSecurityEnabled"
  {
    hide Dotted;
    DottedTwo("global", "controlPlaneSecurityEnabled");
  }

  lemma ThreeOutputs()
    ensures Dotted(["global", "outboundTrafficPolicy", "mode"]) == "global.outboundTrafficPolicy.mode"
    ensures Dotted(["global", "mtls", "enabled"]) == "global.mtls.enabled"
  {
    hide Dotted;
    DottedThree("global", "outboundTrafficPolicy", "mode");
    DottedThree("global", "mtls", "enabled");
  }

  lemma DottedTwo(a: string, b: string)
    ensures Dotted([a, b]) == a + "." + b
  {
    assert [a, b][1..] == [b] && Join([b], '.') == b;
    assert a + ['.'] + b == a + "." + b;
  }

  lemma DottedThree(a: string, b: string, c: string)
    ensures Dotted([a, b, c]) == a + "." + b + "." + c
  {
    assert [a, b, c][1..] == [b, c];
    DottedTwo(b, c);
    assert a + ['.'] + (b + "." + c) == a + "." + b + "." + c;
  }

  // ---- What is read back

  ghost predicate Translated(tr: Translator, leaves: seq<Insertion>, settings: seq<Setting>) {
    && tr.Valid() && tr.mappings == API_MAPPINGS && tr.table == VALUE_PATHS
    && AllConsistent(OpsOf(API_MAPPINGS, leaves)) && multiset(settings) == multiset(AllSettings(VALUE_PATHS))
  }

  /** The values after the leaves and then the settings were set in these orders. */
  ghost function Result(tr: Translator, leaves: seq<Insertion>, settings: seq<Setting>): Tree
    requires tr.Valid()
  {
    RunOps(tr.first, EMPTY_MAP, tr.AllOps(leaves, settings)).tree
  }

  lemma ReadAt(tr: Translator, leaves: seq<Insertion>, settings: seq<Setting>, op: Op) returns (found: Op)
    requires Translated(tr, leaves, settings) && op in tr.AllOps(leaves, settings)
    ensures RunOps(tr.first, EMPTY_MAP, tr.AllOps(leaves, settings)).errors == []
    ensures found in tr.AllOps(leaves, settings) && found.path == op.path
    ensures At(Result(tr, leaves, settings), Keys(op.path)) == Some(found.value)
    ensures op.path != SHARED ==> found == op
  {
    hide AllSettings, OpsOf, SettingsIn, RunOps, AllConsistent, AllApart, AllMapsAlong, Insert, InsertAll, Keys;
    var ops := tr.AllOps(leaves, settings);
    OnlySettings(settings);
    BuiltInOverridden(tr, leaves, settings, op.value);
    OpsApartInsert(tr.first, EMPTY_MAP, ops);
    forall x | x in ops
      ensures x.path != [] && (x.path == op.path || !PrefixComparable(x.path, op.path))
      ensures op.path != [] && (op.path != SHARED && x.path == op.path ==> x == op)
    {
      BuiltInApart(tr, leaves, settings, x, op);
    }
    found := InsertAllReads(EMPTY_MAP, ops, op.path);
  }

  lemma RowRead(tr: Translator, leaves: seq<Insertion>, settings: seq<Setting>, i: nat, b: bool)
    requires Translated(tr, leaves, settings) && i < |ROWS|
    requires PathIn(ROWS[i], b) != [] && PathIn(ROWS[i], b) != SHARED
    ensures At(Result(tr, leaves, settings), Keys(PathIn(ROWS[i], b)))
            == Some(if b then tr.namespaces(ROWS[i].feature, ROWS[i].component)
                    else tr.enabled(ROWS[i].feature, ROWS[i].component))
  {
    hide AllSettings, OpsOf, SettingsIn, AllConsistent, Result;
    var x := Setting(ROWS[i].feature, ROWS[i].component, b);
    RowSetting(tr, settings, i, b);
    var found := ReadAt(tr, leaves, settings, tr.SettingOp(x));
  }

  /** The setting of a row is one of the settings. */
  lemma RowSetting(tr: Translator, settings: seq<Setting>, i: nat, b: bool)
    requires tr.table == VALUE_PATHS && multiset(settings) == multiset(AllSettings(VALUE_PATHS))
    requires i < |ROWS| && PathIn(ROWS[i], b) != []
    ensures var x := Setting(ROWS[i].feature, ROWS[i].component, b);
            && x in settings && tr.SettingOp(x) in tr.SettingOps(settings)
            && tr.SettingOp(x).path == PathIn(ROWS[i], b)
  {
    hide SettingsIn, Parse;
    var x := Setting(ROWS[i].feature, ROWS[i].component, b);
    RowListed(i, b);
    tr.SettingListed(x.feature, x.component, b);
    assert x in multiset(settings);
    tr.SettingMade(settings, x);
    RowsPlain(i, b);
    ParseUndoesJoin(PathIn(ROWS[i], b));
  }

  lemma RowListed(i: nat, b: bool)
    requires i < |ROWS| && PathIn(ROWS[i], b) != []
    ensures var r := ROWS[i];
            && r.feature in VALUE_PATHS && r.component in VALUE_PATHS[r.feature]
            && var paths := VALUE_PATHS[r.feature][r.component];
               (if b then paths.namespace else paths.enabled) == Dotted(PathIn(r, b)) != ""
  {
    RowsPlain(i, b);
    DottedNotEmpty(PathIn(ROWS[i], b));
  }

  lemma DottedNotEmpty(path: Path)
    requires path != [] && PlainElements(path)
    ensures Dotted(path) != ""
  {
  }

  /**
   With the built-in tables, if the leaves of the spec do not conflict: every component is enabled at its own path as
   it is in the spec, the two namespaces that have paths of their own are there, and the shared one is that of a
   component.
   */
  lemma BuiltInSettings(tr: Translator, leaves: seq<Insertion>, settings: seq<Setting>)
    requires Translated(tr, leaves, settings)
    ensures RunOps(tr.first, EMPTY_MAP, tr.AllOps(leaves, settings)).errors == []
    ensures var t := Result(tr, leaves, settings);
            && At(t, Keys(["pilot", "enabled"])) == Some(tr.enabled("TrafficManagement", "Pilot"))
            && At(t, Keys(["mixer", "policy", "enabled"])) == Some(tr.enabled("Policy", "Policy"))
            && At(t, Keys(["galley", "enabled"])) == Some(tr.enabled("ConfigManagement", "Galley"))
            && At(t, Keys(["mixer", "telemetry", "enabled"])) == Some(tr.enabled("Telemetry", "Telemetry"))
            && At(t, Keys(["nodeagent", "enabled"])) == Some(tr.enabled("Security", "NodeAgent"))
            && At(t, Keys(["certmanager", "enabled"])) == Some(tr.enabled("Security", "CertManager"))
            && At(t, Keys(["security", "enabled"])) == Some(tr.enabled("Security", "Citadel"))
            && At(t, Keys(["global", "policyNamespace"])) == Some(tr.namespaces("Policy", "Policy"))
            && At(t, Keys(["global", "telemetryNamespace"])) == Some(tr.namespaces("Telemetry", "Telemetry"))
            && At(t, Keys(["global", "istioNamespace"])) in {
                 Some(tr.namespaces("TrafficManagement", "Pilot")), Some(tr.namespaces("Security", "NodeAgent")),
                 Some(tr.namespaces("Security", "CertManager")), Some(tr.namespaces("Security", "Citadel"))}
  {
    hide Translated, Result, Keys, RunOps;
    EnabledRead(tr, leaves, settings, 0, "TrafficManagement", "Pilot", ["pilot", "enabled"]);
    EnabledRead(tr, leaves, settings, 1, "Policy", "Policy", ["mixer", "policy", "enabled"]);
    EnabledRead(tr, leaves, settings, 2, "ConfigManagement", "Galley", ["galley", "enabled"]);
    EnabledRead(tr, leaves, settings, 3, "Telemetry", "Telemetry", ["mixer", "telemetry", "enabled"]);
    EnabledRead(tr, leaves, settings, 4, "Security", "NodeAgent", ["nodeagent", "enabled"]);
    EnabledRead(tr, leaves, settings, 5, "Security", "CertManager", ["certmanager", "enabled"]);
    EnabledRead(tr, leaves, settings, 6, "Security", "Citadel", ["security", "enabled"]);
    NamespaceRead(tr, leaves, settings, 1, "Policy", ["global", "policyNamespace"]);
    NamespaceRead(tr, leaves, settings, 3, "Telemetry", ["global", "telemetryNamespace"]);
    IstioNamespaceRead(tr, leaves, settings);
  }

  lemma EnabledRead(tr: Translator, leaves: seq<Insertion>, settings: seq<Setting>, i: nat, feature: string,
                    component: string, path: Path)
    requires Translated(tr, leaves, settings) && i < |ROWS|
    requires ROWS[i].feature == feature && ROWS[i].component == component && ROWS[i].enabled == path
    ensures At(Result(tr, leaves, settings), Keys(path)) == Some(tr.enabled(feature, component))
  {
    hide Translated, Result, Keys;
    EnabledNotShared(i);
    RowRead(tr, leaves, settings, i, false);
  }

  lemma EnabledNotShared(i: nat)
    requires i < |ROWS|
    ensures PathIn(ROWS[i], false) == ROWS[i].enabled != [] && ROWS[i].enabled != SHARED
  {
    assert ROWS[i].enabled[|ROWS[i].enabled| - 1] == "enabled";
  }

  lemma NamespaceRead(tr: Translator, leaves: seq<Insertion>, settings: seq<Setting>, i: nat, name: string, path: Path)
    requires Translated(tr, leaves, settings) && (i == 1 || i == 3)
    requires ROWS[i].feature == name && ROWS[i].component == name && ROWS[i].namespace == path
    ensures At(Result(tr, leaves, settings), Keys(path)) == Some(tr.namespaces(name, name))
  {
    hide Translated, Result, Keys;
    assert |ROWS[i].namespace[1]| > |SHARED[1]|;
    RowRead(tr, leaves, settings, i, true);
  }

  lemma IstioNamespaceRead(tr: Translator, leaves: seq<Insertion>, settings: seq<Setting>)
    requires Translated(tr, leaves, settings)
    ensures RunOps(tr.first, EMPTY_MAP, tr.AllOps(leaves, settings)).errors == []
    ensures At(Result(tr, leaves, settings), Keys(["global", "istioNamespace"])) in {
              Some(tr.namespaces("TrafficManagement", "Pilot")), Some(tr.namespaces("Security", "NodeAgent")),
              Some(tr.namespaces("Security", "CertManager")), Some(tr.namespaces("Security", "Citadel"))}
  {
    hide Translated, Result, Keys, RunOps, PathIn;
    var i := SharedRead(tr, leaves, settings);
    SharedRows(i);
  }

  lemma SharedRows(i: nat)
    requires i < |ROWS| && PathIn(ROWS[i], true) == SHARED
    ensures i == 0 || i == 4 || i == 5 || i == 6
  {
    RowMarked(i, true);
    RowMarked(0, true);
  }

  lemma SharedRead(tr: Translator, leaves: seq<Insertion>, settings: seq<Setting>) returns (i: nat)
    requires Translated(tr, leaves, settings)
    ensures RunOps(tr.first, EMPTY_MAP, tr.AllOps(leaves, settings)).errors == []
    ensures i < |ROWS| && PathIn(ROWS[i], true) == SHARED
    ensures At(Result(tr, leaves, settings), Keys(SHARED))
            == Some(tr.namespaces(ROWS[i].feature, ROWS[i].component))
  {
    hide AllSettings, OpsOf, SettingsIn, AllConsistent, Result, OpOf, Parse, RunOps;
    RowSetting(tr, settings, 0, true);
    var found := ReadAt(tr, leaves, settings, tr.SettingOp(Setting(ROWS[0].feature, ROWS[0].component, true)));
    NoLeafIsShared(leaves, found);
    OnlySettings(settings);
    i := SharedSetting(tr, settings, found);
  }

  lemma NoLeafIsShared(leaves: seq<Insertion>, op: Op)
    requires op.path == SHARED
    ensures op !in OpsOf(API_MAPPINGS, leaves)
  {
    if op in OpsOf(API_MAPPINGS, leaves) {
      var ins := LeafOf(leaves, op);
      NotShared(ins);
    }
  }

  lemma SharedSetting(tr: Translator, settings: seq<Setting>, op: Op) returns (i: nat)
    requires tr.table == VALUE_PATHS && op in tr.SettingOps(settings) && op.path == SHARED
    requires forall x | x in settings :: x in AllSettings(VALUE_PATHS)
    ensures i < |ROWS| && PathIn(ROWS[i], true) == SHARED
    ensures op.value == tr.namespaces(ROWS[i].feature, ROWS[i].component)
  {
    hide AllSettings, Parse, PathIn;
    var x := SettingBehind(tr, settings, op);
    i := SettingParsed(x);
    if !x.ofNamespace {
      EnabledNotShared(i);
    }
  }

  /** A leaf that is translated is there, too. */
  lemma LeafRead(tr: Translator, leaves: seq<Insertion>, settings: seq<Setting>, ins: Insertion)
    requires Translated(tr, leaves, settings) && ins in leaves && OpOf(API_MAPPINGS, ins).Some?
    ensures At(Result(tr, leaves, settings), Keys(OpOf(API_MAPPINGS, ins).value.path)) == Some(ins.value)
  {
    hide AllSettings, OpsOf, SettingsIn, AllConsistent, Result, OpOf, Parse;
    var op := OpOf(API_MAPPINGS, ins).value;
    tr.LeavesSet(leaves, op);
    var found := ReadAt(tr, leaves, settings, op);
    NotShared(ins);
    OpKeepsValue(ins);
  }

  lemma NotShared(ins: Insertion)
    requires OpOf(API_MAPPINGS, ins).Some?
    ensures OpOf(API_MAPPINGS, ins).value.path != SHARED
  {
    hide OpOf;
    var x := PilotNamespace();
    LeafApart(ins, x);
  }

  lemma OpKeepsValue(ins: Insertion)
    requires OpOf(API_MAPPINGS, ins).Some?
    ensures OpOf(API_MAPPINGS, ins).value.value == ins.value
  {
  }
}
