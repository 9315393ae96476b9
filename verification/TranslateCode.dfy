/** `ProtoToValues` with the map iterations it makes, in any order. */
module TranslateCode {
  import opened Options
  import opened Addresses
  import opened Paths
  import opened GoHeap
  import opened Permutations
  import opened SetTreeSpec
  import opened SetTreeOrder
  import opened Translate

  /** Where the enablement and the namespace of a component go in the values; empty for nowhere. */
  datatype ValuePaths = ValuePaths(enabled: string, namespace: string)

  /** By feature, then by component. */
  type Table = map<string, map<string, ValuePaths>>

  datatype Setting = Setting(feature: string, component: string, ofNamespace: bool)

  function PathOf(table: Table, x: Setting): string {
    if x.feature !in table || x.component !in table[x.feature] then ""
    else if x.ofNamespace then table[x.feature][x.component].namespace
    else table[x.feature][x.component].enabled
  }

  function SettingsOf(table: Table, feature: string, components: set<string>): set<Setting>
    requires feature in table && components <= table[feature].Keys
  {
    set c, b: bool | c in components && PathOf(table, Setting(feature, c, b)) != "" :: Setting(feature, c, b)
  }

  function SettingsIn(table: Table, features: set<string>): set<Setting>
    requires features <= table.Keys
  {
    set f, x | f in features && x in SettingsOf(table, f, table[f].Keys) :: x
  }

  function AllSettings(table: Table): set<Setting> {
    SettingsIn(table, table.Keys)
  }

  lemma DisjointUnion<T>(xs: set<T>, ys: set<T>)
    requires xs !! ys
    ensures multiset(xs + ys) == multiset(xs) + multiset(ys)
  {
  }

  datatype Result = Values(tree: Tree) | Failed(errors: seq<SetError>)

  class ValuesTree {
    var root: Tree

    constructor ()
      ensures root == EMPTY_MAP
    {
      root := EMPTY_MAP;
    }
  }

  predicate Readable(ins: Insertion) {
    forall i | 0 <= i < |ins.path| :: '/' !in ins.path[i]
  }

  lemma {:induction false} SlashlessDotted(path: Path)
    requires forall i | 0 <= i < |path| :: '/' !in path[i]
    ensures '/' !in Dotted(path)
    decreases |path|
  {
    if |path| > 1 {
      SlashlessDotted(path[1..]);
    }
  }

  class Translator {
    const mappings: Mappings
    const table: Table
    const first: Tree -> Scalar
    const enabled: (string, string) -> Tree   // by feature and component, from the spec
    const namespaces: (string, string) -> Tree

    constructor (mappings: Mappings, table: Table, first: Tree -> Scalar, enabled: (string, string) -> Tree,
                 namespaces: (string, string) -> Tree)
      requires Chooses(first) && Slashless(mappings, table)
      ensures Valid() && this.mappings == mappings && this.table == table && this.first == first
      ensures this.enabled == enabled && this.namespaces == namespaces
    {
      this.mappings, this.table, this.first := mappings, table, first;
      this.enabled, this.namespaces := enabled, namespaces;
    }

    static ghost predicate Slashless(mappings: Mappings, table: Table) {
      && (forall path | path in mappings :: '/' !in mappings[path])
      && (forall x | x in AllSettings(table) :: '/' !in PathOf(table, x))
    }

    ghost predicate Valid() {
      Chooses(first) && Slashless(mappings, table)
    }

    function SettingOp(x: Setting): Op {
      Op(Parse(PathOf(table, x)),
         if x.ofNamespace then namespaces(x.feature, x.component) else enabled(x.feature, x.component))
    }

    function SettingOps(log: seq<Setting>): (ops: seq<Op>)
      ensures |ops| == |log| && forall i | 0 <= i < |log| :: ops[i] == SettingOp(log[i])
    {
      if log == [] then [] else [SettingOp(log[0])] + SettingOps(log[1..])
    }

    // ---- Leaves

    method LowerEach(p: Path) returns (path: Path)
      requires forall i | 0 <= i < |p| :: p[i] != ""
      ensures path == LowerAll(p)
    {
      path := [];
      for i := 0 to |p|
        invariant |path| == i && forall j | 0 <= j < i :: path[j] == FirstCharToLower(p[j])
      {
        path := path + [FirstCharToLower(p[i])];
      }
    }

    lemma RunOne(t: Tree, ins: Insertion, op: Op)
      requires Valid() && t.Map? && OpOf(mappings, ins) == Some(op)
      ensures var r := DoOp(first, t, op);
              RunOps(first, t, OpsOf(mappings, [ins])) == Ran(r.tree, AtMostOne(r.error))
    {
      hide DoOp, OpOf;
      assert [ins][1..] == [] && [op][1..] == [];
      assert OpsOf(mappings, [ins]) == [op];
    }

    /** `insertLeaf` with `defaultTranslationFunc`. */
    method InsertLeaf(values: ValuesTree, path: Path, value: Tree) returns (errs: seq<SetError>)
      requires Valid() && values.root.Map? && Readable(Insertion(path, value))
      modifies values
      ensures values.root.Map?
      ensures RunOps(first, old(values.root), OpsOf(mappings, [Insertion(path, value)])) == Ran(values.root, errs)
    {
      errs := [];
      var valuesPath, m := GetValuesPathMapping(mappings, path);
      if m.None? || IsEmptyString(value) || valuesPath == "" {
        return;
      }
      SlashlessDotted(path[LongestMapped(mappings, path)..]);
      var p := PathFromString(valuesPath);
      NonEmptyPieces(SplitOn(valuesPath, PATH_SEPARATOR));
      var lowered := LowerEach(p);
      RunOne(values.root, Insertion(path, value), Op(lowered, value));
      var r := SetTree(values.root, lowered, value, first(value));
      values.root := r.tree;
      if r.error.Some? {
        errs := [r.error.value];
      }
    }

    ghost predicate AllReadable(ins: multiset<Insertion>) {
      forall x | x in ins :: Readable(x)
    }

    /** From `t`, the leaves of `log` were inserted in that order. */
    ghost predicate Inserted(t: Tree, log: seq<Insertion>, t': Tree, errs: seq<SetError>)
      requires Valid()
    {
      t.Map? && t'.Map? && RunOps(first, t, OpsOf(mappings, log)) == Ran(t', errs)
    }

    lemma InsertedNone(t: Tree)
      requires Valid() && t.Map?
      ensures Inserted(t, [], t, [])
    {
    }

    lemma InsertedThen(t: Tree, xs: seq<Insertion>, t': Tree, es: seq<SetError>, ys: seq<Insertion>, t'': Tree,
                       fs: seq<SetError>)
      requires Valid() && Inserted(t, xs, t', es) && Inserted(t', ys, t'', fs)
      ensures Inserted(t, xs + ys, t'', es + fs)
    {
      OpsOfAppends(mappings, xs, ys);
      RunOpsAppends(first, t, OpsOf(mappings, xs), OpsOf(mappings, ys));
    }

    /** `protoToValues`: every leaf of the spec is inserted exactly once, in some order. */
    method InsertMessage(m: Message, values: ValuesTree, path: Path)
      returns (errs: seq<SetError>, ghost log: seq<Insertion>)
      requires Valid() && values.root.Map? && AllReadable(OfMessage(m, path))
      modifies values
      ensures multiset(log) == OfMessage(m, path) && Inserted(old(values.root), log, values.root, errs)
              && values.root.Map?
      decreases m
    {
      hide RunOps, OpsOf, Inserted;
      errs, log := [], [];
      InsertedNone(values.root);
      if m.NilMessage? {
        return;
      }
      for i := 0 to |m.fields|
        invariant Inserted(old(values.root), log, values.root, errs) && values.root.Map?
        invariant multiset(log) + OfFields(m.fields[i..], path) == OfMessage(m, path)
      {
        var field := m.fields[i];
        assert m.fields[i..][0] == field && m.fields[i..][1..] == m.fields[i + 1..];
        if !field.hidden {
          ghost var before, es := values.root, errs;
          var more;
          ghost var added;
          more, added := InsertValue(field.value, values, path + [field.name]);
          InsertedThen(old(values.root), log, before, es, added, values.root, more);
          errs, log := errs + more, log + added;
        }
      }
    }

    method InsertValue(v: FieldValue, values: ValuesTree, path: Path)
      returns (errs: seq<SetError>, ghost log: seq<Insertion>)
      requires Valid() && values.root.Map? && AllReadable(OfValue(v, path))
      modifies values
      ensures multiset(log) == OfValue(v, path) && Inserted(old(values.root), log, values.root, errs)
              && values.root.Map?
      decreases v
    {
      hide RunOps, OpsOf;
      match v
      case Nested(m) =>
        errs, log := InsertMessage(m, values, path);
      case Entries(entries) =>
        errs, log := InsertEntries(entries, values, path);
      case Repeated(elements) =>
        errs, log := [], [];
        InsertedNone(values.root);
        for i := 0 to |elements|
          invariant Inserted(old(values.root), log, values.root, errs)
          invariant multiset(log) + OfElements(elements[i..], path) == OfValue(v, path)
        {
          assert elements[i..][0] == elements[i] && elements[i..][1..] == elements[i + 1..];
          ghost var before, es := values.root, errs;
          var more;
          ghost var added;
          more, added := InsertMessage(elements[i], values, path);
          InsertedThen(old(values.root), log, before, es, added, values.root, more);
          errs, log := errs + more, log + added;
        }
      case Single(value) =>
        log := [Insertion(path, value)];
        assert OfValue(v, path) == multiset(log);
        errs := InsertLeaf(values, path, value);
      case Absent =>
        errs, log := [], [];
        InsertedNone(values.root);
    }

    /** The entries of a map, in whatever order `range` visits them. */
    method InsertEntries(entries: map<string, Tree>, values: ValuesTree, path: Path)
      returns (errs: seq<SetError>, ghost log: seq<Insertion>)
      requires Valid() && values.root.Map? && AllReadable(OfEntries(entries, entries.Keys, path))
      modifies values
      ensures multiset(log) == OfEntries(entries, entries.Keys, path)
      ensures Inserted(old(values.root), log, values.root, errs)
    {
      hide RunOps, OpsOf;
      errs, log := [], [];
      InsertedNone(values.root);
      var keys := entries.Keys;
      while keys != {}
        invariant keys <= entries.Keys
        invariant Inserted(old(values.root), log, values.root, errs)
        invariant multiset(log) + OfEntries(entries, keys, path) == OfEntries(entries, entries.Keys, path)
        decreases |keys|
      {
        var key :| key in keys;
        EntryTaken(entries, keys, key, path);
        ghost var before, es, ins := values.root, errs, Insertion(path + [key], entries[key]);
        assert ins in OfEntries(entries, entries.Keys, path);
        var more := InsertLeaf(values, path + [key], entries[key]);
        InsertedThen(old(values.root), log, before, es, [ins], values.root, more);
        errs, log := errs + more, log + [ins];
        keys := keys - {key};
      }
    }

    lemma EntryTaken(entries: map<string, Tree>, keys: set<string>, key: string, path: Path)
      requires key in keys && keys <= entries.Keys
      ensures OfEntries(entries, keys, path)
              == multiset{Insertion(path + [key], entries[key])} + OfEntries(entries, keys - {key}, path)
    {
      var x := Insertion(path + [key], entries[key]);
      var rest := set k | k in keys - {key} :: Insertion(path + [k], entries[k]);
      forall k | k in keys - {key}
        ensures Insertion(path + [k], entries[k]) != x
      {
        assert (path + [k])[|path|] == k && (path + [key])[|path|] == key;
      }
      DisjointUnion({x}, rest);
      assert {x} + rest == set k | k in keys :: Insertion(path + [k], entries[k]);
    }

    // ---- Enablement and namespaces

    /** From `t`, the settings of `log` were made in that order. */
    ghost predicate Settled(t: Tree, log: seq<Setting>, t': Tree, errs: seq<SetError>)
      requires Valid()
    {
      && t.Map? && t'.Map? && (forall x | x in log :: x in AllSettings(table))
      && RunOps(first, t, SettingOps(log)) == Ran(t', errs)
    }

    lemma SettledNone(t: Tree)
      requires Valid() && t.Map?
      ensures Settled(t, [], t, [])
    {
    }

    lemma SettledThen(t: Tree, xs: seq<Setting>, t': Tree, ys: seq<Setting>, t'': Tree, errs: seq<SetError>)
      requires Valid() && Settled(t, xs, t', []) && Settled(t', ys, t'', errs)
      ensures Settled(t, xs + ys, t'', errs)
    {
      hide RunOps, SettingsIn, SettingOps, SettingOp, SettingsOf;
      RunOpsAppends(first, t, SettingOps(xs), SettingOps(ys));
      SettingOpsAppends(xs, ys);
      assert [] + errs == errs;
    }

    lemma SettingOpsAppends(xs: seq<Setting>, ys: seq<Setting>)
      ensures SettingOps(xs + ys) == SettingOps(xs) + SettingOps(ys)
    {
      hide SettingOps, SettingOp;
    }

    method SetOne(values: ValuesTree, x: Setting) returns (err: Option<SetError>)
      requires Valid() && values.root.Map? && x in AllSettings(table)
      modifies values
      ensures values.root.Map? && Settled(old(values.root), [x], values.root, AtMostOne(err))
    {
      var p := PathFromString(PathOf(table, x));
      var op := SettingOp(x);
      var r := SetTree(values.root, p, op.value, first(op.value));
      assert SettingOps([x]) == [op] && [op][1..] == [];
      values.root, err := r.tree, r.error;
    }

    /** Everything in `wanted` was set once; or some of it, up to the first error. */
    ghost predicate Covers(log: seq<Setting>, wanted: set<Setting>, err: Option<SetError>) {
      if err.None? then multiset(log) == multiset(wanted) else multiset(log) <= multiset(wanted)
    }

    method SetComponent(values: ValuesTree, f: string, c: string)
      returns (err: Option<SetError>, ghost log: seq<Setting>)
      requires Valid() && values.root.Map? && f in table && c in table[f]
      modifies values
      ensures values.root.Map? && Settled(old(values.root), log, values.root, AtMostOne(err))
      ensures Covers(log, SettingsOf(table, f, {c}), err)
    {
      hide Settled;
      err, log := None, [];
      SettledNone(values.root);
      var e, n := Setting(f, c, false), Setting(f, c, true);
      assert SettingsOf(table, f, {c}) == (if PathOf(table, e) != "" then {e} else {})
                                          + (if PathOf(table, n) != "" then {n} else {});
      forall x | x in SettingsOf(table, f, {c})
        ensures x in AllSettings(table)
      {
        assert x in SettingsOf(table, f, table[f].Keys);
      }
      if PathOf(table, e) != "" {
        err := SetOne(values, e);
        log := [e];
        if err.Some? {
          return;
        }
      }
      if PathOf(table, n) != "" {
        ghost var before := values.root;
        err := SetOne(values, n);
        SettledThen(old(values.root), log, before, [n], values.root, AtMostOne(err));
        log := log + [n];
      }
    }

    method SetFeature(values: ValuesTree, f: string) returns (err: Option<SetError>, ghost log: seq<Setting>)
      requires Valid() && values.root.Map? && f in table
      modifies values
      ensures values.root.Map? && Settled(old(values.root), log, values.root, AtMostOne(err))
      ensures Covers(log, SettingsOf(table, f, table[f].Keys), err)
    {
      hide Settled, SettingsOf;
      err, log := None, [];
      SettledNone(values.root);
      var cs := table[f].Keys;
      NoSettings(f);
      assert table[f].Keys - cs == {};
      while cs != {}
        invariant cs <= table[f].Keys && values.root.Map? && err.None?
        invariant Settled(old(values.root), log, values.root, [])
        invariant multiset(log) == multiset(SettingsOf(table, f, table[f].Keys - cs))
        decreases |cs|
      {
        var c :| c in cs;
        ghost var before, done := values.root, table[f].Keys - cs;
        ghost var more;
        err, more := SetComponent(values, f, c);
        SettledThen(old(values.root), log, before, more, values.root, AtMostOne(err));
        log := log + more;
        OneMoreComponent(f, done, c);
        cs := cs - {c};
        assert table[f].Keys - cs == done + {c};
        if err.Some? {
          SomeComponents(f, done + {c});
          return;
        }
      }
      assert table[f].Keys - cs == table[f].Keys;
    }

    lemma NoSettings(f: string)
      requires f in table
      ensures SettingsOf(table, f, {}) == {} && SettingsIn(table, {}) == {}
    {
    }

    lemma OneMoreComponent(f: string, done: set<string>, c: string)
      requires f in table && done <= table[f].Keys && c in table[f] && c !in done
      ensures multiset(SettingsOf(table, f, done + {c}))
              == multiset(SettingsOf(table, f, done)) + multiset(SettingsOf(table, f, {c}))
    {
      DisjointUnion(SettingsOf(table, f, done), SettingsOf(table, f, {c}));
      assert SettingsOf(table, f, done + {c}) == SettingsOf(table, f, done) + SettingsOf(table, f, {c});
    }

    lemma SomeComponents(f: string, cs: set<string>)
      requires f in table && cs <= table[f].Keys
      ensures multiset(SettingsOf(table, f, cs)) <= multiset(SettingsOf(table, f, table[f].Keys))
    {
    }

    /** `setEnablementAndNamespaces`: the settings of the table in whatever order the two maps are visited. */
    method SetEnablementAndNamespaces(values: ValuesTree) returns (err: Option<SetError>, ghost log: seq<Setting>)
      requires Valid() && values.root.Map?
      modifies values
      ensures values.root.Map? && Settled(old(values.root), log, values.root, AtMostOne(err))
      ensures Covers(log, AllSettings(table), err)
    {
      hide Settled, SettingsOf, SettingsIn;
      err, log := None, [];
      SettledNone(values.root);
      var fs := table.Keys;
      assert table.Keys - fs == {};
      assert SettingsIn(table, {}) == {} by {
        NoSettingsAtAll();
      }
      while fs != {}
        invariant fs <= table.Keys && values.root.Map? && err.None?
        invariant Settled(old(values.root), log, values.root, [])
        invariant multiset(log) == multiset(SettingsIn(table, table.Keys - fs))
        decreases |fs|
      {
        var f :| f in fs;
        ghost var before, done := values.root, table.Keys - fs;
        ghost var more;
        err, more := SetFeature(values, f);
        SettledThen(old(values.root), log, before, more, values.root, AtMostOne(err));
        log := log + more;
        OneMoreFeature(done, f);
        fs := fs - {f};
        assert table.Keys - fs == done + {f};
        if err.Some? {
          SomeFeatures(done + {f});
          return;
        }
      }
      assert table.Keys - fs == table.Keys;
    }

    lemma NoSettingsAtAll()
      ensures SettingsIn(table, {}) == {}
    {
    }

    lemma OneMoreFeature(done: set<string>, f: string)
      requires done <= table.Keys && f in table && f !in done
      ensures multiset(SettingsIn(table, done + {f}))
              == multiset(SettingsIn(table, done)) + multiset(SettingsOf(table, f, table[f].Keys))
    {
      DisjointUnion(SettingsIn(table, done), SettingsOf(table, f, table[f].Keys));
      assert SettingsIn(table, done + {f}) == SettingsIn(table, done) + SettingsOf(table, f, table[f].Keys);
    }

    lemma SomeFeatures(fs: set<string>)
      requires fs <= table.Keys
      ensures multiset(SettingsIn(table, fs)) <= multiset(AllSettings(table))
    {
    }

    // ---- The whole translation

    /** The sets that a translation makes: those of the leaves, then those of the table. */
    function AllOps(leaves: seq<Insertion>, settings: seq<Setting>): seq<Op> {
      OpsOf(mappings, leaves) + SettingOps(settings)
    }

    /** Some order of the leaves of a spec, and of the settings. */
    ghost function SomeOrder(m: Message): (ops: seq<Op>) {
      AllOps(Listed(OfMessage(m, [])), Listed(multiset(AllSettings(table))))
    }

    /**
     The translation is to put `value` at `path`: for a leaf, or for the enablement or the namespace of a component.
     */
    ghost predicate Wants(m: Message, op: Op) {
      || (exists ins | ins in OfMessage(m, []) :: OpOf(mappings, ins) == Some(op))
      || WantsSetting(op)
    }

    ghost predicate WantsSetting(op: Op) {
      exists f, c | f in table && c in table[f] ::
        || (table[f][c].enabled != "" && op == Op(Parse(table[f][c].enabled), enabled(f, c)))
        || (table[f][c].namespace != "" && op == Op(Parse(table[f][c].namespace), namespaces(f, c)))
    }

    /** No two of them are at one path, or one above the other, unless they are the same. */
    ghost predicate NoConflict(m: Message) {
      && (forall x | Wants(m, x) :: x.path != [])
      && (forall x, y | Wants(m, x) && Wants(m, y) :: x == y || !(x.path <= y.path || y.path <= x.path))
    }

    /**
     Everything wanted is there: at the path of the enablement its enablement, at that of the namespace the namespace.
     */
    ghost predicate AllThere(m: Message, t: Tree) {
      && (forall f, c | f in table && c in table[f] && table[f][c].enabled != "" ::
            At(t, Keys(Parse(table[f][c].enabled))) == Some(enabled(f, c)))
      && (forall f, c | f in table && c in table[f] && table[f][c].namespace != "" ::
            At(t, Keys(Parse(table[f][c].namespace))) == Some(namespaces(f, c)))
      && (forall ins | ins in OfMessage(m, []) && OpOf(mappings, ins).Some? ::
            At(t, Keys(OpOf(mappings, ins).value.path)) == Some(ins.value))
    }

    /** `ProtoToValues` up to the YAML text: fails if a set failed, and then without result. */
    method ProtoToValues(m: Message) returns (r: Result, ghost leaves: seq<Insertion>, ghost settings: seq<Setting>)
      requires Valid() && AllReadable(OfMessage(m, []))
      ensures multiset(leaves) == OfMessage(m, [])
      ensures r.Values? ==> multiset(settings) == multiset(AllSettings(table))
                            && RunOps(first, EMPTY_MAP, AllOps(leaves, settings)) == Ran(r.tree, [])
      ensures r.Failed? ==> multiset(settings) <= multiset(AllSettings(table))
                            && RunOps(first, EMPTY_MAP, AllOps(leaves, settings)).errors == r.errors != []
      ensures AllConsistent(SomeOrder(m)) ==> r == Values(InsertAll(EMPTY_MAP, SomeOrder(m)))
      ensures NoConflict(m) ==> r.Values? && AllThere(m, r.tree)
    {
      hide RunOps, OpsOf, AllConsistent, SettingsIn, OfMessage, Inserted, Settled, AllOps, SomeOrder, InsertAll,
           NoConflict, AllThere;
      var values := new ValuesTree();
      var errs;
      errs, leaves := InsertMessage(m, values, []);
      ghost var afterLeaves := values.root;
      settings := [];
      if errs != [] {
        r := Failed(errs);
        NoSettingsYet(leaves, values.root, errs);
      } else {
        var err;
        err, settings := SetEnablementAndNamespaces(values);
        SettingsAfterLeaves(leaves, afterLeaves, settings, values.root, AtMostOne(err));
        r := if err.Some? then Failed([err.value]) else Values(values.root);
      }
      NoConflictIsConsistent(m);
      if AllConsistent(SomeOrder(m)) {
        SameInAnyOrder(m, leaves, settings);
      }
      if NoConflict(m) {
        WantedIsThere(m);
      }
    }

    lemma WantedIsSet(m: Message, op: Op)
      requires Valid()
      ensures op in SomeOrder(m) <==> Wants(m, op)
    {
      hide OfMessage, OpOf, OpsOf, SettingsIn, SettingOps, WantsSetting;
      LeavesListed(m, op);
      SettingsListed(op);
    }

    lemma LeavesListed(m: Message, op: Op)
      ensures op in OpsOf(mappings, Listed(OfMessage(m, [])))
              <==> exists ins | ins in OfMessage(m, []) :: OpOf(mappings, ins) == Some(op)
    {
      hide OfMessage, OpOf, OpsOf;
      var leaves := Listed(OfMessage(m, []));
      LeavesSet(leaves, op);
      forall ins
        ensures ins in leaves <==> ins in OfMessage(m, [])
      {
        assert ins in leaves <==> ins in multiset(leaves);
      }
    }

    lemma SettingsListed(op: Op)
      ensures op in SettingOps(Listed(multiset(AllSettings(table)))) <==> WantsSetting(op)
    {
      hide SettingsIn, SettingOps, WantsSetting;
      var settings := Listed(multiset(AllSettings(table)));
      forall x
        ensures x in settings <==> x in AllSettings(table)
      {
        assert x in settings <==> x in multiset(settings);
      }
      SettingsSet(settings, op);
    }

    lemma {:induction false} LeavesSet(leaves: seq<Insertion>, op: Op)
      ensures op in OpsOf(mappings, leaves) <==> exists ins | ins in leaves :: OpOf(mappings, ins) == Some(op)
      decreases |leaves|
    {
      hide OpOf;
      if leaves != [] {
        LeavesSet(leaves[1..], op);
        assert leaves == [leaves[0]] + leaves[1..];
      }
    }

    lemma SettingsSet(settings: seq<Setting>, op: Op)
      requires forall x :: x in settings <==> x in AllSettings(table)
      ensures op in SettingOps(settings) <==> WantsSetting(op)
    {
      hide SettingsIn, Parse;
      if op in SettingOps(settings) {
        var i :| 0 <= i < |settings| && SettingOps(settings)[i] == op;
        assert settings[i] in AllSettings(table);
        SettingListed(settings[i].feature, settings[i].component, settings[i].ofNamespace);
      }
      if f, c :| f in table && c in table[f] && table[f][c].enabled != ""
                 && op == Op(Parse(table[f][c].enabled), enabled(f, c)) {
        SettingListed(f, c, false);
        SettingMade(settings, Setting(f, c, false));
      }
      if f, c :| f in table && c in table[f] && table[f][c].namespace != ""
                 && op == Op(Parse(table[f][c].namespace), namespaces(f, c)) {
        SettingListed(f, c, true);
        SettingMade(settings, Setting(f, c, true));
      }
    }

    lemma SettingListed(f: string, c: string, b: bool)
      ensures Setting(f, c, b) in AllSettings(table)
              <==> f in table && c in table[f] && (if b then table[f][c].namespace else table[f][c].enabled) != ""
    {
      var x := Setting(f, c, b);
      if f in table && c in table[f] && PathOf(table, x) != "" {
        assert x in SettingsOf(table, f, table[f].Keys);
      }
    }

    lemma SettingMade(settings: seq<Setting>, x: Setting)
      requires x in settings
      ensures SettingOp(x) in SettingOps(settings)
    {
      var i :| 0 <= i < |settings| && settings[i] == x;
      assert SettingOps(settings)[i] == SettingOp(x);
    }

    lemma NoConflictIsConsistent(m: Message)
      requires Valid()
      ensures NoConflict(m) <==> AllConsistent(SomeOrder(m))
    {
      hide SomeOrder, Wants;
      forall op
        ensures op in SomeOrder(m) <==> Wants(m, op)
      {
        WantedIsSet(m, op);
      }
    }

    lemma WantedIsThere(m: Message)
      requires Valid() && NoConflict(m) && AllConsistent(SomeOrder(m))
      ensures AllThere(m, InsertAll(EMPTY_MAP, SomeOrder(m)))
    {
      hide SomeOrder, InsertAll, Wants, Parse, OpOf, OfMessage;
      var ops := SomeOrder(m);
      forall op | Wants(m, op)
        ensures At(InsertAll(EMPTY_MAP, ops), Keys(op.path)) == Some(op.value)
      {
        WantedIsSet(m, op);
        var found := InsertAllReads(EMPTY_MAP, ops, op.path);
        assert Consistent(found, op);
      }
      forall f, c | f in table && c in table[f]
        ensures table[f][c].enabled != "" ==> Wants(m, Op(Parse(table[f][c].enabled), enabled(f, c)))
        ensures table[f][c].namespace != "" ==> Wants(m, Op(Parse(table[f][c].namespace), namespaces(f, c)))
      {
        WantsBoth(m, f, c);
      }
      forall ins | ins in OfMessage(m, []) && OpOf(mappings, ins).Some?
        ensures Wants(m, OpOf(mappings, ins).value) && OpOf(mappings, ins).value.value == ins.value
      {
        WantsLeaf(m, ins);
      }
    }

    lemma WantsBoth(m: Message, f: string, c: string)
      requires f in table && c in table[f]
      ensures table[f][c].enabled != "" ==> Wants(m, Op(Parse(table[f][c].enabled), enabled(f, c)))
      ensures table[f][c].namespace != "" ==> Wants(m, Op(Parse(table[f][c].namespace), namespaces(f, c)))
    {
      hide Parse, OpOf, OfMessage;
    }

    lemma WantsLeaf(m: Message, ins: Insertion)
      requires ins in OfMessage(m, []) && OpOf(mappings, ins).Some?
      ensures Wants(m, OpOf(mappings, ins).value) && OpOf(mappings, ins).value.value == ins.value
    {
      hide OfMessage;
    }

    lemma SettingsAfterLeaves(leaves: seq<Insertion>, t: Tree, settings: seq<Setting>, t': Tree, errs: seq<SetError>)
      requires Valid() && Inserted(EMPTY_MAP, leaves, t, []) && Settled(t, settings, t', errs)
      ensures RunOps(first, EMPTY_MAP, AllOps(leaves, settings)) == Ran(t', errs)
    {
      hide RunOps;
      RunOpsAppends(first, EMPTY_MAP, OpsOf(mappings, leaves), SettingOps(settings));
      assert [] + errs == errs;
    }

    lemma NoSettingsYet(leaves: seq<Insertion>, t: Tree, errs: seq<SetError>)
      requires Valid() && Inserted(EMPTY_MAP, leaves, t, errs)
      ensures RunOps(first, EMPTY_MAP, AllOps(leaves, [])) == Ran(t, errs)
    {
      assert AllOps(leaves, []) == OpsOf(mappings, leaves);
    }

    /** If the sets are consistent, those made so far never fail, and all of them give one tree. */
    lemma SameInAnyOrder(m: Message, leaves: seq<Insertion>, settings: seq<Setting>)
      requires Valid() && AllConsistent(SomeOrder(m)) && multiset(leaves) == OfMessage(m, [])
      requires multiset(settings) <= multiset(AllSettings(table))
      ensures RunOps(first, EMPTY_MAP, AllOps(leaves, settings)).errors == []
      ensures multiset(settings) == multiset(AllSettings(table)) ==>
                RunOps(first, EMPTY_MAP, AllOps(leaves, settings)) == Ran(InsertAll(EMPTY_MAP, SomeOrder(m)), [])
    {
      hide RunOps, AllOps, OfMessage, SettingsIn;
      var ops := AllOps(leaves, settings);
      OpsAmong(m, leaves, settings);
      ConsistentIsApart(SomeOrder(m), ops);
      OpsApartInsert(first, EMPTY_MAP, ops);
      if multiset(settings) == multiset(AllSettings(table)) {
        OpsReordered(m, leaves, settings);
        OrderIsImmaterial(EMPTY_MAP, SomeOrder(m), ops);
      }
    }

    lemma ConsistentIsApart(all: seq<Op>, ops: seq<Op>)
      requires AllConsistent(all) && forall op | op in ops :: op in all
      ensures AllConsistent(ops) && AllApart(ops) && AllMapsAlong(EMPTY_MAP, ops)
    {
      forall x, y | x in ops && y in ops
        ensures Consistent(x, y)
      {
        assert x in all && y in all;
      }
    }

    lemma OpsAmong(m: Message, leaves: seq<Insertion>, settings: seq<Setting>)
      requires multiset(leaves) == OfMessage(m, []) && multiset(settings) <= multiset(AllSettings(table))
      ensures forall op | op in AllOps(leaves, settings) :: op in SomeOrder(m)
    {
      hide OfMessage, OpsOf, SettingsIn, SettingOp;
      var all := Listed(multiset(AllSettings(table)));
      OpsOfReordered(mappings, leaves, Listed(OfMessage(m, [])));
      SameMembers(OpsOf(mappings, leaves), OpsOf(mappings, Listed(OfMessage(m, []))));
      forall op | op in SettingOps(settings)
        ensures op in SettingOps(all)
      {
        var i :| 0 <= i < |settings| && SettingOps(settings)[i] == op;
        assert settings[i] in multiset(settings) && settings[i] in multiset(all);
        var j :| 0 <= j < |all| && all[j] == settings[i];
        assert SettingOps(all)[j] == op;
      }
    }

    lemma OpsReordered(m: Message, leaves: seq<Insertion>, settings: seq<Setting>)
      requires multiset(leaves) == OfMessage(m, []) && multiset(settings) == multiset(AllSettings(table))
      ensures multiset(AllOps(leaves, settings)) == multiset(SomeOrder(m))
    {
      var all := Listed(multiset(AllSettings(table)));
      OpsOfReordered(mappings, leaves, Listed(OfMessage(m, [])));
      SettingOpsSum(settings);
      SettingOpsSum(all);
      SumReordered(OpsOfSetting(), settings, all);
    }

    function OpsOfSetting(): Setting -> multiset<Op> {
      (x: Setting) => multiset{SettingOp(x)}
    }

    lemma {:induction false} SettingOpsSum(xs: seq<Setting>)
      ensures multiset(SettingOps(xs)) == Sum(OpsOfSetting(), xs)
      decreases |xs|
    {
      hide SettingOp;
      if xs != [] {
        SettingOpsSum(xs[1..]);
      }
    }
  }
}
