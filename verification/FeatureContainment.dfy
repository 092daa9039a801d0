/** Which dependencies of a Cargo manifest switch the proof-skip feature on by name. */
module FeatureContainment {
  import opened Bytes
  import FeatureReach

  /** A parsed manifest; the keys of a table are in file order. */
  datatype Toml =
    | Table(entries: seq<(string, Toml)>)
    | Array(items: seq<Toml>)
    | Text(text: string)
    | Plain

  /** No table, at any depth, has a key twice; a parser refuses such a file. */
  predicate WellFormed(t: Toml)
  {
    t.Table? ==>
      && (forall i, j :: 0 <= i < j < |t.entries| ==> t.entries[i].0 != t.entries[j].0)
      && (forall i :: 0 <= i < |t.entries| ==> WellFormed(t.entries[i].1))
  }

  function IndexOf(t: Toml, key: string): (r: Option<nat>)
    requires t.Table?
    ensures r.Some? ==> r.value < |t.entries| && t.entries[r.value].0 == key
    ensures r.None? ==> forall i :: 0 <= i < |t.entries| ==> t.entries[i].0 != key
  {
    IndexBelow(t, key, |t.entries|)
  }

  function IndexBelow(t: Toml, key: string, n: nat): (r: Option<nat>)
    requires t.Table? && n <= |t.entries|
    ensures r.Some? ==> r.value < n && t.entries[r.value].0 == key
    ensures r.None? ==> forall i :: 0 <= i < n ==> t.entries[i].0 != key
  {
    if n == 0 then None
    else if t.entries[n - 1].0 == key then Some(n - 1)
    else IndexBelow(t, key, n - 1)
  }

  function Get(t: Toml, key: string): Option<Toml>
  {
    if !t.Table? then None
    else match IndexOf(t, key)
      case None => None
      case Some(i) => Some(t.entries[i].1)
  }

  /** The value behind a key, if it is a table. */
  function Subtable(t: Toml, key: string): seq<Toml>
  {
    match Get(t, key)
    case Some(Table(entries)) => [Table(entries)]
    case _ => []
  }

  function OwnTables(data: Toml): seq<Toml>
  {
    Subtable(data, "dependencies") + Subtable(data, "dev-dependencies") + Subtable(data, "build-dependencies") +
    match Get(data, "workspace")
    case Some(workspace) => Subtable(workspace, "dependencies")
    case None => []
  }

  function TablesOf(data: Toml): seq<Toml>
    decreases data, 0
  {
    OwnTables(data) +
    if !data.Table? then []
    else match IndexOf(data, "target")
      case None => []
      case Some(i) =>
        var targets := data.entries[i].1;
        if targets.Table? then TargetTables(targets, |targets.entries|) else []
  }

  /** The tables of the first `n` targets. */
  function TargetTables(targets: Toml, n: nat): seq<Toml>
    requires targets.Table? && n <= |targets.entries|
    decreases targets, n
  {
    if n == 0 then []
    else TargetTables(targets, n - 1) +
         var target := targets.entries[n - 1].1;
         if target.Table? then TablesOf(target) else []
  }

  method DependencyTables(data: Toml) returns (tables: seq<Toml>)
    ensures tables == TablesOf(data)
    decreases data
  {
    hide TablesOf;
    hide TargetTables;
    hide Subtable;
    hide Get;
    hide IndexBelow;
    var keys := ["dependencies", "dev-dependencies", "build-dependencies"];
    tables := [];
    var k := 0;
    while k < |keys|
      invariant 0 <= k <= 3
      invariant tables == (if k > 0 then Subtable(data, keys[0]) else []) +
                          (if k > 1 then Subtable(data, keys[1]) else []) +
                          (if k > 2 then Subtable(data, keys[2]) else [])
    {
      tables := tables + Subtable(data, keys[k]);
      k := k + 1;
    }
    var workspace := Get(data, "workspace");
    if workspace.Some? {
      tables := tables + Subtable(workspace.value, "dependencies");
    }
    assert tables == OwnTables(data);
    TablesUnfolded(data);
    if data.Table? {
      var i := IndexOf(data, "target");
      if i.Some? && data.entries[i.value].1.Table? {
        var targets := data.entries[i.value].1;
        k := 0;
        TargetsUnfolded(targets, 0);
        while k < |targets.entries|
          invariant 0 <= k <= |targets.entries|
          invariant tables == OwnTables(data) + TargetTables(targets, k)
        {
          var target := targets.entries[k].1;
          TargetsUnfolded(targets, k + 1);
          if target.Table? {
            var nested := DependencyTables(target);
            tables := tables + nested;
          }
          k := k + 1;
        }
      }
    }
  }

  lemma TablesUnfolded(data: Toml)
    ensures (data.Table? && IndexOf(data, "target").Some? ==> !data.entries[IndexOf(data, "target").value].1.Table?) ==>
              TablesOf(data) == OwnTables(data)
    ensures data.Table? && IndexOf(data, "target").Some? ==>
              var targets := data.entries[IndexOf(data, "target").value].1;
              targets.Table? ==> TablesOf(data) == OwnTables(data) + TargetTables(targets, |targets.entries|)
  {
    hide OwnTables;
    hide IndexBelow;
  }

  lemma TargetsUnfolded(targets: Toml, n: nat)
    requires targets.Table? && n <= |targets.entries|
    ensures n == 0 ==> TargetTables(targets, n) == []
    ensures n > 0 ==>
              var target := targets.entries[n - 1].1;
              TargetTables(targets, n) == TargetTables(targets, n - 1) + if target.Table? then TablesOf(target) else []
  {
    hide TablesOf;
  }

  // ---------- where dependency tables are ----------

  predicate OwnPath(path: seq<string>)
  {
    path == ["dependencies"] || path == ["dev-dependencies"] || path == ["build-dependencies"] ||
    path == ["workspace", "dependencies"]
  }

  /** `target.<platform>`, any number of times, and then one of the four places. */
  predicate TablePath(path: seq<string>)
  {
    OwnPath(path) || (|path| > 2 && path[0] == "target" && TablePath(path[2..]))
  }

  function Follow(t: Toml, path: seq<string>): Option<Toml>
    decreases |path|
  {
    if path == [] then Some(t)
    else match Get(t, path[0])
      case None => None
      case Some(child) => Follow(child, path[1..])
  }

  ghost predicate IsDependencyTable(data: Toml, table: Toml)
  {
    table.Table? && exists path :: TablePath(path) && Follow(data, path) == Some(table)
  }

  lemma FollowOne(t: Toml, key: string)
    ensures Follow(t, [key]) == Get(t, key)
    ensures forall table :: table in Subtable(t, key) <==> table.Table? && Get(t, key) == Some(table)
  {
    if Get(t, key).Some? {
      assert Follow(Get(t, key).value, []) == Get(t, key);
    }
  }

  lemma FollowTwo(t: Toml, first: string, rest: seq<string>)
    ensures Follow(t, [first] + rest) == match Get(t, first) case None => None case Some(child) => Follow(child, rest)
  {
    assert ([first] + rest)[1..] == rest;
  }

  lemma OwnTablesFound(data: Toml, table: Toml)
    ensures table in OwnTables(data) <==>
            table.Table? && exists path :: OwnPath(path) && Follow(data, path) == Some(table)
  {
    hide Follow;
    hide Subtable;
    hide Get;
    FollowOne(data, "dependencies");
    FollowOne(data, "dev-dependencies");
    FollowOne(data, "build-dependencies");
    FollowTwo(data, "workspace", ["dependencies"]);
    assert ["workspace"] + ["dependencies"] == ["workspace", "dependencies"];
    assert OwnPath(["dependencies"]) && OwnPath(["dev-dependencies"]) && OwnPath(["build-dependencies"]);
    assert OwnPath(["workspace", "dependencies"]);
    if Get(data, "workspace").Some? {
      FollowOne(Get(data, "workspace").value, "dependencies");
    }
  }

  lemma GetEntry(t: Toml, i: nat)
    requires t.Table? && WellFormed(t) && i < |t.entries|
    ensures Get(t, t.entries[i].0) == Some(t.entries[i].1)
  {
    var j := IndexOf(t, t.entries[i].0);
    assert j.Some?;
  }

  lemma {:induction false} TargetTablesFound(targets: Toml, n: nat, table: Toml)
    requires targets.Table? && n <= |targets.entries|
    ensures table in TargetTables(targets, n) <==>
            exists i :: 0 <= i < n && targets.entries[i].1.Table? && table in TablesOf(targets.entries[i].1)
  {
    hide TablesOf;
    hide TargetTables;
    TargetsUnfolded(targets, n);
    if n > 0 {
      TargetTablesFound(targets, n - 1, table);
      if exists i :: 0 <= i < n - 1 && targets.entries[i].1.Table? && table in TablesOf(targets.entries[i].1) {
        assert table in TargetTables(targets, n);
      }
    }
  }

  /** The tables of one target, seen from the whole manifest. */
  lemma TargetPath(data: Toml, i: nat, k: nat, path: seq<string>)
    requires data.Table? && WellFormed(data) && i < |data.entries| && data.entries[i].0 == "target"
    requires data.entries[i].1.Table? && k < |data.entries[i].1.entries|
    ensures var targets := data.entries[i].1;
            Follow(data, ["target", targets.entries[k].0] + path) == Follow(targets.entries[k].1, path)
  {
    var targets := data.entries[i].1;
    var key := targets.entries[k].0;
    GetEntry(data, i);
    GetEntry(targets, k);
    FollowTwo(data, "target", [key] + path);
    FollowTwo(targets, key, path);
    assert ["target", key] + path == ["target"] + ([key] + path);
  }

  lemma TargetPathSplits(data: Toml, path: seq<string>, table: Toml)
    requires TablePath(path) && !OwnPath(path) && Follow(data, path) == Some(table)
    ensures data.Table? && IndexOf(data, "target").Some?
    ensures var targets := data.entries[IndexOf(data, "target").value].1;
            targets.Table? && exists k :: 0 <= k < |targets.entries| && targets.entries[k].1.Table? &&
                                    TablePath(path[2..]) && Follow(targets.entries[k].1, path[2..]) == Some(table)
  {
    hide IndexBelow;
    var targets := Get(data, "target").value;
    assert Follow(targets, path[1..]) == Some(table);
    var k := IndexOf(targets, path[1]).value;
    assert path[1..][1..] == path[2..];
    assert Follow(targets.entries[k].1, path[2..]) == Some(table);
  }

  /** The tables that are looked at are exactly those a dependency path of the manifest leads to. */
  lemma {:induction false} TablesFound(data: Toml, table: Toml)
    requires WellFormed(data)
    ensures table in TablesOf(data) <==> IsDependencyTable(data, table)
    decreases data
  {
    hide TablesOf;
    hide TargetTables;
    hide IndexBelow;
    hide OwnTables;
    hide OwnPath;
    hide Follow;
    TablesUnfolded(data);
    OwnTablesFound(data, table);
    OwnPathsCount(data, table);
    if data.Table? && IndexOf(data, "target").Some? && data.entries[IndexOf(data, "target").value].1.Table? {
      var i := IndexOf(data, "target").value;
      var targets := data.entries[i].1;
      TargetTablesFound(targets, |targets.entries|, table);
      forall k | 0 <= k < |targets.entries| && targets.entries[k].1.Table?
        ensures table in TablesOf(targets.entries[k].1) ==> IsDependencyTable(data, table)
        ensures IsDependencyTable(targets.entries[k].1, table) ==> table in TablesOf(targets.entries[k].1)
      {
        TablesFound(targets.entries[k].1, table);
        if IsDependencyTable(targets.entries[k].1, table) {
          LiftTarget(data, i, k, table);
        }
      }
    }
    if IsDependencyTable(data, table) {
      var path :| TablePath(path) && Follow(data, path) == Some(table);
      if !OwnPath(path) {
        TargetPathSplits(data, path, table);
      }
    }
  }

  lemma OwnPathsCount(data: Toml, table: Toml)
    ensures table.Table? && (exists path :: OwnPath(path) && Follow(data, path) == Some(table)) ==>
              IsDependencyTable(data, table)
  {
    hide OwnPath;
    hide Follow;
  }

  lemma LiftTarget(data: Toml, i: nat, k: nat, table: Toml)
    requires data.Table? && WellFormed(data) && i < |data.entries| && data.entries[i].0 == "target"
    requires data.entries[i].1.Table? && k < |data.entries[i].1.entries|
    requires IsDependencyTable(data.entries[i].1.entries[k].1, table)
    ensures IsDependencyTable(data, table)
  {
    hide Follow;
    hide OwnPath;
    var targets := data.entries[i].1;
    var path :| TablePath(path) && Follow(targets.entries[k].1, path) == Some(table);
    TargetPath(data, i, k, path);
    var longer := ["target", targets.entries[k].0] + path;
    assert longer[2..] == path;
    PathNotEmpty(path);
    assert TablePath(longer);
  }

  lemma PathNotEmpty(path: seq<string>)
    requires TablePath(path)
    ensures path != []
  {
  }

  // ---------- the verdict ----------

  /** A dependency that lists the feature by its plain name. */
  predicate Lists(dependency: Toml)
  {
    match Get(dependency, "features")
    case Some(Array(items)) => Text(FeatureReach.TARGET) in items
    case _ => false
  }

  /** That is: its `features` are an array with the plain name among the items. */
  lemma ListsPlainName(dependency: Toml)
    requires WellFormed(dependency)
    ensures Lists(dependency) <==>
            dependency.Table? &&
            exists i, items :: 0 <= i < |dependency.entries| && dependency.entries[i] == ("features", Array(items)) &&
                               Text("test-only-skip-proof-aggregation") in items
  {
    if dependency.Table? {
      forall i | 0 <= i < |dependency.entries| && dependency.entries[i].0 == "features"
        ensures Get(dependency, "features") == Some(dependency.entries[i].1)
      {
        GetEntry(dependency, i);
      }
    }
  }

  predicate SomeLists(table: Toml, n: nat)
    requires table.Table? && n <= |table.entries|
  {
    exists i :: 0 <= i < n && Lists(table.entries[i].1)
  }

  ghost predicate Enables(data: Toml)
  {
    exists path, table ::
      TablePath(path) && Follow(data, path) == Some(Table(table)) && SomeLists(Table(table), |table|)
  }

  lemma AllTables(data: Toml)
    ensures forall table :: table in TablesOf(data) ==> table.Table?
    decreases data
  {
    hide TablesOf;
    hide TargetTables;
    TablesUnfolded(data);
    if data.Table? && IndexOf(data, "target").Some? && data.entries[IndexOf(data, "target").value].1.Table? {
      var targets := data.entries[IndexOf(data, "target").value].1;
      forall table | table in TargetTables(targets, |targets.entries|) ensures table.Table? {
        TargetTablesFound(targets, |targets.entries|, table);
        var i :| 0 <= i < |targets.entries| && targets.entries[i].1.Table? && table in TablesOf(targets.entries[i].1);
        AllTables(targets.entries[i].1);
      }
    }
  }

  lemma NoneEnables(data: Toml, tables: seq<Toml>)
    requires forall table :: table in tables <==> IsDependencyTable(data, table)
    requires forall i :: 0 <= i < |tables| ==> tables[i].Table? && !SomeLists(tables[i], |tables[i].entries|)
    ensures !Enables(data)
  {
    hide TablePath;
    hide Follow;
    hide SomeLists;
    forall path, table | TablePath(path) && Follow(data, path) == Some(Table(table))
      ensures !SomeLists(Table(table), |table|)
    {
      assert IsDependencyTable(data, Table(table));
      assert Table(table) in tables;
    }
  }

  /** True exactly when some dependency in some dependency table of the manifest lists the feature. */
  method EnabledOnDependency(data: Toml) returns (enabled: bool)
    requires WellFormed(data)
    ensures enabled <==> Enables(data)
  {
    hide TablesOf;
    hide TablePath;
    hide Follow;
    hide Lists;
    hide WellFormed;
    var tables := DependencyTables(data);
    AllTables(data);
    forall table ensures table in tables <==> IsDependencyTable(data, table) {
      TablesFound(data, table);
    }
    var t := 0;
    while t < |tables|
      invariant 0 <= t <= |tables|
      invariant forall i :: 0 <= i < t ==> !SomeLists(tables[i], |tables[i].entries|)
    {
      assert tables[t] in tables;
      var entries := tables[t].entries;
      var d := 0;
      while d < |entries|
        invariant 0 <= d <= |entries| && !SomeLists(tables[t], d)
      {
        var dependency := entries[d].1;
        if Lists(dependency) {
          assert SomeLists(Table(entries), |entries|);
          return true;
        }
        d := d + 1;
      }
      t := t + 1;
    }
    NoneEnables(data, tables);
    return false;
  }
}
