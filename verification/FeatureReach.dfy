/** The worklist that decides whether a crate's default features can switch on the proof-skip feature. */
module FeatureReach {

  type Features = map<string, seq<string>>

  const DEP_PREFIX: string := "dep:"

  const TARGET: string := "test-only-skip-proof-aggregation"

  /** An item names a feature, a dependency (`dep:x`) or a dependency's feature (`x/y`). */
  function Normalized(item: string): string
  {
    if DEP_PREFIX <= item then item[|DEP_PREFIX|..] else item
  }

  predicate EndsWith(s: string, suffix: string)
  {
    |suffix| <= |s| && s[|s| - |suffix|..] == suffix
  }

  predicate Hits(name: string)
  {
    name == TARGET || EndsWith(name, "/" + TARGET)
  }

  /** The mark of a dependency is dropped once, and only at the front; any other item stands for itself. */
  lemma NormalizedForms(name: string, item: string)
    ensures Normalized("dep:" + name) == name
    ensures Normalized(item) == item || item == "dep:" + Normalized(item)
    ensures Normalized(item) != item <==> |item| >= 4 && item[..4] == "dep:"
  {
    assert ("dep:" + name)[4..] == name;
    if DEP_PREFIX <= item {
      assert item == item[..4] + item[4..];
      assert |item[4..]| != |item|;
    }
  }

  /** The target is hit by its own name and as a feature of some dependency, and by nothing else. */
  lemma HitForms(name: string)
    ensures Hits("test-only-skip-proof-aggregation")
    ensures Hits(name + "/test-only-skip-proof-aggregation")
    ensures Hits(name) && name != "test-only-skip-proof-aggregation" ==>
              exists dependency :: name == dependency + "/test-only-skip-proof-aggregation"
  {
    var suffix := "/" + TARGET;
    assert suffix == "/test-only-skip-proof-aggregation";
    assert (name + suffix)[|name|..] == suffix;
    assert EndsWith(name + suffix, suffix);
    if EndsWith(name, suffix) {
      assert name == name[..|name| - |suffix|] + suffix;
    }
  }

  function Listed(features: Features, name: string): seq<string>
  {
    if name in features then features[name] else []
  }

  // ---------- reachability ----------

  predicate Names(items: seq<string>, name: string)
  {
    exists i :: 0 <= i < |items| && Normalized(items[i]) == name
  }

  /** A chain of names, the first among the default features, each listed by the one before it. */
  predicate IsPath(features: Features, path: seq<string>)
  {
    && path != []
    && Names(Listed(features, "default"), path[0])
    && forall i :: 0 <= i < |path| - 1 ==> Names(Listed(features, path[i]), path[i + 1])
  }

  ghost predicate Reachable(features: Features, name: string)
  {
    exists path :: IsPath(features, path) && path[|path| - 1] == name
  }

  lemma ReachableStart(features: Features, item: string)
    requires item in Listed(features, "default")
    ensures Reachable(features, Normalized(item))
  {
    var i :| 0 <= i < |Listed(features, "default")| && Listed(features, "default")[i] == item;
    var path := [Normalized(item)];
    assert IsPath(features, path);
  }

  lemma ReachableNext(features: Features, name: string, item: string)
    requires Reachable(features, name) && item in Listed(features, name)
    ensures Reachable(features, Normalized(item))
  {
    hide Normalized;
    var path :| IsPath(features, path) && path[|path| - 1] == name;
    var i :| 0 <= i < |Listed(features, name)| && Listed(features, name)[i] == item;
    var longer := path + [Normalized(item)];
    assert Names(Listed(features, name), Normalized(item));
    forall j | 0 <= j < |longer| - 1 ensures Names(Listed(features, longer[j]), longer[j + 1]) {
      if j < |path| - 1 {
        assert Names(Listed(features, path[j]), path[j + 1]);
      }
    }
    assert IsPath(features, longer);
  }

  /** Everything the search has finished with is reachable, harmless, and has its successors found or waiting. */
  ghost predicate Explored(features: Features, pending: seq<string>, visited: set<string>)
  {
    && (forall item :: item in pending ==> Reachable(features, Normalized(item)))
    && (forall item :: item in Listed(features, "default") ==> Normalized(item) in visited || item in pending)
    && (forall name :: name in visited ==> !Hits(name))
    && forall name, item :: name in visited && item in Listed(features, name) ==>
         Normalized(item) in visited || item in pending
  }

  /** A search that ran dry has seen every reachable name. */
  lemma {:induction false} DrySearchSawAll(features: Features, visited: set<string>, path: seq<string>)
    requires Explored(features, [], visited) && IsPath(features, path)
    ensures path[|path| - 1] in visited
    decreases |path|
  {
    hide Hits;
    hide Normalized;
    hide Reachable;
    var n := |path| - 1;
    if n == 0 {
      var i :| 0 <= i < |Listed(features, "default")| && Normalized(Listed(features, "default")[i]) == path[0];
    } else {
      var front := path[..n];
      assert IsPath(features, front) by {
        forall i | 0 <= i < |front| - 1 ensures Names(Listed(features, front[i]), front[i + 1]) {
          assert Names(Listed(features, path[i]), path[i + 1]);
        }
      }
      DrySearchSawAll(features, visited, front);
      assert Names(Listed(features, path[n - 1]), path[n]);
      var i :| 0 <= i < |Listed(features, path[n - 1])| && Normalized(Listed(features, path[n - 1])[i]) == path[n];
    }
  }

  /** True exactly when some name that stands for the target is reachable from the default features. */
  method ReachesTarget(features: Features) returns (reaches: bool)
    ensures reaches <==> exists path :: IsPath(features, path) && Hits(path[|path| - 1])
  {
    hide Hits;
    hide Normalized;
    hide Reachable;
    hide IsPath;
    hide Explored;
    var pending := Listed(features, "default");
    var visited: set<string> := {};
    StartExplored(features);
    while pending != []
      invariant Explored(features, pending, visited)
      decreases |features.Keys - visited|, |pending|
    {
      var item := pending[|pending| - 1];
      ghost var before := pending;
      pending := pending[..|pending| - 1];
      var normalized := Normalized(item);
      if Hits(normalized) {
        WaitingIsReachable(features, before, visited, item);
        HitIsReached(features, normalized);
        return true;
      }
      if normalized in visited {
        SkipVisited(features, before, visited);
        continue;
      }
      Visit(features, before, visited);
      Shrinks(features, visited, normalized);
      visited := visited + {normalized};
      pending := pending + Listed(features, normalized);
    }
    NoHitSeen(features, visited);
    return false;
  }

  // ---------- the steps of the search ----------

  lemma StartExplored(features: Features)
    ensures Explored(features, Listed(features, "default"), {})
  {
    forall item | item in Listed(features, "default") ensures Reachable(features, Normalized(item)) {
      ReachableStart(features, item);
    }
  }

  lemma WaitingIsReachable(features: Features, pending: seq<string>, visited: set<string>, item: string)
    requires Explored(features, pending, visited) && item in pending
    ensures Reachable(features, Normalized(item))
  {
    hide Hits;
  }

  lemma HitIsReached(features: Features, name: string)
    requires Reachable(features, name) && Hits(name)
    ensures exists path :: IsPath(features, path) && Hits(path[|path| - 1])
  {
    hide Hits;
    var path :| IsPath(features, path) && path[|path| - 1] == name;
  }

  lemma PoppedMembers(pending: seq<string>)
    requires pending != []
    ensures forall item :: item in pending <==> item in pending[..|pending| - 1] || item == pending[|pending| - 1]
  {
    assert pending == pending[..|pending| - 1] + [pending[|pending| - 1]];
  }

  lemma SkipVisited(features: Features, pending: seq<string>, visited: set<string>)
    requires pending != [] && Explored(features, pending, visited)
    requires Normalized(pending[|pending| - 1]) in visited
    ensures Explored(features, pending[..|pending| - 1], visited)
  {
    hide Hits;
    hide Normalized;
    hide Reachable;
    PoppedMembers(pending);
  }

  lemma Visit(features: Features, pending: seq<string>, visited: set<string>)
    requires pending != [] && Explored(features, pending, visited)
    requires !Hits(Normalized(pending[|pending| - 1]))
    ensures var name := Normalized(pending[|pending| - 1]);
            Explored(features, pending[..|pending| - 1] + Listed(features, name), visited + {name})
  {
    hide Hits;
    hide Normalized;
    hide Reachable;
    PoppedMembers(pending);
    var last := pending[|pending| - 1];
    var name := Normalized(last);
    var more := pending[..|pending| - 1] + Listed(features, name);
    forall item | item in more ensures Reachable(features, Normalized(item)) {
      if item in Listed(features, name) {
        assert last in pending;
        ReachableNext(features, name, item);
      } else {
        assert item in pending[..|pending| - 1];
      }
    }
    assert forall item :: item in pending[..|pending| - 1] ==> item in more;
    assert forall item :: item in Listed(features, name) ==> item in more;
  }

  lemma Shrinks(features: Features, visited: set<string>, name: string)
    requires name !in visited
    ensures name in features ==> |features.Keys - (visited + {name})| < |features.Keys - visited|
    ensures name !in features ==> features.Keys - (visited + {name}) == features.Keys - visited
  {
    if name in features {
      assert features.Keys - visited == features.Keys - (visited + {name}) + {name};
    }
  }

  lemma NoHitSeen(features: Features, visited: set<string>)
    requires Explored(features, [], visited)
    ensures !exists path :: IsPath(features, path) && Hits(path[|path| - 1])
  {
    hide Hits;
    forall path | IsPath(features, path) ensures !Hits(path[|path| - 1]) {
      DrySearchSawAll(features, visited, path);
    }
  }
}
