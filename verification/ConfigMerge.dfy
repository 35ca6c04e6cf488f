/**
  The deep merge of a deployment override onto the committed defaults
  (`merge_raw_defaults`, crates/server/src/bootstrap.rs). Tables merge
  recursively; every other value, arrays included, is a leaf and replaces.
*/
module ConfigMerge {
  import opened Wrappers

  datatype Leaf = Str(text: string) | Int(n: int) | Bool(b: bool) | Other(rendered: string) | Array(items: seq<Toml>)

  datatype Toml = Value(leaf: Leaf) | Table(entries: map<string, Toml>)

  type Path = seq<string>

  function Merged(base: Toml, over: Toml): Toml
    decreases over
  {
    if base.Table? && over.Table? then
      Table(map k | k in base.entries.Keys + over.entries.Keys ::
              if k !in over.entries then base.entries[k]
              else if k !in base.entries then over.entries[k]
              else Merged(base.entries[k], over.entries[k]))
    else over
  }

  /** The override entries outside `todo` have been merged in, the rest is still the base. */
  ghost predicate PartlyMerged(base: Toml, over: Toml, entries: map<string, Toml>, todo: set<string>)
    requires base.Table? && over.Table? && todo <= over.entries.Keys
  {
    && entries.Keys == base.entries.Keys + (over.entries.Keys - todo)
    && (forall k | k in over.entries.Keys - todo :: entries[k] == Merged(base, over).entries[k])
    && (forall k | k in base.entries.Keys - (over.entries.Keys - todo) :: entries[k] == base.entries[k])
  }

  lemma OneMoreMerged(base: Toml, over: Toml, entries: map<string, Toml>, todo: set<string>, k: string)
    requires base.Table? && over.Table? && todo <= over.entries.Keys && PartlyMerged(base, over, entries, todo) && k in todo
    ensures var value := if k in entries then Merged(entries[k], over.entries[k]) else over.entries[k];
            PartlyMerged(base, over, entries[k := value], todo - {k})
  {
    assert k in entries <==> k in base.entries;
  }

  lemma AllMerged(base: Toml, over: Toml, entries: map<string, Toml>)
    requires base.Table? && over.Table? && PartlyMerged(base, over, entries, {})
    ensures Table(entries) == Merged(base, over)
  {
    assert entries == Merged(base, over).entries;
  }

  /** The in-place recursion, one override entry at a time in any order. */
  method MergeRawDefaults(base: Toml, over: Toml) returns (r: Toml)
    ensures r == Merged(base, over)
    decreases over
  {
    if !(base.Table? && over.Table?) {
      return over;
    }
    var entries, todo := base.entries, over.entries.Keys;
    while todo != {}
      invariant todo <= over.entries.Keys
      invariant PartlyMerged(base, over, entries, todo)
      decreases |todo|
    {
      var k :| k in todo;
      OneMoreMerged(base, over, entries, todo, k);
      hide PartlyMerged, Merged;
      var value := over.entries[k];
      if k in entries {
        value := MergeRawDefaults(entries[k], over.entries[k]);
      }
      entries := entries[k := value];
      todo := todo - {k};
    }
    AllMerged(base, over, entries);
    r := Table(entries);
  }

  // ---- What the merged tree holds at each path ----

  function At(v: Toml, path: Path): Option<Toml>
    decreases |path|
  {
    if path == [] then Some(v)
    else if v.Table? && path[0] in v.entries then At(v.entries[path[0]], path[1..])
    else None
  }

  /** The override says nothing about this path: it is a table all the way and the next key is missing. */
  predicate Untouched(over: Toml, path: Path)
    decreases |path|
  {
    over.Table? && path != [] && (path[0] !in over.entries || Untouched(over.entries[path[0]], path[1..]))
  }

  /** A leaf is in the merge exactly when the override put it there, or it is a default the override does not touch. */
  lemma {:induction false} LeafOfMerge(base: Toml, over: Toml, path: Path, leaf: Leaf)
    ensures At(Merged(base, over), path) == Some(Value(leaf))
            <==> At(over, path) == Some(Value(leaf)) || (At(base, path) == Some(Value(leaf)) && Untouched(over, path))
    decreases |path|
  {
    if path != [] && base.Table? && over.Table? && path[0] in base.entries && path[0] in over.entries {
      LeafOfMerge(base.entries[path[0]], over.entries[path[0]], path[1..], leaf);
    }
  }

  lemma {:induction false} OverrideWins(base: Toml, over: Toml, path: Path)
    requires At(over, path).Some? && At(over, path).value.Value?
    ensures At(Merged(base, over), path) == At(over, path)
  {
    LeafOfMerge(base, over, path, At(over, path).value.leaf);
  }

  // ---- Algebra ----

  lemma {:induction false} MergeIdempotent(v: Toml)
    ensures Merged(v, v) == v
    decreases v
  {
    if v.Table? {
      forall k | k in v.entries ensures Merged(v.entries[k], v.entries[k]) == v.entries[k] {
        MergeIdempotent(v.entries[k]);
      }
      assert Merged(v, v).entries == v.entries;
    }
  }

  /** Every path of `inner` that meets `outer` in tables is defined by `outer`. */
  predicate Covers(outer: Toml, inner: Toml)
    decreases inner
  {
    outer.Value? || inner.Value?
    || forall k | k in inner.entries :: k in outer.entries && Covers(outer.entries[k], inner.entries[k])
  }

  /** Merging onto `base` leaves the override unchanged exactly when it covers `base`. */
  lemma {:induction false} AbsorbsIffCovers(base: Toml, over: Toml)
    ensures Merged(base, over) == over <==> Covers(over, base)
    decreases base
  {
    if base.Table? && over.Table? {
      var m := Merged(base, over);
      forall k | k in base.entries && k in over.entries
        ensures Merged(base.entries[k], over.entries[k]) == over.entries[k] <==> Covers(over.entries[k], base.entries[k])
      {
        AbsorbsIffCovers(base.entries[k], over.entries[k]);
      }
      if Covers(over, base) {
        assert m.entries == over.entries;
      } else if m == over {
        forall k | k in base.entries ensures k in over.entries && Covers(over.entries[k], base.entries[k]) {
          assert k in m.entries;
        }
      }
    }
  }

  /** Applying the same override twice equals applying it once. */
  lemma {:induction false} OverrideTwice(base: Toml, over: Toml)
    ensures Merged(Merged(base, over), over) == Merged(base, over)
    decreases over
  {
    if base.Table? && over.Table? {
      var once := Merged(base, over);
      var twice := Merged(once, over);
      forall k | k in over.entries ensures twice.entries[k] == once.entries[k] {
        if k in base.entries {
          OverrideTwice(base.entries[k], over.entries[k]);
        } else {
          MergeIdempotent(over.entries[k]);
        }
      }
      assert twice.entries == once.entries;
    } else {
      MergeIdempotent(over);
    }
  }

  /**
    Where a leaf of the middle layer separates two tables, the last must cover
    the first; elsewhere there is no condition.
  */
  predicate Associates(a: Toml, b: Toml, c: Toml)
    decreases c
  {
    if a.Value? || c.Value? then true
    else if b.Value? then Covers(c, a)
    else forall k | k in a.entries && k in b.entries && k in c.entries :: Associates(a.entries[k], b.entries[k], c.entries[k])
  }

  lemma AssociativeAtKey(a: Toml, b: Toml, c: Toml, k: string)
    requires a.Table? && b.Table? && c.Table?
    ensures k in Merged(a, Merged(b, c)).entries <==> k in Merged(Merged(a, b), c).entries
    ensures k in Merged(a, Merged(b, c)).entries && !(k in a.entries && k in b.entries && k in c.entries) ==>
              Merged(a, Merged(b, c)).entries[k] == Merged(Merged(a, b), c).entries[k]
    ensures k in a.entries && k in b.entries && k in c.entries ==>
              && Merged(a, Merged(b, c)).entries[k] == Merged(a.entries[k], Merged(b.entries[k], c.entries[k]))
              && Merged(Merged(a, b), c).entries[k] == Merged(Merged(a.entries[k], b.entries[k]), c.entries[k])
  {
  }

  /** Three layers may be merged in either grouping exactly under that condition. */
  lemma {:induction false} AssociativeIff(a: Toml, b: Toml, c: Toml)
    ensures Merged(a, Merged(b, c)) == Merged(Merged(a, b), c) <==> Associates(a, b, c)
    decreases c
  {
    if c.Table? && b.Value? && a.Table? {
      AbsorbsIffCovers(a, c);
    } else if a.Table? && b.Table? && c.Table? {
      var left, right := Merged(a, Merged(b, c)), Merged(Merged(a, b), c);
      forall k ensures k in left.entries <==> k in right.entries {
        AssociativeAtKey(a, b, c, k);
      }
      forall k | k in left.entries
        ensures left.entries[k] == right.entries[k] <==>
                (k in a.entries && k in b.entries && k in c.entries ==> Associates(a.entries[k], b.entries[k], c.entries[k]))
      {
        AssociativeAtKey(a, b, c, k);
        if k in a.entries && k in b.entries && k in c.entries {
          AssociativeIff(a.entries[k], b.entries[k], c.entries[k]);
        }
      }
      if Associates(a, b, c) {
        assert left.entries == right.entries;
      } else {
        var k :| k in a.entries && k in b.entries && k in c.entries && !Associates(a.entries[k], b.entries[k], c.entries[k]);
        assert k in left.entries by { AssociativeAtKey(a, b, c, k); }
        assert left.entries[k] != right.entries[k];
      }
    }
  }

  /** Both layers hold a table, or both a leaf, wherever both are defined. */
  predicate AgreeOnTables(a: Toml, b: Toml)
    decreases a
  {
    if a.Table? && b.Table? then
      forall k | k in a.entries && k in b.entries :: AgreeOnTables(a.entries[k], b.entries[k])
    else a.Value? && b.Value?
  }

  /** Layers that agree pairwise on which paths are tables satisfy it. */
  lemma {:induction false} AgreeingLayersAssociate(a: Toml, b: Toml, c: Toml)
    requires AgreeOnTables(a, b) && AgreeOnTables(b, c)
    ensures Merged(a, Merged(b, c)) == Merged(Merged(a, b), c)
  {
    AgreementSuffices(a, b, c);
    AssociativeIff(a, b, c);
  }

  lemma {:induction false} AgreementSuffices(a: Toml, b: Toml, c: Toml)
    requires AgreeOnTables(a, b) && AgreeOnTables(b, c)
    ensures Associates(a, b, c)
    decreases c
  {
    if a.Table? && b.Table? && c.Table? {
      forall k | k in a.entries && k in b.entries && k in c.entries
        ensures Associates(a.entries[k], b.entries[k], c.entries[k])
      {
        AgreementSuffices(a.entries[k], b.entries[k], c.entries[k]);
      }
    }
  }

  /** A leaf between two tables: the grouping decides whether the first table's key survives. */
  lemma AssociativityExample()
    ensures var a, b, c := Table(map["x" := Value(Int(1))]), Value(Int(0)), Table(map["y" := Value(Int(2))]);
            Merged(a, Merged(b, c)) != Merged(Merged(a, b), c)
  {
    var a, b, c := Table(map["x" := Value(Int(1))]), Value(Int(0)), Table(map["y" := Value(Int(2))]);
    AssociativeIff(a, b, c);
    assert "x" in a.entries && "x" !in c.entries;
  }
}
