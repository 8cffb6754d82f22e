/**
 * The dimension catalog: for every dimension (gender, age band, ...) the
 * count range of each of its categories. Both levels are dictionaries that
 * keep the insertion order of their keys; a dictionary is modelled as a map
 * together with the sequence of its keys in insertion order.
 */
module Catalog {

  import opened Wrappers
  import opened Seqs

  /** The admissible number of selected persons for one category. */
  datatype CategoryRanges = CategoryRanges(name: string, min: int, max: int)

  /** A read-only view of one dimension: its name and its ranges in order. */
  datatype DimensionEntry = DimensionEntry(name: string, ranges: seq<CategoryRanges>)

  /** The values of `items` at the keys `ks`, in the order of `ks`. */
  function Lookup(items: map<string, CategoryRanges>, ks: seq<string>): (r: seq<CategoryRanges>)
    requires forall k :: k in ks ==> k in items
    ensures |r| == |ks|
    ensures forall i :: 0 <= i < |ks| ==> r[i] == items[ks[i]]
  {
    if ks == [] then [] else [items[ks[0]]] + Lookup(items, ks[1..])
  }

  class Dimension {
    const name: string
    /** The ranges keyed by category name. */
    var items: map<string, CategoryRanges>
    /** The keys of `items`, each once, in order of first insertion. */
    var keys: seq<string>

    ghost predicate Valid()
      reads this
    {
      && (forall k :: k in items <==> k in keys)
      && Distinct(keys)
      && (forall k :: k in items ==> items[k].name == k)
    }

    constructor (name: string)
      ensures Valid()
      ensures this.name == name && items == map[] && keys == []
    {
      this.name := name;
      items := map[];
      keys := [];
    }

    /** Stores `item` under its own name, replacing an earlier item of that name in place. */
    method AddItem(item: CategoryRanges)
      requires Valid()
      modifies this
      ensures Valid()
      ensures items == old(items)[item.name := item]
      ensures keys == if item.name in old(items) then old(keys) else old(keys) + [item.name]
    {
      if item.name !in items {
        keys := keys + [item.name];
      }
      items := items[item.name := item];
    }

    /** The stored ranges, one per distinct category name, in first-insertion order of the names. */
    function GetRanges(): (r: seq<CategoryRanges>)
      reads this
      requires Valid()
      ensures |r| == |items| == |keys|
      ensures forall i :: 0 <= i < |r| ==> r[i].name == keys[i] && r[i] in items.Values
      ensures forall c :: c in items.Values ==> c in r
      ensures forall i, j :: 0 <= i < j < |r| ==> r[i].name != r[j].name
    {
      KeysCardinality(items, keys);
      forall c | c in items.Values ensures c in Lookup(items, keys) {
        var k :| k in items && items[k] == c;
        var i :| 0 <= i < |keys| && keys[i] == k;
        assert Lookup(items, keys)[i] == c;
      }
      Lookup(items, keys)
    }
  }

  /** A sequence of distinct keys covering a map's domain is as long as the map. */
  lemma KeysCardinality<V>(m: map<string, V>, ks: seq<string>)
    requires forall k :: k in m <==> k in ks
    requires Distinct(ks)
    ensures |m| == |ks|
  {
    if ks == [] {
      assert m.Keys == {};
    } else {
      var last := ks[|ks| - 1];
      var rest := ks[..|ks| - 1];
      var m' := m - {last};
      forall k ensures k in m' <==> k in rest {
        if k in rest {
          var i :| 0 <= i < |rest| && rest[i] == k;
          assert ks[i] == k && i < |ks| - 1;
        }
        if k in ks && k != last {
          var i :| 0 <= i < |ks| && ks[i] == k;
          assert i != |ks| - 1;
          assert rest[i] == k;
        }
      }
      KeysCardinality(m', rest);
      assert m.Keys == m'.Keys + {last};
    }
  }

  class Dimensions {
    /** The dimensions keyed by dimension name. */
    var dimensions: map<string, Dimension>
    /** The keys of `dimensions`, each once, in order of first insertion. */
    var names: seq<string>
    /** The dimension objects this catalog owns. */
    ghost var Repr: set<object>

    ghost predicate Valid()
      reads this, Repr
    {
      && (forall k :: k in dimensions <==> k in names)
      && Distinct(names)
      && (forall k :: k in dimensions ==> dimensions[k] in Repr)
      && (forall k :: k in dimensions ==> dimensions[k].name == k && dimensions[k].Valid())
    }

    constructor ()
      ensures Valid() && fresh(Repr)
      ensures dimensions == map[] && names == []
    {
      dimensions := map[];
      names := [];
      Repr := {};
    }

    /**
     * Adds `item` to the dimension `dimensionName`, first creating that
     * dimension, empty and named after the key, when it is not known yet.
     */
    method AddCategoryRange(dimensionName: string, item: CategoryRanges)
      requires Valid()
      modifies this, Repr
      ensures Valid() && fresh(Repr - old(Repr))
      ensures dimensionName in dimensions && dimensions[dimensionName].name == dimensionName
      ensures dimensionName in old(dimensions) ==> dimensions == old(dimensions) && names == old(names)
      ensures dimensionName !in old(dimensions) ==>
        && fresh(dimensions[dimensionName])
        && dimensions == old(dimensions)[dimensionName := dimensions[dimensionName]]
        && names == old(names) + [dimensionName]
        && dimensions[dimensionName].items == map[item.name := item]
        && dimensions[dimensionName].keys == [item.name]
      ensures dimensionName in old(dimensions) ==>
        && dimensions[dimensionName].items == old(dimensions[dimensionName].items)[item.name := item]
        && dimensions[dimensionName].keys ==
             if item.name in old(dimensions[dimensionName].items) then old(dimensions[dimensionName].keys)
             else old(dimensions[dimensionName].keys) + [item.name]
      ensures forall k :: k in old(dimensions) && k != dimensionName ==>
        && dimensions[k] == old(dimensions[k])
        && dimensions[k].items == old(dimensions[k].items)
        && dimensions[k].keys == old(dimensions[k].keys)
    {
      if dimensionName !in dimensions {
        var d := new Dimension(dimensionName);
        dimensions := dimensions[dimensionName := d];
        names := names + [dimensionName];
        Repr := Repr + {d};
        d.AddItem(item);
      } else {
        var d := dimensions[dimensionName];
        d.AddItem(item);
      }
    }

    /** The dimension stored under `dimensionName`, if any. */
    function GetDimension(dimensionName: string): (r: Option<Dimension>)
      reads this, Repr
      requires Valid()
      ensures r.Some? <==> dimensionName in names
      ensures r.Some? ==> r.value.name == dimensionName && r.value in Repr && r.value.Valid()
    {
      if dimensionName in dimensions then Some(dimensions[dimensionName]) else None
    }

    /** Every dimension name exactly once, in order of first addition. */
    function DimensionNames(): (r: seq<string>)
      reads this, Repr
      requires Valid()
      ensures Distinct(r) && |r| == |dimensions|
      ensures forall k :: k in r <==> k in dimensions
      ensures r == names
    {
      KeysCardinality(dimensions, names);
      names
    }

    /** What a reader of the catalog sees: each dimension with its ranges (as `GetRanges` lists them), in name order. */
    function View(): (r: seq<DimensionEntry>)
      reads this, Repr
      requires Valid()
      ensures |r| == |names|
      ensures forall i :: 0 <= i < |r| ==>
        r[i].name == names[i] && r[i].ranges == Lookup(dimensions[names[i]].items, dimensions[names[i]].keys)
    {
      ViewOf(names)
    }

    /** The dimensions named in `ks` are stored, owned, and list only stored keys. */
    ghost predicate Readable(ks: seq<string>)
      reads this, Repr
    {
      forall k :: k in ks ==>
        && k in dimensions && dimensions[k] in Repr
        && forall x :: x in dimensions[k].keys ==> x in dimensions[k].items
    }

    function ViewOf(ks: seq<string>): (r: seq<DimensionEntry>)
      reads this, Repr
      requires Readable(ks)
      ensures |r| == |ks|
      ensures forall i :: 0 <= i < |r| ==>
        r[i].name == ks[i] && r[i].ranges == Lookup(dimensions[ks[i]].items, dimensions[ks[i]].keys)
    {
      if ks == [] then []
      else
        var d := dimensions[ks[0]];
        [DimensionEntry(ks[0], Lookup(d.items, d.keys))] + ViewOf(ks[1..])
    }
  }
}
