/** Looking up the partitions of nodes (utils/config/ConfigMap.cpp). */
module ConfigMap {
  import opened StringTools

  function NonEmpty(xs: seq<string>): seq<string> {
    if xs == [] then [] else (if xs[0] == "" then [] else [xs[0]]) + NonEmpty(xs[1..])
  }

  lemma {:induction false} NonEmptyAppend(a: seq<string>, b: seq<string>)
    ensures NonEmpty(a + b) == NonEmpty(a) + NonEmpty(b)
  {
    if a == [] {
      assert a + b == b;
    } else {
      assert (a + b)[1..] == a[1..] + b;
      NonEmptyAppend(a[1..], b);
    }
  }

  lemma {:induction false} JoinSnoc(xs: seq<string>, x: string, d: char)
    requires xs != []
    ensures Join(xs + [x], d) == Join(xs, d) + [d] + x
  {
    if |xs| == 1 {
      assert xs + [x] == [xs[0]] + [x];
      JoinCons(xs[0], [x], d);
    } else {
      assert xs + [x] == [xs[0]] + (xs[1..] + [x]);
      JoinSnoc(xs[1..], x, d);
      JoinCons(xs[0], xs[1..] + [x], d);
      assert xs[0] + [d] + (Join(xs[1..], d) + [d] + x) == (xs[0] + [d] + Join(xs[1..], d)) + [d] + x;
    }
  }

  /** Joined nonempty strings are empty only if there are none. */
  lemma {:induction false} JoinIsEmpty(xs: seq<string>, d: char)
    ensures Join(NonEmpty(xs), d) == "" <==> NonEmpty(xs) == []
  {
    if xs != [] && xs[0] == "" {
      JoinIsEmpty(xs[1..], d);
    }
  }

  lemma OneMore(found: seq<string>, x: string)
    ensures var before := Join(NonEmpty(found), ',');
            Join(NonEmpty(found + [x]), ',') == if x == "" then before else if before == "" then x else before + "," + x
  {
    NonEmptyAppend(found, [x]);
    JoinIsEmpty(found, ',');
    if x == "" {
      assert NonEmpty(found) + [] == NonEmpty(found);
    } else {
      assert NonEmpty([x]) == [x];
      if NonEmpty(found) == [] {
        assert [] + [x] == [x];
      } else {
        JoinSnoc(NonEmpty(found), x, ',');
      }
    }
  }

  function Lookup(m: map<string, string>, key: string): string {
    if key in m then m[key] else ""
  }

  function Lookups(m: map<string, string>, keys: seq<string>): seq<string> {
    seq(|keys|, i requires 0 <= i < |keys| => Lookup(m, keys[i]))
  }

  lemma OneMoreLookup(m: map<string, string>, keys: seq<string>, i: nat, x: string)
    requires i < |keys|
    ensures [x] + Lookups(m, keys[..i + 1]) == ([x] + Lookups(m, keys[..i])) + [Lookup(m, keys[i])]
  {
  }

  /** The nonempty values of those keys that have one, in the order of the keys. */
  function Entries(m: map<string, string>, keys: seq<string>): seq<string> {
    if keys == [] then []
    else (if keys[0] in m && m[keys[0]] != "" then [m[keys[0]]] else []) + Entries(m, keys[1..])
  }

  lemma {:induction false} FoundAreEntries(m: map<string, string>, keys: seq<string>)
    ensures NonEmpty(Lookups(m, keys)) == Entries(m, keys)
  {
    if keys != [] {
      assert Lookups(m, keys) == [Lookup(m, keys[0])] + Lookups(m, keys[1..]);
      FoundAreEntries(m, keys[1..]);
    }
  }

  /** Only values of the map are found; keys without one add nothing, and all others add theirs. */
  lemma {:induction false} EntriesAreValues(m: map<string, string>, keys: seq<string>)
    ensures forall x :: x in Entries(m, keys) <==> x != "" && exists k :: k in keys && k in m && m[k] == x
    ensures |Entries(m, keys)| <= |keys|
    ensures Entries(m, keys) == [] <==> forall k :: k in keys && k in m ==> m[k] == ""
  {
    if keys != [] {
      assert keys == [keys[0]] + keys[1..];
      EntriesAreValues(m, keys[1..]);
      var first := if keys[0] in m && m[keys[0]] != "" then [m[keys[0]]] else [];
      assert Entries(m, keys) == first + Entries(m, keys[1..]);
      assert keys[0] in keys;
    }
  }

  class MapWrapper {
    var map_: map<string, string>

    constructor ()
      ensures map_ == map[]
    {
      map_ := map[];
    }

    method AddElement(key: string, value: string)
      modifies this
      ensures map_ == old(map_)[key := value]
    {
      map_ := map_[key := value];
    }

    method FindElement(key: string) returns (value: string)
      ensures value == Lookup(map_, key)
    {
      if key in map_ {
        return map_[key];
      }
      return "";
    }
  }

  /** Joins what is found for the keys in src behind what des already has; an empty src empties it. */
  method GetNodePartitions(src: string, configMap: MapWrapper, des0: string) returns (des: string)
    ensures des == if src == "" then ""
                   else Join((if des0 == "" then [] else [des0]) + Entries(configMap.map_, Split(src, ',')), ',')
  {
    if src == "" {
      return src;
    }
    des := des0;
    var partitions := SplitInto(src, ',');
    ghost var found := [des0];
    for i := 0 to |partitions|
      invariant found == [des0] + Lookups(configMap.map_, partitions[..i])
      invariant des == Join(NonEmpty(found), ',')
    {
      var nodePartition := configMap.FindElement(partitions[i]);
      OneMoreLookup(configMap.map_, partitions, i, des0);
      OneMore(found, nodePartition);
      if nodePartition != "" {
        if des == "" {
          des := nodePartition;
        } else {
          des := des + "," + nodePartition;
        }
      }
      found := found + [nodePartition];
    }
    assert partitions[..|partitions|] == partitions;
    NonEmptyAppend([des0], Lookups(configMap.map_, partitions));
    FoundAreEntries(configMap.map_, partitions);
  }

  /** Looking up the joined keys finds the partitions in the order of the keys. */
  lemma PartitionsOfJoinedKeys(m: map<string, string>, keys: seq<string>)
    requires keys != [] && Free(keys, ',') && keys[|keys| - 1] != ""
    ensures Entries(m, Split(Join(keys, ','), ',')) == Entries(m, keys)
  {
    SplitOfJoin(keys, ',');
  }
}
