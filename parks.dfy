/**
  The fixed park list (lib/parks.ts): the list itself, its split by energy
  type, and the URL-hash keys that name each park.
 */
module Parks {
  import opened Text
  import opened Seqs

  datatype EnergyType = Solar | Wind

  datatype ParkInfo = ParkInfo(name: string, timezone: string, energyType: EnergyType)

  const AllParks: seq<ParkInfo> := [
    ParkInfo("Netterden", "Europe/Amsterdam", Wind),
    ParkInfo("Stadskanaal", "Europe/Bucharest", Solar),
    ParkInfo("Windskanaal", "Europe/Istanbul", Wind),
    ParkInfo("Zwartenbergseweg", "Europe/Volgograd", Wind),
    ParkInfo("Bemmel", "Europe/Vienna", Solar)
  ]

  // ---------------------------------------------------------------------------
  // Split by energy type
  // ---------------------------------------------------------------------------

  /** `parks.filter((park) => park.energyType === t)`. */
  function OfType(parks: seq<ParkInfo>, t: EnergyType): seq<ParkInfo> {
    if parks == [] then []
    else (if parks[0].energyType == t then [parks[0]] else []) + OfType(parks[1..], t)
  }

  const SolarParks: seq<ParkInfo> := OfType(AllParks, Solar)
  const WindParks: seq<ParkInfo> := OfType(AllParks, Wind)

  /** Filtering a concatenation filters each part: the kept parks stay in their original order. */
  lemma {:induction false} OfTypeAppend(a: seq<ParkInfo>, b: seq<ParkInfo>, t: EnergyType)
    ensures OfType(a + b, t) == OfType(a, t) + OfType(b, t)
  {
    if a == [] {
      assert a + b == b;
    } else {
      OfTypeAppend(a[1..], b, t);
      assert (a + b)[0] == a[0] && (a + b)[1..] == a[1..] + b;
      var head := if a[0].energyType == t then [a[0]] else [];
      AppendAssoc(head, OfType(a[1..], t), OfType(b, t));
    }
  }

  /** A single park is kept exactly when it has type `t`. */
  lemma OfTypeSingle(p: ParkInfo, t: EnergyType)
    ensures OfType([p], t) == if p.energyType == t then [p] else []
  {
    assert [p][1..] == [];
  }

  /** Every kept park has type `t`. */
  lemma {:induction false} OfTypeMembers(parks: seq<ParkInfo>, t: EnergyType)
    ensures forall i :: 0 <= i < |OfType(parks, t)| ==> OfType(parks, t)[i].energyType == t
  {
    if parks != [] {
      OfTypeMembers(parks[1..], t);
    }
  }

  /** A park of type `t` is kept as many times as it occurs; any other park not at all. */
  lemma {:induction false} OfTypeCounts(parks: seq<ParkInfo>, t: EnergyType, p: ParkInfo)
    ensures multiset(OfType(parks, t))[p] == if p.energyType == t then multiset(parks)[p] else 0
  {
    if parks != [] {
      OfTypeCounts(parks[1..], t, p);
      assert parks == [parks[0]] + parks[1..];
      assert multiset(parks) == multiset([parks[0]]) + multiset(parks[1..]);
    }
  }

  /** Every park lands in exactly one of the two lists. */
  lemma {:induction false} TypesPartition(parks: seq<ParkInfo>)
    ensures multiset(OfType(parks, Solar)) + multiset(OfType(parks, Wind)) == multiset(parks)
    ensures |OfType(parks, Solar)| + |OfType(parks, Wind)| == |parks|
  {
    if parks != [] {
      TypesPartition(parks[1..]);
      assert parks == [parks[0]] + parks[1..];
    }
  }

  lemma SolarParksOfList()
    ensures SolarParks == [AllParks[1], AllParks[4]]
    ensures SolarParks[0].name == "Stadskanaal" && SolarParks[1].name == "Bemmel"
  {
  }

  lemma WindParksOfList()
    ensures WindParks == [AllParks[0], AllParks[2], AllParks[3]]
    ensures WindParks[0].name == "Netterden" && WindParks[1].name == "Windskanaal"
    ensures WindParks[2].name == "Zwartenbergseweg"
  {
  }

  // ---------------------------------------------------------------------------
  // Hash keys
  // ---------------------------------------------------------------------------

  /** `Object.fromEntries`: later entries overwrite earlier ones with the same key. */
  function FromEntries(entries: seq<(string, string)>): map<string, string> {
    if entries == [] then map[]
    else
      var last := entries[|entries| - 1];
      FromEntries(entries[..|entries| - 1])[last.0 := last.1]
  }

  /** The hash key of a park: its lower-cased name followed by `suffix`. */
  function HashKey(p: ParkInfo, suffix: string): string {
    Lower(p.name) + suffix
  }

  /** The entries `[key, name]`, one per park. */
  function HashEntries(parks: seq<ParkInfo>, suffix: string): (e: seq<(string, string)>)
    ensures |e| == |parks|
    ensures forall i :: 0 <= i < |parks| ==> e[i] == (HashKey(parks[i], suffix), parks[i].name)
  {
    seq(|parks|, i requires 0 <= i < |parks| => (HashKey(parks[i], suffix), parks[i].name))
  }

  function HashToPark(parks: seq<ParkInfo>, suffix: string): map<string, string> {
    FromEntries(HashEntries(parks, suffix))
  }

  const SolarHashToPark: map<string, string> := HashToPark(SolarParks, "-solar")
  const WindHashToPark: map<string, string> := HashToPark(WindParks, "-wind")

  /** A key is present exactly when some entry has it. */
  lemma {:induction false} FromEntriesKeys(entries: seq<(string, string)>, k: string)
    ensures k in FromEntries(entries) <==> exists i :: 0 <= i < |entries| && entries[i].0 == k
  {
    if entries != [] {
      var init := entries[..|entries| - 1];
      FromEntriesKeys(init, k);
      if exists i :: 0 <= i < |init| && init[i].0 == k {
        var i :| 0 <= i < |init| && init[i].0 == k;
        assert entries[i] == init[i];
      }
      if exists i :: 0 <= i < |entries| && entries[i].0 == k {
        var i :| 0 <= i < |entries| && entries[i].0 == k;
        if i < |init| {
          assert init[i] == entries[i];
        }
      }
    }
  }

  /** A key maps to the value of the last entry that has it. */
  lemma {:induction false} FromEntriesLast(entries: seq<(string, string)>, i: int)
    requires 0 <= i < |entries|
    requires forall j :: i < j < |entries| ==> entries[j].0 != entries[i].0
    ensures entries[i].0 in FromEntries(entries) && FromEntries(entries)[entries[i].0] == entries[i].1
  {
    var init := entries[..|entries| - 1];
    if i < |init| {
      assert init[i] == entries[i];
      forall j | i < j < |init| ensures init[j].0 != init[i].0 {
        assert init[j] == entries[j];
      }
      FromEntriesLast(init, i);
    }
  }

  /** Parks whose lower-cased names are pairwise distinct. */
  predicate DistinctLowerNames(parks: seq<ParkInfo>) {
    forall i, j :: 0 <= i < j < |parks| ==> Lower(parks[i].name) != Lower(parks[j].name)
  }

  /**
    Every park of the list has its key, mapped to its own name, and no other
    key is present; with distinct lower-cased names no park shadows another.
   */
  lemma HashToParkMapsEachPark(parks: seq<ParkInfo>, suffix: string)
    requires DistinctLowerNames(parks)
    ensures forall i :: 0 <= i < |parks| ==>
              HashKey(parks[i], suffix) in HashToPark(parks, suffix) &&
              HashToPark(parks, suffix)[HashKey(parks[i], suffix)] == parks[i].name
    ensures forall k :: k in HashToPark(parks, suffix) <==> exists i :: 0 <= i < |parks| && k == HashKey(parks[i], suffix)
    ensures |HashToPark(parks, suffix)| == |parks|
  {
    var e := HashEntries(parks, suffix);
    forall i | 0 <= i < |parks|
      ensures HashKey(parks[i], suffix) in HashToPark(parks, suffix)
      ensures HashToPark(parks, suffix)[HashKey(parks[i], suffix)] == parks[i].name
    {
      forall j | i < j < |e| ensures e[j].0 != e[i].0 {
        LowerSuffixInjective(parks[i].name, parks[j].name, suffix);
      }
      FromEntriesLast(e, i);
    }
    forall k ensures k in HashToPark(parks, suffix) <==> exists i :: 0 <= i < |parks| && k == HashKey(parks[i], suffix) {
      FromEntriesKeys(e, k);
    }
    KeyCount(parks, suffix);
  }

  /** With distinct lower-cased names the parks give as many keys as there are parks. */
  lemma {:induction false} KeyCount(parks: seq<ParkInfo>, suffix: string)
    requires DistinctLowerNames(parks)
    ensures |HashToPark(parks, suffix)| == |parks|
  {
    if parks != [] {
      var init := parks[..|parks| - 1];
      var e := HashEntries(parks, suffix);
      assert HashEntries(init, suffix) == e[..|e| - 1];
      KeyCount(init, suffix);
      var k := e[|e| - 1].0;
      FromEntriesKeys(e[..|e| - 1], k);
      forall i | 0 <= i < |init| ensures e[i].0 != k {
        LowerSuffixInjective(parks[i].name, parks[|parks| - 1].name, suffix);
      }
    }
  }

  /** Appending the same suffix keeps distinct lower-cased names apart. */
  lemma LowerSuffixInjective(a: string, b: string, suffix: string)
    ensures Lower(a) != Lower(b) ==> Lower(a) + suffix != Lower(b) + suffix
  {
    var x, y := Lower(a) + suffix, Lower(b) + suffix;
    assert Lower(a) == x[..|x| - |suffix|];
    assert Lower(b) == y[..|y| - |suffix|];
  }

  /** A solar key ends in `r` and a wind key in `d`. */
  lemma SuffixesDiffer(a: string, b: string)
    ensures a + "-solar" != b + "-wind"
  {
    var x, y := a + "-solar", b + "-wind";
    assert x[|x| - 1] == 'r' && y[|y| - 1] == 'd';
  }

  /** The solar and wind maps never share a key. */
  lemma HashKeysDisjoint(solar: seq<ParkInfo>, wind: seq<ParkInfo>)
    ensures HashToPark(solar, "-solar").Keys !! HashToPark(wind, "-wind").Keys
  {
    forall k | k in HashToPark(solar, "-solar") ensures k !in HashToPark(wind, "-wind") {
      FromEntriesKeys(HashEntries(solar, "-solar"), k);
      FromEntriesKeys(HashEntries(wind, "-wind"), k);
      var i :| 0 <= i < |solar| && HashEntries(solar, "-solar")[i].0 == k;
      forall j | 0 <= j < |wind| ensures HashEntries(wind, "-wind")[j].0 != k {
        SuffixesDiffer(Lower(solar[i].name), Lower(wind[j].name));
      }
    }
  }

  lemma SolarKeyNames()
    ensures Lower("Stadskanaal") + "-solar" == "stadskanaal-solar"
    ensures Lower("Bemmel") + "-solar" == "bemmel-solar"
  {
  }

  lemma WindKeyNames()
    ensures Lower("Netterden") + "-wind" == "netterden-wind"
    ensures Lower("Windskanaal") + "-wind" == "windskanaal-wind"
    ensures Lower("Zwartenbergseweg") + "-wind" == "zwartenbergseweg-wind"
  {
  }

  /** The entries of the fixed list, keys spelled out. */
  lemma SolarEntriesOfList()
    ensures HashEntries(SolarParks, "-solar") == [("stadskanaal-solar", "Stadskanaal"), ("bemmel-solar", "Bemmel")]
  {
    SolarParksOfList();
    SolarKeyNames();
  }

  lemma WindEntriesOfList()
    ensures HashEntries(WindParks, "-wind") == [("netterden-wind", "Netterden"), ("windskanaal-wind", "Windskanaal"),
                                                ("zwartenbergseweg-wind", "Zwartenbergseweg")]
  {
    WindParksOfList();
    WindKeyNames();
  }

  /** The solar map of the fixed list. */
  lemma SolarHashOfList()
    ensures SolarHashToPark == map["stadskanaal-solar" := "Stadskanaal", "bemmel-solar" := "Bemmel"]
  {
    var se := [("stadskanaal-solar", "Stadskanaal"), ("bemmel-solar", "Bemmel")];
    SolarEntriesOfList();
    assert se[..1][..0] == [];
    assert FromEntries(se[..1]) == map["stadskanaal-solar" := "Stadskanaal"];
  }

  /** The wind map of the fixed list. */
  lemma WindHashOfList()
    ensures WindHashToPark == map["netterden-wind" := "Netterden", "windskanaal-wind" := "Windskanaal",
                                  "zwartenbergseweg-wind" := "Zwartenbergseweg"]
  {
    var we := [("netterden-wind", "Netterden"), ("windskanaal-wind", "Windskanaal"),
               ("zwartenbergseweg-wind", "Zwartenbergseweg")];
    WindEntriesOfList();
    assert we[..1][..0] == [] && we[..2][..1] == we[..1];
    assert FromEntries(we[..1]) == map["netterden-wind" := "Netterden"];
    assert FromEntries(we[..2]) == map["netterden-wind" := "Netterden", "windskanaal-wind" := "Windskanaal"];
  }
}
