/// bird_analyzer.py: `BirdAnalyzer.make_taxonomy_to_feature_map`, which builds
/// order, family and genus maps to a feature from a map table and then maps
/// every scientific and common bird name of a taxonomy table to a feature by
/// genus, else family, else order; and the classification loop of `run`,
/// which counts each annotation row as human, swine, mapped on the
/// scientific name, mapped on the common name, or not mapped.
///
/// Table cells are given as the text `str(cell)` produces, so an empty cell
/// reads "nan".
module BirdAnalyzer {
  import opened Results
  import opened Text
  import opened Folds

  /** What a missing cell reads as once converted to text. */
  const Nan := "nan"

  /** `str(cell).lower().strip()`. */
  function Norm(cell: string): string {
    Strip(Lower(cell))
  }

  /** A key-value pair as the entry it stores. */
  function AsEntry(): ((string, string)) -> Option<(string, string)> {
    (p: (string, string)) => Some(p)
  }

  /** The pairs `keys[i] -> v`, in key order. */
  function Tag(keys: seq<string>, v: string): (ps: seq<(string, string)>)
    ensures |ps| == |keys|
  {
    if keys == [] then [] else Tag(keys[..|keys| - 1], v) + [(keys[|keys| - 1], v)]
  }

  lemma {:induction false} TagMembers(keys: seq<string>, v: string, p: (string, string))
    ensures p in Tag(keys, v) <==> p.1 == v && p.0 in keys
  {
    if keys != [] {
      var n := |keys| - 1;
      TagMembers(keys[..n], v, p);
      assert keys == keys[..n] + [keys[n]];
    }
  }

  /** Storing one more pair into a map built from pairs. */
  lemma AssignSnoc(ps: seq<(string, string)>, p: (string, string))
    ensures Assign(ps + [p], AsEntry()) == Assign(ps, AsEntry())[p.0 := p.1]
  {
    AssignStep(ps + [p], |ps|, AsEntry());
    assert (ps + [p])[..|ps|] == ps;
    assert (ps + [p])[..|ps| + 1] == ps + [p];
  }

  /** The entries each row gives, in row order. */
  function Flatten<X>(rows: seq<X>, e: X -> seq<(string, string)>): seq<(string, string)> {
    if rows == [] then [] else Flatten(rows[..|rows| - 1], e) + e(rows[|rows| - 1])
  }

  lemma FlattenStep<X>(rows: seq<X>, r: X, e: X -> seq<(string, string)>)
    ensures Flatten(rows + [r], e) == Flatten(rows, e) + e(r)
  {
    assert (rows + [r])[..|rows|] == rows;
  }

  lemma FlattenPrefix<X>(items: seq<X>, i: nat, e: X -> seq<(string, string)>)
    requires i < |items|
    ensures Flatten(items[..i + 1], e) == Flatten(items[..i], e) + e(items[i])
  {
    assert items[..i + 1] == items[..i] + [items[i]];
    FlattenStep(items[..i], items[i], e);
  }

  /** The row gives an entry for `key`. */
  predicate Stores<X>(e: X -> seq<(string, string)>, r: X, key: string) {
    exists i :: 0 <= i < |e(r)| && e(r)[i].0 == key
  }

  /** Storing pairs that all carry the same value `v`: a key they name gets
      `v`, any other key keeps what it had. */
  lemma {:induction false} AssignSame(ps: seq<(string, string)>, qs: seq<(string, string)>, v: string, key: string)
    requires forall i :: 0 <= i < |qs| ==> qs[i].1 == v
    ensures (exists i :: 0 <= i < |qs| && qs[i].0 == key) ==>
              key in Assign(ps + qs, AsEntry()) && Assign(ps + qs, AsEntry())[key] == v
    ensures (forall i :: 0 <= i < |qs| ==> qs[i].0 != key) ==>
              (key in Assign(ps + qs, AsEntry()) <==> key in Assign(ps, AsEntry()))
              && (key in Assign(ps, AsEntry()) ==> Assign(ps + qs, AsEntry())[key] == Assign(ps, AsEntry())[key])
  {
    if qs == [] {
      assert ps + qs == ps;
    } else {
      var n := |qs| - 1;
      AssignSame(ps, qs[..n], v, key);
      assert ps + qs == (ps + qs[..n]) + [qs[n]];
      AssignSnoc(ps + qs[..n], qs[n]);
      assert forall i :: 0 <= i < n ==> qs[..n][i] == qs[i];
    }
  }

  /** A key is in the map built from the rows' entries exactly when some row
      stores it. */
  lemma {:induction false} FlattenKeys<X>(rows: seq<X>, e: X -> seq<(string, string)>, v: X -> string, key: string)
    requires forall k, i :: 0 <= k < |rows| && 0 <= i < |e(rows[k])| ==> e(rows[k])[i].1 == v(rows[k])
    ensures key in Assign(Flatten(rows, e), AsEntry()) <==> exists k :: 0 <= k < |rows| && Stores(e, rows[k], key)
  {
    if rows != [] {
      var n := |rows| - 1;
      var init := rows[..n];
      assert forall k :: 0 <= k < n ==> init[k] == rows[k];
      FlattenKeys(init, e, v, key);
      AssignSame(Flatten(init, e), e(rows[n]), v(rows[n]), key);
    }
  }

  /** When every row stores one value `v(r)` under each of its keys, a key is
      in the map exactly when some row stores it, and holds the value of the
      last such row. */
  lemma {:induction false} FlattenLastWins<X>(rows: seq<X>, e: X -> seq<(string, string)>, v: X -> string, key: string)
    requires forall k, i :: 0 <= k < |rows| && 0 <= i < |e(rows[k])| ==> e(rows[k])[i].1 == v(rows[k])
    ensures key in Assign(Flatten(rows, e), AsEntry()) <==> exists k :: 0 <= k < |rows| && Stores(e, rows[k], key)
    ensures key in Assign(Flatten(rows, e), AsEntry()) ==>
              exists k :: 0 <= k < |rows| && Stores(e, rows[k], key)
                && Assign(Flatten(rows, e), AsEntry())[key] == v(rows[k])
                && forall j :: k < j < |rows| ==> !Stores(e, rows[j], key)
  {
    FlattenKeys(rows, e, v, key);
    if rows != [] {
      var n := |rows| - 1;
      var init, last := rows[..n], rows[n];
      assert rows == init + [last];
      assert forall k :: 0 <= k < n ==> init[k] == rows[k];
      FlattenStep(init, last, e);
      var m := Assign(Flatten(rows, e), AsEntry());
      AssignSame(Flatten(init, e), e(last), v(last), key);
      if Stores(e, last, key) {
        assert Stores(e, rows[n], key) && m[key] == v(rows[n]);
      } else if key in Assign(Flatten(init, e), AsEntry()) {
        FlattenLastWins(init, e, v, key);
        var k :| 0 <= k < n && Stores(e, init[k], key)
                 && Assign(Flatten(init, e), AsEntry())[key] == v(init[k])
                 && forall j :: k < j < n ==> !Stores(e, init[j], key);
        assert Stores(e, rows[k], key) && m[key] == v(rows[k]);
        assert forall j :: k < j < |rows| ==> !Stores(e, rows[j], key);
      }
    }
  }

  // ---------------------------------------------------------------------------
  // The taxonomy-to-feature map table

  datatype MapRow = MapRow(order: string, family: string, genera: string, feature: string)

  /** The order entry a map row gives, if its order and feature are present. */
  function OrderOf(): MapRow -> Option<(string, string)> {
    (r: MapRow) =>
      var order, feature := Norm(r.order), Norm(r.feature);
      if order != Nan && feature != Nan then Some((order, feature)) else None
  }

  /** The family entry a map row gives, if its family and feature are present. */
  function FamilyOf(): MapRow -> Option<(string, string)> {
    (r: MapRow) =>
      var family, feature := Norm(r.family), Norm(r.feature);
      if family != Nan && feature != Nan then Some((family, feature)) else None
  }

  /** `f` applied to every part, in order. */
  function MapAll(parts: seq<string>, f: string -> string): (r: seq<string>)
    ensures |r| == |parts|
    ensures forall i :: 0 <= i < |parts| ==> r[i] == f(parts[i])
  {
    if parts == [] then [] else MapAll(parts[..|parts| - 1], f) + [f(parts[|parts| - 1])]
  }

  /** Every part stripped. */
  function StripAll(parts: seq<string>): (r: seq<string>)
    ensures |r| == |parts|
  {
    MapAll(parts, s => Strip(s))
  }

  /** The genus keys of a genera cell: the stripped comma-separated parts when
      a comma follows the first character, else the whole cell. */
  function GenusKeys(genera: string): (keys: seq<string>)
    ensures |keys| >= 1
  {
    if Find(genera, ",") > 0 then StripAll(Split(genera, ",")) else [genera]
  }

  /** The genus entries of a map row, in the order the inner loop stores them. */
  function GenusEntries(r: MapRow): seq<(string, string)> {
    var genera, feature := Norm(r.genera), Norm(r.feature);
    if genera != Nan && feature != Nan then Tag(GenusKeys(genera), feature) else []
  }

  lemma GenusEntryMembers(r: MapRow, p: (string, string))
    ensures p in GenusEntries(r) <==>
              Norm(r.genera) != Nan && Norm(r.feature) != Nan && p.1 == Norm(r.feature)
              && p.0 in GenusKeys(Norm(r.genera))
  {
    TagMembers(GenusKeys(Norm(r.genera)), Norm(r.feature), p);
  }

  function GenusOf(): MapRow -> seq<(string, string)> {
    (r: MapRow) => GenusEntries(r)
  }

  /** All genus entries of the map rows, in storing order. */
  function GenusPairs(rows: seq<MapRow>): seq<(string, string)> {
    Flatten(rows, GenusOf())
  }

  /** The three maps of the first loop. */
  datatype FeatureMaps = FeatureMaps(order: map<string, string>, family: map<string, string>, genus: map<string, string>)

  /** The maps the first loop builds: each is the entries of the rows, in row
      order, a later entry replacing an earlier one with the same key. */
  function Maps(rows: seq<MapRow>): FeatureMaps {
    FeatureMaps(Assign(rows, OrderOf()), Assign(rows, FamilyOf()), Assign(GenusPairs(rows), AsEntry()))
  }

  lemma OrderStep(rows: seq<MapRow>, r: MapRow)
    ensures Assign(rows + [r], OrderOf()) ==
              if Norm(r.order) != Nan && Norm(r.feature) != Nan
              then Assign(rows, OrderOf())[Norm(r.order) := Norm(r.feature)]
              else Assign(rows, OrderOf())
  {
    var all := rows + [r];
    assert all[..|rows|] == rows;
    assert all[..|rows| + 1] == all;
    AssignStep(all, |rows|, OrderOf());
  }

  lemma FamilyStep(rows: seq<MapRow>, r: MapRow)
    ensures Assign(rows + [r], FamilyOf()) ==
              if Norm(r.family) != Nan && Norm(r.feature) != Nan
              then Assign(rows, FamilyOf())[Norm(r.family) := Norm(r.feature)]
              else Assign(rows, FamilyOf())
  {
    var all := rows + [r];
    assert all[..|rows|] == rows;
    assert all[..|rows| + 1] == all;
    AssignStep(all, |rows|, FamilyOf());
  }

  lemma GenusStep(rows: seq<MapRow>, r: MapRow)
    ensures GenusPairs(rows + [r]) == GenusPairs(rows) + GenusEntries(r)
  {
    FlattenStep(rows, r, GenusOf());
  }

  /** Storing the key of one more part. */
  lemma {:induction false} StoreKeyStep(before: seq<(string, string)>, parts: seq<string>, j: nat, f: string -> string, feature: string)
    requires j < |parts|
    ensures Assign(before + Tag(MapAll(parts[..j + 1], f), feature), AsEntry())
            == Assign(before + Tag(MapAll(parts[..j], f), feature), AsEntry())[f(parts[j]) := feature]
  {
    var done := before + Tag(MapAll(parts[..j], f), feature);
    assert parts[..j + 1][..j] == parts[..j];
    assert MapAll(parts[..j + 1], f) == MapAll(parts[..j], f) + [f(parts[j])];
    assert before + Tag(MapAll(parts[..j + 1], f), feature) == done + [(f(parts[j]), feature)];
    AssignSnoc(done, (f(parts[j]), feature));
  }

  /** The inner loop over the comma-separated genera of one row. */
  method StoreGenera(genus: map<string, string>, parts: seq<string>, feature: string,
                     ghost before: seq<(string, string)>)
    returns (m: map<string, string>)
    requires genus == Assign(before, AsEntry())
    ensures m == Assign(before + Tag(StripAll(parts), feature), AsEntry())
  {
    ghost var f: string -> string := s => Strip(s);
    m := genus;
    var j := 0;
    assert before + Tag(MapAll(parts[..0], f), feature) == before;
    while j < |parts|
      invariant 0 <= j <= |parts|
      invariant m == Assign(before + Tag(MapAll(parts[..j], f), feature), AsEntry())
    {
      StoreKeyStep(before, parts, j, f, feature);
      var g := Strip(parts[j]);
      assert g == f(parts[j]);
      m := m[g := feature];
      j := j + 1;
    }
    assert parts[..j] == parts;
  }

  /** One row of the first loop. */
  method StoreMapRow(maps: FeatureMaps, r: MapRow, ghost rows: seq<MapRow>) returns (maps': FeatureMaps)
    requires maps == Maps(rows)
    ensures maps' == Maps(rows + [r])
  {
    var order := Norm(r.order);
    var family := Norm(r.family);
    var genera := Norm(r.genera);
    var feature := Norm(r.feature);
    var orderMap, familyMap, genusMap := maps.order, maps.family, maps.genus;
    OrderStep(rows, r);
    FamilyStep(rows, r);
    GenusStep(rows, r);
    if order != Nan && feature != Nan {
      orderMap := orderMap[order := feature];
    }
    if family != Nan && feature != Nan {
      familyMap := familyMap[family := feature];
    }
    if genera != Nan && feature != Nan {
      if Find(genera, ",") > 0 {
        genusMap := StoreGenera(genusMap, Split(genera, ","), feature, GenusPairs(rows));
      } else {
        assert Tag([genera], feature) == [(genera, feature)];
        AssignSnoc(GenusPairs(rows), (genera, feature));
        genusMap := genusMap[genera := feature];
      }
    } else {
      assert GenusPairs(rows) + [] == GenusPairs(rows);
    }
    maps' := FeatureMaps(orderMap, familyMap, genusMap);
  }

  lemma MapsPrefix(rows: seq<MapRow>, i: nat)
    requires i < |rows|
    ensures Maps(rows[..i + 1]) == Maps(rows[..i] + [rows[i]])
  {
    assert rows[..i + 1] == rows[..i] + [rows[i]];
  }

  /** The body of the first loop, for the row at index `i`. */
  method ReadMapRow(maps: FeatureMaps, mapRows: seq<MapRow>, i: nat) returns (maps': FeatureMaps)
    requires i < |mapRows| && maps == Maps(mapRows[..i])
    ensures maps' == Maps(mapRows[..i + 1])
  {
    MapsPrefix(mapRows, i);
    maps' := StoreMapRow(maps, mapRows[i], mapRows[..i]);
  }

  method BuildFeatureMaps(rows: seq<MapRow>) returns (maps: FeatureMaps)
    ensures maps == Maps(rows)
  {
    maps := FeatureMaps(map[], map[], map[]);
    var i := 0;
    assert rows[..0] == [];
    while i < |rows|
      invariant 0 <= i <= |rows|
      invariant maps == Maps(rows[..i])
    {
      maps := ReadMapRow(maps, rows, i);
      i := i + 1;
    }
    assert rows[..i] == rows;
  }

  /** An order (likewise a family) is in its map exactly when some row gives
      it with a feature; it maps to the feature of the last such row. */
  lemma OrderMapLastWins(rows: seq<MapRow>, order: string)
    ensures order in Maps(rows).order <==>
              exists k :: 0 <= k < |rows| && Norm(rows[k].order) == order && order != Nan && Norm(rows[k].feature) != Nan
    ensures order in Maps(rows).order ==>
              exists k :: 0 <= k < |rows| && Norm(rows[k].order) == order
                && Maps(rows).order[order] == Norm(rows[k].feature)
                && forall j :: k < j < |rows| ==> Norm(rows[j].order) != order || Norm(rows[j].feature) == Nan
  {
    AssignLastWins(rows, OrderOf(), order);
  }

  lemma FamilyMapLastWins(rows: seq<MapRow>, family: string)
    ensures family in Maps(rows).family <==>
              exists k :: 0 <= k < |rows| && Norm(rows[k].family) == family && family != Nan && Norm(rows[k].feature) != Nan
    ensures family in Maps(rows).family ==>
              exists k :: 0 <= k < |rows| && Norm(rows[k].family) == family
                && Maps(rows).family[family] == Norm(rows[k].feature)
                && forall j :: k < j < |rows| ==> Norm(rows[j].family) != family || Norm(rows[j].feature) == Nan
  {
    AssignLastWins(rows, FamilyOf(), family);
  }

  lemma {:induction false} TagAt(keys: seq<string>, v: string)
    ensures forall i :: 0 <= i < |keys| ==> Tag(keys, v)[i] == (keys[i], v)
  {
    if keys != [] {
      TagAt(keys[..|keys| - 1], v);
    }
  }

  /** The row lists the genus among its genus keys, with a feature. */
  predicate ListsGenus(r: MapRow, genus: string) {
    Norm(r.genera) != Nan && Norm(r.feature) != Nan && genus in GenusKeys(Norm(r.genera))
  }

  lemma GenusStores(r: MapRow, genus: string)
    ensures Stores(GenusOf(), r, genus) <==> ListsGenus(r, genus)
    ensures forall i :: 0 <= i < |GenusOf()(r)| ==> GenusOf()(r)[i].1 == Norm(r.feature)
  {
    var genera, feature := Norm(r.genera), Norm(r.feature);
    var ps := GenusOf()(r);
    if genera != Nan && feature != Nan {
      var keys := GenusKeys(genera);
      assert ps == Tag(keys, feature);
      TagNames(keys, feature, genus);
    } else {
      assert ps == [];
    }
  }

  /** The pairs `Tag` builds name exactly the keys, each with the value. */
  lemma TagNames(keys: seq<string>, v: string, key: string)
    ensures (exists i :: 0 <= i < |Tag(keys, v)| && Tag(keys, v)[i].0 == key) <==> key in keys
    ensures forall i :: 0 <= i < |Tag(keys, v)| ==> Tag(keys, v)[i].1 == v
  {
    TagAt(keys, v);
    if key in keys {
      var i :| 0 <= i < |keys| && keys[i] == key;
      assert Tag(keys, v)[i].0 == key;
    }
  }


  /** A genus is in the genus map exactly when some row lists it with a
      feature, and holds the feature of the last such row. */
  lemma GenusMapLastWins(rows: seq<MapRow>, genus: string)
    ensures genus in Maps(rows).genus <==> exists k :: 0 <= k < |rows| && ListsGenus(rows[k], genus)
    ensures genus in Maps(rows).genus ==>
              exists k :: 0 <= k < |rows| && ListsGenus(rows[k], genus)
                && Maps(rows).genus[genus] == Norm(rows[k].feature)
                && forall j :: k < j < |rows| ==> !ListsGenus(rows[j], genus)
  {
    forall k | 0 <= k < |rows| {
      GenusStores(rows[k], genus);
    }
    FlattenLastWins(rows, GenusOf(), (r: MapRow) => Norm(r.feature), genus);
  }

  /** A genera cell without a comma, or whose first character is the comma,
      is one key, kept whole; a comma further on splits it into at least two
      stripped keys. */
  lemma GenusKeysSplit(genera: string)
    ensures ',' !in genera ==> GenusKeys(genera) == [genera]
    ensures |genera| > 0 && genera[0] == ',' ==> GenusKeys(genera) == [genera]
    ensures Find(genera, ",") > 0 ==> |GenusKeys(genera)| >= 2
  {
    var i := Find(genera, ",");
    if ',' !in genera {
      NoOccurrence(genera, ',');
    }
    if |genera| > 0 && genera[0] == ',' {
      assert OccursAt(genera, ",", 0);
    }
    if i > 0 {
      assert Split(genera, ",") == [genera[..i]] + Split(genera[i + 1..], ",");
    }
  }

  // ---------------------------------------------------------------------------
  // The taxonomy master table

  datatype TaxonRow = TaxonRow(scientificName: string, commonName: string, order: string, family: string)

  /** The family, cut before '(' when one follows the first character. */
  function FamilyName(family: string): (r: string)
    ensures Find(family, "(") <= 0 ==> r == family
    ensures Find(family, "(") > 0 ==> |r| < |family| && (r != [] ==> !IsSpace(r[0]) && !IsSpace(r[|r| - 1]))
  {
    var i := Find(family, "(");
    if i > 0 then Strip(family[..i]) else family
  }

  /** `sn[0: sn.find(' ')].strip()`: with no blank, the end is -1 and the last
      character is dropped. */
  function Genus(sn: string): (g: string)
    ensures sn == Nan ==> g == Nan
    ensures sn != Nan ==> ' ' !in g && (sn != [] ==> |g| < |sn|)
    ensures g != [] ==> !IsSpace(g[0]) && !IsSpace(g[|g| - 1])
  {
    if sn != Nan then
      FirstWordNoBlank(sn);
      StripKeepsAbsent(SliceTo(sn, Find(sn, " ")), ' ');
      StripSlice(SliceTo(sn, Find(sn, " ")));
      Strip(SliceTo(sn, Find(sn, " ")))
    else Nan
  }

  /** The text up to the first blank (all but the last character when there
      is none) holds no blank and is shorter than a non-empty name. */
  lemma FirstWordNoBlank(sn: string)
    ensures var w := SliceTo(sn, Find(sn, " "));
      ' ' !in w && (sn != [] ==> |w| < |sn|)
  {
    var i := Find(sn, " ");
    if i >= 0 {
      BeforeFirst(sn, ' ');
    } else {
      Absent(sn, ' ');
    }
  }

  /** The feature for a genus, family and order: by genus, else by family,
      else by order; none when no map has it. */
  function Lookup(maps: FeatureMaps, genus: string, family: string, order: string): (f: Option<string>)
    ensures f.Some? <==>
              (genus != Nan && genus in maps.genus) || (family != Nan && family in maps.family)
              || (order != Nan && order in maps.order)
    ensures genus != Nan && genus in maps.genus ==> f == Some(maps.genus[genus])
    ensures !(genus != Nan && genus in maps.genus) && family != Nan && family in maps.family ==>
              f == Some(maps.family[family])
    ensures (!(genus != Nan && genus in maps.genus) && !(family != Nan && family in maps.family)
             && order != Nan && order in maps.order) ==> f == Some(maps.order[order])
  {
    if genus != Nan && genus in maps.genus then Some(maps.genus[genus])
    else if family != Nan && family in maps.family then Some(maps.family[family])
    else if order != Nan && order in maps.order then Some(maps.order[order])
    else None
  }

  /** The feature for a row's normalised scientific name, family and order. */
  function NameFeature(maps: FeatureMaps, sn: string, family: string, order: string): Option<string> {
    Lookup(maps, Genus(sn), FamilyName(family), order)
  }

  /** The feature of a taxonomy row. */
  function RowFeature(maps: FeatureMaps, r: TaxonRow): Option<string> {
    NameFeature(maps, Norm(r.scientificName), Norm(r.family), Norm(r.order))
  }

  /** The entries stored for a feature: the scientific name, then the common
      name, each when present. */
  function NameEntries(f: Option<string>, sn: string, cn: string): seq<(string, string)> {
    match f
    case None => []
    case Some(v) => (if sn != Nan then [(sn, v)] else []) + (if cn != Nan then [(cn, v)] else [])
  }

  /** The entries of one taxonomy row. */
  function TaxonEntries(maps: FeatureMaps, r: TaxonRow): seq<(string, string)> {
    NameEntries(RowFeature(maps, r), Norm(r.scientificName), Norm(r.commonName))
  }

  function TaxonOf(maps: FeatureMaps): TaxonRow -> seq<(string, string)> {
    (r: TaxonRow) => TaxonEntries(maps, r)
  }

  /** The map the second loop builds. */
  function TaxonomyToFeature(maps: FeatureMaps, rows: seq<TaxonRow>): map<string, string> {
    Assign(Flatten(rows, TaxonOf(maps)), AsEntry())
  }

  /** `make_taxonomy_to_feature_map`, on the two tables. */
  function MakeTaxonomyToFeatureMap(taxonomy: seq<TaxonRow>, mapRows: seq<MapRow>): map<string, string> {
    TaxonomyToFeature(Maps(mapRows), taxonomy)
  }

  /** The stores of one row of the second loop, given its feature. */
  method StoreNames(tf: map<string, string>, f: Option<string>, sn: string, cn: string, ghost ps: seq<(string, string)>)
    returns (tf': map<string, string>)
    requires tf == Assign(ps, AsEntry())
    ensures tf' == Assign(ps + NameEntries(f, sn, cn), AsEntry())
  {
    tf' := tf;
    ghost var qs := ps;
    if f.Some? {
      if sn != Nan {
        AssignSnoc(qs, (sn, f.value));
        qs := qs + [(sn, f.value)];
        tf' := tf'[sn := f.value];
      }
      if cn != Nan {
        AssignSnoc(qs, (cn, f.value));
        qs := qs + [(cn, f.value)];
        tf' := tf'[cn := f.value];
      }
      assert qs == ps + NameEntries(f, sn, cn);
    } else {
      assert ps + [] == ps;
    }
  }

  /** One row of the second loop, on its normalised cells. */
  method StoreTaxonRow(maps: FeatureMaps, tf: map<string, string>, sn: string, cn: string, order: string, family: string,
                       ghost ps: seq<(string, string)>)
    returns (tf': map<string, string>)
    requires tf == Assign(ps, AsEntry())
    ensures tf' == Assign(ps + NameEntries(NameFeature(maps, sn, family, order), sn, cn), AsEntry())
  {
    var cut := family;
    if Find(family, "(") > 0 {
      cut := Strip(family[..Find(family, "(")]);
    }
    var genus := if sn != Nan then Strip(SliceTo(sn, Find(sn, " "))) else Nan;
    var f := Lookup(maps, genus, cut, order);
    tf' := StoreNames(tf, f, sn, cn, ps);
  }

  /** One row of the second loop: its cells normalised, then stored. */
  method ReadTaxonRow(maps: FeatureMaps, tf: map<string, string>, taxonomy: seq<TaxonRow>, i: nat)
    returns (tf': map<string, string>)
    requires i < |taxonomy| && tf == TaxonomyToFeature(maps, taxonomy[..i])
    ensures tf' == TaxonomyToFeature(maps, taxonomy[..i + 1])
  {
    var r := taxonomy[i];
    ghost var ps := Flatten(taxonomy[..i], TaxonOf(maps));
    FlattenPrefix(taxonomy, i, TaxonOf(maps));
    assert TaxonOf(maps)(r) == TaxonEntries(maps, r);
    var sn := Norm(r.scientificName);
    var cn := Norm(r.commonName);
    var order := Norm(r.order);
    var family := Norm(r.family);
    tf' := StoreTaxonRow(maps, tf, sn, cn, order, family, ps);
  }

  /** The second loop, over the taxonomy rows. */
  method MapTaxonomy(maps: FeatureMaps, taxonomy: seq<TaxonRow>) returns (tf: map<string, string>)
    ensures tf == TaxonomyToFeature(maps, taxonomy)
  {
    tf := map[];
    var i := 0;
    assert taxonomy[..0] == [];
    while i < |taxonomy|
      invariant 0 <= i <= |taxonomy|
      invariant tf == TaxonomyToFeature(maps, taxonomy[..i])
    {
      tf := ReadTaxonRow(maps, tf, taxonomy, i);
      i := i + 1;
    }
    assert taxonomy[..i] == taxonomy;
  }

  method BuildTaxonomyToFeature(taxonomy: seq<TaxonRow>, mapRows: seq<MapRow>) returns (tf: map<string, string>)
    ensures tf == MakeTaxonomyToFeatureMap(taxonomy, mapRows)
  {
    var maps := BuildFeatureMaps(mapRows);
    tf := MapTaxonomy(maps, taxonomy);
  }

  /** The row has a feature and names `name` as its scientific or common name. */
  predicate NamesTaxon(maps: FeatureMaps, r: TaxonRow, name: string) {
    RowFeature(maps, r).Some? && name != Nan && (name == Norm(r.scientificName) || name == Norm(r.commonName))
  }

  /** The value a row stores under each of its names. */
  function FeatureOr(maps: FeatureMaps): TaxonRow -> string {
    (r: TaxonRow) => match RowFeature(maps, r) case Some(f) => f case None => Nan
  }

  lemma NameEntriesStore(f: Option<string>, sn: string, cn: string, name: string)
    ensures (exists i :: 0 <= i < |NameEntries(f, sn, cn)| && NameEntries(f, sn, cn)[i].0 == name)
            <==> f.Some? && name != Nan && (name == sn || name == cn)
    ensures forall i :: 0 <= i < |NameEntries(f, sn, cn)| ==> NameEntries(f, sn, cn)[i].1 == f.value
  {
    var qs := NameEntries(f, sn, cn);
    if f.Some? && name != Nan && (name == sn || name == cn) {
      if name == sn {
        assert qs[0].0 == name;
      } else {
        assert qs[|qs| - 1].0 == name;
      }
    }
  }

  lemma TaxonStores(maps: FeatureMaps, r: TaxonRow, name: string)
    ensures Stores(TaxonOf(maps), r, name) <==> NamesTaxon(maps, r, name)
    ensures forall i :: 0 <= i < |TaxonOf(maps)(r)| ==> TaxonOf(maps)(r)[i].1 == FeatureOr(maps)(r)
  {
    NameEntriesStore(RowFeature(maps, r), Norm(r.scientificName), Norm(r.commonName), name);
  }

  /** A name is in the taxonomy map exactly when it is the scientific or the
      common name of a row that has a feature, and maps to the feature of the
      last such row. */
  lemma TaxonomyMapLastWins(maps: FeatureMaps, rows: seq<TaxonRow>, name: string)
    ensures name in TaxonomyToFeature(maps, rows) <==> exists k :: 0 <= k < |rows| && NamesTaxon(maps, rows[k], name)
    ensures name in TaxonomyToFeature(maps, rows) ==>
              exists k :: 0 <= k < |rows| && NamesTaxon(maps, rows[k], name)
                && Some(TaxonomyToFeature(maps, rows)[name]) == RowFeature(maps, rows[k])
                && forall j :: k < j < |rows| ==> !NamesTaxon(maps, rows[j], name)
  {
    forall k | 0 <= k < |rows| {
      TaxonStores(maps, rows[k], name);
    }
    FlattenLastWins(rows, TaxonOf(maps), FeatureOr(maps), name);
    if name in TaxonomyToFeature(maps, rows) {
      var k :| 0 <= k < |rows| && Stores(TaxonOf(maps), rows[k], name)
               && TaxonomyToFeature(maps, rows)[name] == FeatureOr(maps)(rows[k])
               && forall j :: k < j < |rows| ==> !Stores(TaxonOf(maps), rows[j], name);
      assert NamesTaxon(maps, rows[k], name);
    }
  }

  /** The genus of a stripped scientific name with a blank is its first word. */
  lemma GenusIsFirstWord(sn: string)
    requires sn != Nan && Strip(sn) == sn && Find(sn, " ") >= 0
    ensures var i := Find(sn, " ");
      |Genus(sn)| <= i && Genus(sn) == sn[..|Genus(sn)|] && ' ' !in Genus(sn)
      && (i > 0 ==> Genus(sn) != [])
      && (forall j :: |Genus(sn)| <= j < i ==> IsSpace(sn[j]))
    ensures NoSpace(sn[..Find(sn, " ")]) ==> Genus(sn) == sn[..Find(sn, " ")]
  {
    var i := Find(sn, " ");
    assert " " == [' '];
    BeforeFirst(sn, ' ');
    assert OccursAt(sn, " ", i);
    assert Genus(sn) == Strip(sn[..i]);
    assert !IsSpace(sn[0]) by {
      assert sn != [] && Strip(sn) != [];
    }
    StrippedWord(sn, i, Genus(sn));
  }

  /** The stripped text before position `i` of a name that starts with a
      non-blank and has no blank before `i`. */
  lemma StrippedWord(sn: string, i: nat, g: string)
    requires i < |sn| && g == Strip(sn[..i]) && ' ' !in sn[..i] && !IsSpace(sn[0])
    ensures |g| <= i && g == sn[..|g|] && ' ' !in g
    ensures i > 0 ==> g != []
    ensures forall j :: |g| <= j < i ==> IsSpace(sn[j])
    ensures NoSpace(sn[..i]) ==> g == sn[..i]
  {
    var w := sn[..i];
    StripPrefixSlice(sn, i);
    StripKeepsAbsent(w, ' ');
    if i > 0 {
      assert TrimLeft(w) == w;
      assert LeadingSpace(w) == 0;
    } else {
      assert w == [];
    }
    if NoSpace(w) {
      StripNoSpace(w);
    }
  }

  /** A scientific name without a blank loses its last character: the genus
      of "struthio" is "struthi". */
  lemma NoBlankGenusDropsLastChar()
    ensures Genus("struthio") == "struthi"
  {
    NoOccurrence("struthio", ' ');
    assert SliceTo("struthio", -1) == "struthi";
    StripNoSpace("struthi");
  }

  /** Whitespace other than a blank before the first blank is stripped off
      the genus: the genus of "ab\t c" is "ab", not "ab\t". */
  lemma TabBeforeBlankIsStripped()
    ensures var sn := "ab\t c";
      Strip(sn) == sn && Find(sn, " ") == 3 && sn[..3] == "ab\t" && Genus(sn) == "ab"
  {
    var sn := "ab\t c";
    FirstBlankOfSample();
    StripOfSample();
    assert SliceTo(sn, 3) == "ab\t";
  }

  lemma FirstBlankOfSample()
    ensures Find("ab\t c", " ") == 3
  {
    var sn := "ab\t c";
    assert OccursAt(sn, " ", 3) by { assert sn[3..4] == " "; }
    forall j | 0 <= j < 3 ensures !OccursAt(sn, " ", j) {
      assert sn[j..j + 1][0] == sn[j] != ' ';
    }
  }

  lemma StripOfSample()
    ensures Strip("ab\t c") == "ab\t c" && Strip("ab\t") == "ab"
  {
    var sn := "ab\t c";
    assert !IsSpace(sn[0]) && !IsSpace(sn[|sn| - 1]);
    StripKeepsTrimmed(sn);
    TabIsStripped();
  }

  lemma TabIsStripped()
    ensures Strip("ab\t") == "ab"
  {
    assert TrimLeft("ab\t") == "ab\t" by { assert !IsSpace('a'); }
    assert TrimRight("ab") == "ab" by { assert !IsSpace('b'); }
    assert TrimRight("ab\t") == TrimRight("ab") by { assert IsSpace('\t'); assert "ab\t"[..2] == "ab"; }
  }

  /** A family with '(' after the first character keeps only the text
      before it, which has no '('. */
  lemma FamilyNameCut(family: string)
    requires Find(family, "(") > 0
    ensures '(' !in FamilyName(family)
    ensures var i := Find(family, "(");
      var n := FamilyName(family);
      var a := LeadingSpace(family[..i]);
      a + |n| <= i && n == family[a..a + |n|]
      && (forall j :: 0 <= j < a ==> IsSpace(family[j]))
      && (forall j :: a + |n| <= j < i ==> IsSpace(family[j]))
    ensures FamilyName(family) != [] ==>
      !IsSpace(FamilyName(family)[0]) && !IsSpace(FamilyName(family)[|FamilyName(family)| - 1])
  {
    var i := Find(family, "(");
    var n := FamilyName(family);
    assert n == Strip(family[..i]);
    NoParenBeforeFirst(family, i);
    StrippedCut(family, i, n);
  }

  /** The stripped text before position `i`, which holds no '('. */
  lemma StrippedCut(family: string, i: nat, n: string)
    requires i <= |family| && n == Strip(family[..i]) && '(' !in family[..i]
    ensures '(' !in n
    ensures var a := LeadingSpace(family[..i]);
      a + |n| <= i && n == family[a..a + |n|]
      && (forall j :: 0 <= j < a ==> IsSpace(family[j]))
      && (forall j :: a + |n| <= j < i ==> IsSpace(family[j]))
  {
    StripKeepsAbsent(family[..i], '(');
    StripPrefixSlice(family, i);
  }

  lemma NoParenBeforeFirst(family: string, i: int)
    requires i == Find(family, "(") && i >= 0
    ensures '(' !in family[..i]
  {
    assert "(" == ['('];
    BeforeFirst(family, '(');
  }

  // ---------------------------------------------------------------------------
  // The classification loop of `run`

  datatype HostRow = HostRow(hostName: string, hostCommonName: string)

  datatype Verdict = Human | Swine | MappedScientific(feature: string) | MappedCommon(feature: string) | NotMapped

  predicate IsHuman(hostName: string, hostCommonName: string) {
    hostCommonName == "human" || hostName == "homo sapiens"
  }

  predicate IsSwine(hostName: string, hostCommonName: string) {
    hostCommonName == "pig" || hostCommonName == "swine" || hostName == "swine"
    || hostName == "sus scrofa domesticus" || hostName == "sus scrofa"
  }

  /** The decision for one annotation row, on its normalised host name and
      host common name: human, then swine, then the host name, then the
      common name. */
  function Classify(tf: map<string, string>, hostName: string, hostCommonName: string): (v: Verdict)
    ensures v == Human <==> IsHuman(hostName, hostCommonName)
    ensures v == Swine <==> !IsHuman(hostName, hostCommonName) && IsSwine(hostName, hostCommonName)
    ensures v.MappedScientific? <==> !IsHuman(hostName, hostCommonName) && !IsSwine(hostName, hostCommonName)
                                     && hostName in tf
    ensures v.MappedScientific? ==> v.feature == tf[hostName]
    ensures v.MappedCommon? <==> !IsHuman(hostName, hostCommonName) && !IsSwine(hostName, hostCommonName)
                                 && hostName !in tf && hostCommonName in tf
    ensures v.MappedCommon? ==> v.feature == tf[hostCommonName]
  {
    if IsHuman(hostName, hostCommonName) then Human
    else if IsSwine(hostName, hostCommonName) then Swine
    else if hostName in tf then MappedScientific(tf[hostName])
    else if hostCommonName in tf then MappedCommon(tf[hostCommonName])
    else NotMapped
  }

  /** The counters of `run` and the lines it reports for mapped rows. */
  datatype Counts = Counts(total: nat, human: nat, swine: nat, mappedScientific: nat, mappedCommon: nat,
                           notMapped: nat, reported: seq<string>)

  function Counted(c: Counts, hostName: string, hostCommonName: string, v: Verdict): Counts {
    var c := c.(total := c.total + 1);
    match v
    case Human => c.(human := c.human + 1)
    case Swine => c.(swine := c.swine + 1)
    case MappedScientific(f) =>
      c.(mappedScientific := c.mappedScientific + 1, reported := c.reported + [hostName + " -> " + f])
    case MappedCommon(f) =>
      c.(mappedCommon := c.mappedCommon + 1, reported := c.reported + [hostCommonName + " -> " + f])
    case NotMapped => c.(notMapped := c.notMapped + 1)
  }

  function RowCounted(tf: map<string, string>, c: Counts, r: HostRow): Counts {
    var hn, cn := Norm(r.hostName), Norm(r.hostCommonName);
    Counted(c, hn, cn, Classify(tf, hn, cn))
  }

  function CountRows(tf: map<string, string>, rows: seq<HostRow>): Counts {
    if rows == [] then Counts(0, 0, 0, 0, 0, 0, [])
    else RowCounted(tf, CountRows(tf, rows[..|rows| - 1]), rows[|rows| - 1])
  }

  /** `run`: the taxonomy map is built, then every annotation row classified. */
  function Run(taxonomy: seq<TaxonRow>, mapRows: seq<MapRow>, annotations: seq<HostRow>): Counts {
    CountRows(MakeTaxonomyToFeatureMap(taxonomy, mapRows), annotations)
  }

  /** The body of the loop of `run`, on the row's normalised names. */
  method CountRow(tf: map<string, string>, c: Counts, hostName: string, hostCommonName: string) returns (c': Counts)
    ensures c' == Counted(c, hostName, hostCommonName, Classify(tf, hostName, hostCommonName))
  {
    c' := c.(total := c.total + 1);
    if hostCommonName == "human" || hostName == "homo sapiens" {
      c' := c'.(human := c'.human + 1);
    } else if hostCommonName == "pig" || hostCommonName == "swine" || hostName == "swine"
              || hostName == "sus scrofa domesticus" || hostName == "sus scrofa" {
      c' := c'.(swine := c'.swine + 1);
    } else if hostName in tf {
      c' := c'.(mappedScientific := c'.mappedScientific + 1, reported := c'.reported + [hostName + " -> " + tf[hostName]]);
    } else if hostCommonName in tf {
      c' := c'.(mappedCommon := c'.mappedCommon + 1, reported := c'.reported + [hostCommonName + " -> " + tf[hostCommonName]]);
    } else {
      c' := c'.(notMapped := c'.notMapped + 1);
    }
  }

  method RunAnalyzer(taxonomy: seq<TaxonRow>, mapRows: seq<MapRow>, annotations: seq<HostRow>) returns (c: Counts)
    ensures c == Run(taxonomy, mapRows, annotations)
  {
    var tf := BuildTaxonomyToFeature(taxonomy, mapRows);
    c := Counts(0, 0, 0, 0, 0, 0, []);
    var i := 0;
    assert annotations[..0] == [];
    while i < |annotations|
      invariant 0 <= i <= |annotations|
      invariant c == CountRows(tf, annotations[..i])
    {
      var r := annotations[i];
      assert annotations[..i + 1][..i] == annotations[..i];
      c := CountRow(tf, c, Norm(r.hostName), Norm(r.hostCommonName));
      i := i + 1;
      assert c == CountRows(tf, annotations[..i]);
    }
    assert annotations[..i] == annotations;
  }

  /** Every annotation row goes to exactly one counter, and one line is
      reported per mapped row. */
  lemma {:induction false} CountsBalance(tf: map<string, string>, rows: seq<HostRow>)
    ensures var c := CountRows(tf, rows);
      c.total == |rows|
      && c.total == c.human + c.swine + c.mappedScientific + c.mappedCommon + c.notMapped
      && |c.reported| == c.mappedScientific + c.mappedCommon
  {
    if rows != [] {
      CountsBalance(tf, rows[..|rows| - 1]);
    }
  }
}
